/**
 Model of formatArenaRef and parseArenaRef in cmd/tbwasm/refs.go.
 */
module ArenaRefs {
  import opened Basics
  import opened Strings

  const COLON: byte := 58
  const MAX_INT64: nat := 0x7FFF_FFFF_FFFF_FFFF

  // ---------- decimal numbers ----------

  function Dec(n: nat): (s: Bytes)
    ensures |s| > 0 && forall c | c in s :: 48 <= c <= 57
  {
    if n < 10 then [48 + n] else Dec(n / 10) + [48 + n % 10]
  }

  predicate IsDigit(c: byte) {
    48 <= c <= 57
  }

  function Value(s: Bytes): nat
    requires forall c | c in s :: IsDigit(c)
  {
    if s == [] then 0 else (assert IsDigit(s[|s| - 1]); 10 * Value(s[..|s| - 1]) + (s[|s| - 1] as int - 48))
  }

  /** strconv.ParseInt(s, 10, 64): an optional sign, then digits, in range. */
  function ParseInt(s: Bytes): Option<int> {
    var negative := s != [] && s[0] == 45;
    var digits := if s != [] && (s[0] == 43 || s[0] == 45) then s[1..] else s;
    if digits == [] || exists c :: c in digits && !IsDigit(c) then None
    else
      var v: int := Value(digits);
      if negative then (if v > MAX_INT64 + 1 then None else Some(-v))
      else if v > MAX_INT64 then None else Some(v)
  }

  lemma {:induction false} ValueOfDec(n: nat)
    ensures (forall c | c in Dec(n) :: IsDigit(c)) && Value(Dec(n)) == n
  {
    if n < 10 {
      assert Dec(n)[..0] == [];
    } else {
      ValueOfDec(n / 10);
      assert Dec(n)[..|Dec(n)| - 1] == Dec(n / 10);
    }
  }

  lemma ParseDec(n: nat)
    requires n <= MAX_INT64
    ensures ParseInt(Dec(n)) == Some(n) && COLON !in Dec(n)
  {
    ValueOfDec(n);
    assert Dec(n)[0] in Dec(n);
  }

  // ---------- refs ----------

  function Format(prefix: Bytes, off: nat, len: nat): Bytes {
    prefix + [COLON] + Dec(off) + [COLON] + Dec(len)
  }

  datatype Ref = Ref(prefix: Bytes, off: int, len: int)

  function Parse(ref: Bytes): Option<Ref> {
    var parts := Split(ref, COLON);
    if |parts| != 3 then None else
    var off, len := ParseInt(parts[1]), ParseInt(parts[2]);
    if off.None? || len.None? then None else Some(Ref(parts[0], off.value, len.value))
  }

  /** parseArenaRef inverts formatArenaRef exactly for prefixes without a colon; any other ref is
      refused. */
  lemma ParseInvertsFormat(prefix: Bytes, off: nat, len: nat)
    requires off <= MAX_INT64 && len <= MAX_INT64
    ensures COLON !in prefix ==> Parse(Format(prefix, off, len)) == Some(Ref(prefix, off, len))
    ensures COLON in prefix ==> Parse(Format(prefix, off, len)) == None
  {
    hide ParseInt, Dec;
    ParseDec(off);
    ParseDec(len);
    SplitOne(prefix, COLON);
    SplitOne(Dec(off), COLON);
    SplitOne(Dec(len), COLON);
    SplitAt(prefix + [COLON] + Dec(off), Dec(len), COLON);
    SplitAt(prefix, Dec(off), COLON);
  }

  /** Two arenas with different colon-free prefixes never hand out the same ref. */
  lemma PrefixesSeparate(p: Bytes, off: nat, len: nat, p': Bytes, off': nat, len': nat)
    requires off <= MAX_INT64 && len <= MAX_INT64 && off' <= MAX_INT64 && len' <= MAX_INT64
    requires COLON !in p && COLON !in p' && Format(p, off, len) == Format(p', off', len')
    ensures p == p' && off == off' && len == len'
  {
    ParseInvertsFormat(p, off, len);
    ParseInvertsFormat(p', off', len');
  }
}
