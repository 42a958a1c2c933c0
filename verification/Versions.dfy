/**
 Model of versionLess and the release selection in internal/purefs/sysupdate.go.
 */
module Versions {
  import opened Basics
  import opened Codec
  import opened ArenaRefs

  // ---------- decimal runs of any width ----------

  ghost predicate Digits(s: Bytes) {
    forall c | c in s :: IsDigit(c)
  }

  function Pow10(n: nat): (r: nat)
    ensures r >= 1
  {
    if n == 0 then 1 else 10 * Pow10(n - 1)
  }

  lemma {:induction false} ValueCons(s: Bytes)
    requires Digits(s) && s != []
    ensures Value(s) == (s[0] as int - 48) * Pow10(|s| - 1) + Value(s[1..])
    decreases |s|
  {
    var n := |s| - 1;
    if n == 0 {
      assert s[..0] == [] && s[1..] == [];
    } else {
      ValueCons(s[..n]);
      assert s[..n][1..] == s[1..][..n - 1] && s[1..][n - 1] == s[n] && s[..n][0] == s[0];
      Distribute((s[0] as int - 48), Pow10(n - 1));
    }
  }

  lemma Distribute(d: int, p: int)
    ensures 10 * (d * p) == d * (10 * p)
  {
  }

  lemma {:induction false} ValueBound(s: Bytes)
    requires Digits(s)
    ensures Value(s) < Pow10(|s|)
    decreases |s|
  {
    if s != [] {
      assert s[|s| - 1] in s;
      ValueBound(s[..|s| - 1]);
    }
  }

  function TrimZeros(s: Bytes): (r: Bytes)
    ensures |r| <= |s| && (r != [] ==> r[0] != 48)
    ensures forall c | c in r :: c in s
  {
    if s != [] && s[0] == 48 then TrimZeros(s[1..]) else s
  }

  lemma {:induction false} TrimKeepsValue(s: Bytes)
    requires Digits(s)
    ensures Digits(TrimZeros(s)) && Value(TrimZeros(s)) == Value(s)
  {
    if s != [] && s[0] == 48 {
      ValueCons(s);
      TrimKeepsValue(s[1..]);
    }
  }

  /** Without leading zeros a longer run is a larger number. */
  lemma LongerIsLarger(a: Bytes, b: Bytes)
    requires Digits(a) && Digits(b) && |a| < |b| && b[0] != 48
    ensures Value(a) < Value(b)
  {
    ValueBound(a);
    ValueCons(b);
    Pow10Grows(|a|, |b| - 1);
    assert b[0] in b;
    AtLeastOne(b[0] as int - 48, Pow10(|b| - 1));
  }

  lemma AtLeastOne(d: int, p: int)
    requires d >= 1 && p >= 0
    ensures d * p >= p
  {
  }

  lemma {:induction false} Pow10Grows(m: nat, n: nat)
    requires m <= n
    ensures Pow10(m) <= Pow10(n)
  {
    if m < n { Pow10Grows(m, n - 1); }
  }

  /** For runs of one width, byte order is numeric order. */
  lemma {:induction false} SameWidthOrder(a: Bytes, b: Bytes)
    requires Digits(a) && Digits(b) && |a| == |b|
    ensures Less(a, b) <==> Value(a) < Value(b)
    ensures a == b <==> Value(a) == Value(b)
    decreases |a|
  {
    if a != [] {
      ValueCons(a);
      ValueCons(b);
      ValueBound(a[1..]);
      ValueBound(b[1..]);
      SameWidthOrder(a[1..], b[1..]);
      assert a[0] in a && b[0] in b;
      HeadDecides(a[0] as int - 48, b[0] as int - 48, Pow10(|a| - 1), Value(a[1..]), Value(b[1..]));
      assert a == [a[0]] + a[1..] && b == [b[0]] + b[1..];
      LessTotal(a, b);
    }
  }

  lemma HeadDecides(x: int, y: int, p: int, u: int, v: int)
    requires 0 <= u < p && 0 <= v < p
    ensures x < y ==> x * p + u < y * p + v
    ensures y < x ==> y * p + v < x * p + u
  {
    if x < y { AtLeastOne(y - x, p); assert y * p == x * p + (y - x) * p; }
    if y < x { AtLeastOne(x - y, p); assert x * p == y * p + (x - y) * p; }
  }

  datatype Order = Before | Same | After

  /** compareNum agrees with the order of natural numbers, at any width. */
  method CompareNum(a0: Bytes, b0: Bytes) returns (r: Order)
    requires Digits(a0) && Digits(b0)
    ensures r == if Value(a0) < Value(b0) then Before else if Value(a0) == Value(b0) then Same else After
  {
    TrimKeepsValue(a0);
    TrimKeepsValue(b0);
    ValueOfDec(0);
    var a, b := TrimZeros(a0), TrimZeros(b0);
    ghost var a1, b1 := a, b;
    EmptyIsZero(a);
    EmptyIsZero(b);
    if a == [] { a := [48]; }
    if b == [] { b := [48]; }
    assert Digits(a) && Value(a) == Value(a0) && Digits(b) && Value(b) == Value(b0);
    if |a| != |b| {
      if |a| < |b| {
        LongerIsLarger(a, b);
        return Before;
      }
      LongerIsLarger(b, a);
      return After;
    }
    SameWidthOrder(a, b);
    SameWidthOrder(b, a);
    LessTotal(a, b);
    if Less(a, b) { return Before; }
    if Less(b, a) { return After; }
    return Same;
  }

  lemma EmptyIsZero(s: Bytes)
    requires Digits(s)
    ensures s == [] ==> Value(s) == 0 && Digits([48]) && Value([48]) == 0
  {
    assert [48 as byte][..0] == [];
  }

  // ---------- versions as token sequences ----------

  /** A digit run stands for its number, any other run for itself. */
  datatype Token = Num(n: nat) | Text(b: Bytes)

  predicate DigitFirst(s: Bytes) {
    s != [] && IsDigit(s[0])
  }

  /** The length of the first run. */
  function RunLength(s: Bytes, num: bool): (k: nat)
    ensures k <= |s| && forall i | 0 <= i < k :: IsDigit(s[i]) == num
    ensures k < |s| ==> IsDigit(s[k]) != num
  {
    if s == [] || IsDigit(s[0]) != num then 0 else 1 + RunLength(s[1..], num)
  }

  function Lead(s: Bytes): (k: nat)
    requires s != []
    ensures 0 < k <= |s|
  {
    RunLength(s, IsDigit(s[0]))
  }

  method SplitLead(s: Bytes) returns (lead: Bytes, rest: Bytes)
    requires s != []
    ensures lead == s[..Lead(s)] && rest == s[Lead(s)..]
  {
    var num := IsDigit(s[0]);
    for i := 0 to |s|
      invariant forall j | 0 <= j < i :: IsDigit(s[j]) == num
    {
      if IsDigit(s[i]) != num {
        RunIs(s, num, i);
        return s[..i], s[i..];
      }
    }
    RunIs(s, num, |s|);
    return s, [];
  }

  lemma RunIs(s: Bytes, num: bool, k: nat)
    requires k <= |s| && (forall i | 0 <= i < k :: IsDigit(s[i]) == num) && (k < |s| ==> IsDigit(s[k]) != num)
    ensures RunLength(s, num) == k
  {
  }

  ghost function TokenOf(run: Bytes): Token
    requires DigitFirst(run) ==> Digits(run)
  {
    if DigitFirst(run) then Num(Value(run)) else Text(run)
  }

  lemma LeadIsRun(s: Bytes)
    requires s != []
    ensures var run := s[..Lead(s)];
            run != [] && (DigitFirst(run) <==> DigitFirst(s)) && (DigitFirst(run) ==> Digits(run))
    ensures !DigitFirst(s[..Lead(s)]) ==> forall c | c in s[..Lead(s)] :: !IsDigit(c)
  {
  }

  ghost function Tokens(s: Bytes): seq<Token>
    decreases |s|
  {
    if s == [] then [] else
    LeadIsRun(s);
    [TokenOf(s[..Lead(s)])] + Tokens(s[Lead(s)..])
  }

  /** Numbers by value, texts by bytes; a text is before every number exactly when its first byte is
      below the digits. */
  ghost predicate TokenLess(x: Token, y: Token) {
    match (x, y)
    case (Num(m), Num(n)) => m < n
    case (Text(a), Text(b)) => Less(a, b)
    case (Text(a), Num(_)) => a != [] && a[0] < 48
    case (Num(_), Text(b)) => b != [] && b[0] >= 48
  }

  /** Lexicographic order on token sequences. */
  ghost predicate LexLess(x: seq<Token>, y: seq<Token>) {
    y != [] && (x == [] || TokenLess(x[0], y[0]) || (x[0] == y[0] && LexLess(x[1..], y[1..])))
  }

  ghost predicate GoodToken(t: Token) {
    t.Text? ==> t.b != []
  }

  lemma TokenOrder(x: Token, y: Token, z: Token)
    requires GoodToken(x) && GoodToken(y) && GoodToken(z)
    ensures !TokenLess(x, x) && (TokenLess(x, y) || x == y || TokenLess(y, x)) && !(TokenLess(x, y) && TokenLess(y, x))
    ensures TokenLess(x, y) && TokenLess(y, z) ==> TokenLess(x, z)
  {
    if x.Text? { LessTotal(x.b, x.b); }
    if x.Text? && y.Text? {
      LessTotal(x.b, y.b);
      if z.Text? && Less(x.b, y.b) && Less(y.b, z.b) { LessTransitive(x.b, y.b, z.b); }
    }
  }

  ghost predicate GoodTokens(s: seq<Token>) {
    forall t | t in s :: GoodToken(t)
  }

  lemma {:induction false} LexTotal(x: seq<Token>, y: seq<Token>)
    requires GoodTokens(x) && GoodTokens(y)
    ensures LexLess(x, y) || x == y || LexLess(y, x)
    ensures !(LexLess(x, y) && LexLess(y, x)) && !LexLess(x, x)
    decreases |x|
  {
    if x != [] {
      assert x[0] in x && x == [x[0]] + x[1..];
      LexTotal(x[1..], x[1..]);
      TokenOrder(x[0], x[0], x[0]);
      if y != [] {
        assert y[0] in y && y == [y[0]] + y[1..];
        TokenOrder(x[0], y[0], y[0]);
        LexTotal(x[1..], y[1..]);
      }
    }
  }

  lemma {:induction false} LexTransitive(x: seq<Token>, y: seq<Token>, z: seq<Token>)
    requires GoodTokens(x) && GoodTokens(y) && GoodTokens(z) && LexLess(x, y) && LexLess(y, z)
    ensures LexLess(x, z)
    decreases |x|
  {
    if x != [] {
      assert x[0] in x && y[0] in y && z[0] in z;
      TokenOrder(x[0], y[0], z[0]);
      if x[0] == y[0] == z[0] { LexTransitive(x[1..], y[1..], z[1..]); }
    }
  }

  lemma {:induction false} TokensGood(s: Bytes)
    ensures GoodTokens(Tokens(s))
    decreases |s|
  {
    if s != [] {
      LeadIsRun(s);
      TokensGood(s[Lead(s)..]);
    }
  }

  /** The order versionLess computes. */
  ghost predicate Older(a: Bytes, b: Bytes) {
    LexLess(Tokens(a), Tokens(b))
  }

  /** A strict weak order on all strings, whose ties are the versions that read as the same texts and
      numbers. */
  lemma StrictWeakOrder(a: Bytes, b: Bytes, c: Bytes)
    ensures !Older(a, a) && !(Older(a, b) && Older(b, a))
    ensures Older(a, b) && Older(b, c) ==> Older(a, c)
    ensures !Older(a, b) && !Older(b, a) <==> Tokens(a) == Tokens(b)
    ensures !Older(a, b) && !Older(b, c) ==> !Older(a, c)
  {
    hide Tokens, LexLess;
    TokensGood(a);
    TokensGood(b);
    TokensGood(c);
    LexTotal(Tokens(a), Tokens(b));
    LexTotal(Tokens(b), Tokens(c));
    LexTotal(Tokens(a), Tokens(c));
    if Older(a, b) && Older(b, c) { LexTransitive(Tokens(a), Tokens(b), Tokens(c)); }
    if Older(c, b) && Older(b, a) { LexTransitive(Tokens(c), Tokens(b), Tokens(a)); }
  }

  // ---------- leading zeros ----------

  function Trimmed(run: Bytes): (r: Bytes)
    ensures r != []
  {
    if TrimZeros(run) == [] then [48] else TrimZeros(run)
  }

  lemma TrimmedIs(run: Bytes)
    requires Digits(run)
    ensures Digits(Trimmed(run)) && DigitFirst(Trimmed(run)) && Value(Trimmed(run)) == Value(run)
  {
    TrimKeepsValue(run);
    EmptyIsZero(TrimZeros(run));
    assert Trimmed(run)[0] in Trimmed(run);
  }

  lemma TrimmedUnique(x: Bytes, y: Bytes)
    requires Digits(x) && Digits(y)
    ensures Trimmed(x) == Trimmed(y) <==> Value(x) == Value(y)
  {
    TrimmedIs(x);
    TrimmedIs(y);
    var a, b := Trimmed(x), Trimmed(y);
    if |a| < |b| { LongerIsLarger(a, b); }
    else if |b| < |a| { LongerIsLarger(b, a); }
    else { SameWidthOrder(a, b); }
  }

  /** The version with the leading zeros of every digit run removed. */
  function Normal(s: Bytes): Bytes
    decreases |s|
  {
    if s == [] then [] else
    (if DigitFirst(s) then Trimmed(s[..Lead(s)]) else s[..Lead(s)]) + Normal(s[Lead(s)..])
  }

  lemma {:induction false} NormalFirst(s: Bytes)
    ensures (s == [] <==> Normal(s) == []) && (DigitFirst(s) <==> DigitFirst(Normal(s)))
  {
    if s != [] {
      LeadIsRun(s);
      if DigitFirst(s) { TrimmedIs(s[..Lead(s)]); }
    }
  }

  lemma OtherClass(s: Bytes)
    requires s != [] && s[Lead(s)..] != []
    ensures DigitFirst(s[Lead(s)..]) <==> !DigitFirst(s)
  {
  }

  /** A first run followed by a run of the other class splits off as such. */
  lemma TokensSplit(run: Bytes, rest: Bytes)
    requires run != [] && (if DigitFirst(run) then Digits(run) else forall c | c in run :: !IsDigit(c))
    requires rest != [] ==> (DigitFirst(rest) <==> !DigitFirst(run))
    ensures Tokens(run + rest) == [TokenOf(run)] + Tokens(rest)
  {
    var s := run + rest;
    RunIs(s, DigitFirst(run), |run|);
    assert s[..|run|] == run && s[|run|..] == rest;
  }

  lemma {:induction false} NormalKeepsTokens(s: Bytes)
    ensures Tokens(Normal(s)) == Tokens(s)
    decreases |s|
  {
    hide TokenOf;
    if s != [] {
      LeadIsRun(s);
      var run, rest := s[..Lead(s)], s[Lead(s)..];
      NormalKeepsTokens(rest);
      NormalFirst(rest);
      if rest != [] { OtherClass(s); }
      if DigitFirst(s) {
        TrimmedIs(run);
        TokensSplit(Trimmed(run), Normal(rest));
        NumTokens(Trimmed(run), run);
      } else {
        TokensSplit(run, Normal(rest));
      }
    }
  }

  lemma {:induction false} SameTokensSameNormal(a: Bytes, b: Bytes)
    requires Tokens(a) == Tokens(b)
    ensures Normal(a) == Normal(b)
    decreases |a|
  {
    if a != [] && b != [] {
      LeadIsRun(a);
      LeadIsRun(b);
      var x, y := a[..Lead(a)], b[..Lead(b)];
      assert Tokens(a)[0] == TokenOf(x) && Tokens(b)[0] == TokenOf(y);
      assert Tokens(a)[1..] == Tokens(a[Lead(a)..]) && Tokens(b)[1..] == Tokens(b[Lead(b)..]);
      SameTokensSameNormal(a[Lead(a)..], b[Lead(b)..]);
      if DigitFirst(a) { TrimmedUnique(x, y); }
    }
  }

  /** Two versions tie exactly when they are equal up to leading zeros in digit runs. */
  lemma TiesAreLeadingZeros(a: Bytes, b: Bytes)
    ensures !Older(a, b) && !Older(b, a) <==> Normal(a) == Normal(b)
  {
    hide Tokens, Normal, LexLess;
    StrictWeakOrder(a, b, b);
    NormalKeepsTokens(a);
    NormalKeepsTokens(b);
    if Tokens(a) == Tokens(b) { SameTokensSameNormal(a, b); }
  }

  lemma DifferentRuns(x: Bytes, y: Bytes)
    requires x != [] && y != [] && (DigitFirst(x) ==> Digits(x)) && (DigitFirst(y) ==> Digits(y))
    requires !(DigitFirst(x) && DigitFirst(y))
    ensures TokenOf(x) == TokenOf(y) <==> x == y
    ensures x != y ==> (Less(x, y) <==> TokenLess(TokenOf(x), TokenOf(y)))
  {
  }

  /** versionLess's loop. */
  method VersionLess(a0: Bytes, b0: Bytes) returns (r: bool)
    ensures r <==> Older(a0, b0)
  {
    hide Tokens, LexLess, TokenLess, TokenOf, Lead;
    var a, b := a0, b0;
    while a != [] && b != []
      invariant Older(a0, b0) <==> LexLess(Tokens(a), Tokens(b))
      decreases |a|
    {
      LeadIsRun(a);
      LeadIsRun(b);
      var ad, an := SplitLead(a);
      var bd, bn := SplitLead(b);
      OneToken(a, b);
      if DigitFirst(ad) && DigitFirst(bd) {
        var c := CompareNum(ad, bd);
        NumTokens(ad, bd);
        if c == Before { return true; }
        if c == After { return false; }
      } else {
        DifferentRuns(ad, bd);
        if ad != bd {
          TokensApart(ad, bd);
          r := Less(ad, bd);
          return;
        }
        TokenSelf(ad);
      }
      LeadPositive(a);
      a, b := an, bn;
    }
    NoTokens(a, b);
    r := a == [] && b != [];
  }

  lemma LeadPositive(s: Bytes)
    requires s != []
    ensures Lead(s) > 0
  {
  }

  lemma OneToken(a: Bytes, b: Bytes)
    requires a != [] && b != []
    ensures var x, y := a[..Lead(a)], b[..Lead(b)];
            && (DigitFirst(x) ==> Digits(x)) && (DigitFirst(y) ==> Digits(y))
            && (LexLess(Tokens(a), Tokens(b)) <==>
                  || TokenLess(TokenOf(x), TokenOf(y))
                  || (TokenOf(x) == TokenOf(y) && LexLess(Tokens(a[Lead(a)..]), Tokens(b[Lead(b)..]))))
  {
    LeadIsRun(a);
    LeadIsRun(b);
  }

  lemma NumTokens(x: Bytes, y: Bytes)
    requires DigitFirst(x) && DigitFirst(y) && Digits(x) && Digits(y)
    ensures TokenLess(TokenOf(x), TokenOf(y)) <==> Value(x) < Value(y)
    ensures TokenOf(x) == TokenOf(y) <==> Value(x) == Value(y)
  {
  }

  lemma TokenSelf(x: Bytes)
    requires x != [] && (DigitFirst(x) ==> Digits(x))
    ensures !TokenLess(TokenOf(x), TokenOf(x))
  {
    TokenOrder(TokenOf(x), TokenOf(x), TokenOf(x));
  }

  lemma TokensApart(x: Bytes, y: Bytes)
    requires x != [] && y != [] && x != y && (DigitFirst(x) ==> Digits(x)) && (DigitFirst(y) ==> Digits(y))
    requires !(DigitFirst(x) && DigitFirst(y))
    ensures TokenOf(x) != TokenOf(y)
  {
  }

  lemma NoTokens(a: Bytes, b: Bytes)
    requires a == [] || b == []
    ensures LexLess(Tokens(a), Tokens(b)) <==> a == [] && b != []
  {
  }

  // ---------- the release ----------

  /** A manifest line after matching: which artifact it names, or neither. */
  datatype Line =
    | Uki(stem: Bytes, version: Bytes, file: Bytes, sha: Bytes)
    | Root(stem: Bytes, version: Bytes, file: Bytes, sha: Bytes)
    | Other

  datatype Artifact = Artifact(file: Bytes, sha: Bytes)

  datatype Half = Half(uki: Option<Artifact>, root: Option<Artifact>)

  datatype Release = Release(version: Bytes, uki: Artifact, root: Artifact)

  datatype Failure = SeveralStems | NothingComplete | MissingDigest

  datatype Outcome = Found(release: Release) | Refused(why: Failure)

  /** Lines that count: an artifact of the wanted stem, any stem when none is given. */
  predicate Counts(l: Line, stem: Bytes) {
    !l.Other? && (stem == [] || l.stem == stem)
  }

  /** The last artifact of a kind that the manifest lists for a version. */
  function LastOf(lines: seq<Line>, stem: Bytes, v: Bytes, uki: bool): Option<Artifact> {
    if lines == [] then None else
    var l := lines[|lines| - 1];
    if Counts(l, stem) && l.version == v && l.Uki? == uki then Some(Artifact(l.file, l.sha))
    else LastOf(lines[..|lines| - 1], stem, v, uki)
  }

  ghost predicate Complete(lines: seq<Line>, stem: Bytes, v: Bytes) {
    LastOf(lines, stem, v, true).Some? && LastOf(lines, stem, v, false).Some?
  }

  ghost predicate Scanned(lines: seq<Line>, stem: Bytes, halves: map<Bytes, Half>, stems: set<Bytes>) {
    && (forall v :: (v in halves <==> LastOf(lines, stem, v, true).Some? || LastOf(lines, stem, v, false).Some?))
    && (forall v | v in halves :: halves[v] == Half(LastOf(lines, stem, v, true), LastOf(lines, stem, v, false)))
    && (forall s :: s in stems <==> exists l :: l in lines && Counts(l, stem) && l.stem == s)
  }

  /** The scan loop. */
  method Scan(lines: seq<Line>, stem: Bytes) returns (halves: map<Bytes, Half>, stems: set<Bytes>)
    ensures Scanned(lines, stem, halves, stems)
  {
    halves, stems := map[], {};
    for i := 0 to |lines|
      invariant Scanned(lines[..i], stem, halves, stems)
    {
      var l := lines[i];
      ghost var before, seen := halves, stems;
      if !l.Other? && (stem == [] || l.stem == stem) {
        stems := stems + {l.stem};
        var h := if l.version in halves then halves[l.version] else Half(None, None);
        h := if l.Uki? then h.(uki := Some(Artifact(l.file, l.sha))) else h.(root := Some(Artifact(l.file, l.sha)));
        halves := halves[l.version := h];
      }
      ScanStep(lines, i, stem, before, seen, halves, stems);
    }
    assert lines[..|lines|] == lines;
  }

  lemma ScanStep(lines: seq<Line>, i: nat, stem: Bytes, halves: map<Bytes, Half>, stems: set<Bytes>,
                 halves': map<Bytes, Half>, stems': set<Bytes>)
    requires i < |lines| && Scanned(lines[..i], stem, halves, stems)
    requires var l := lines[i];
             if Counts(l, stem) then
               var h := if l.version in halves then halves[l.version] else Half(None, None);
               && stems' == stems + {l.stem}
               && halves' == halves[l.version := if l.Uki? then h.(uki := Some(Artifact(l.file, l.sha)))
                   else h.(root := Some(Artifact(l.file, l.sha)))]
             else halves' == halves && stems' == stems
    ensures Scanned(lines[..i + 1], stem, halves', stems')
  {
    var front, more, l := lines[..i], lines[..i + 1], lines[i];
    assert more == front + [l] && more[..i] == front;
  }

  /** sort.Slice by versionLess: a permutation in which no later version is older. */
  method SortVersions(vs: set<Bytes>) returns (sorted: seq<Bytes>)
    ensures (forall v :: v in sorted <==> v in vs)
    ensures forall i, j | 0 <= i < j < |sorted| :: !Older(sorted[j], sorted[i])
  {
    hide Older;
    sorted := [];
    var todo := vs;
    while todo != {}
      invariant todo <= vs && (forall v :: v in sorted <==> v in vs && v !in todo)
      invariant forall i, j | 0 <= i < j < |sorted| :: !Older(sorted[j], sorted[i])
    {
      var v :| v in todo;
      var k := 0;
      while k < |sorted|
        invariant k <= |sorted| && forall i | 0 <= i < k :: !Older(v, sorted[i])
      {
        var less := VersionLess(v, sorted[k]);
        if less { break; }
        k := k + 1;
      }
      InsertSorted(sorted, v, k);
      assert forall x :: x in sorted[..k] + [v] + sorted[k..] <==> x in sorted || x == v by {
        assert sorted == sorted[..k] + sorted[k..];
      }
      sorted := sorted[..k] + [v] + sorted[k..];
      todo := todo - {v};
    }
  }

  lemma InsertSorted(s: seq<Bytes>, v: Bytes, k: nat)
    requires k <= |s| && (forall i, j | 0 <= i < j < |s| :: !Older(s[j], s[i]))
    requires (forall i | 0 <= i < k :: !Older(v, s[i])) && (k < |s| ==> Older(v, s[k]))
    ensures var t := s[..k] + [v] + s[k..]; forall i, j | 0 <= i < j < |t| :: !Older(t[j], t[i])
  {
    hide Older;
    var t := s[..k] + [v] + s[k..];
    forall i, j | 0 <= i < j < |t| ensures !Older(t[j], t[i]) {
      if i == k && j > k {
        // v is older than s[k], and s[j - 1] is not older than s[k]
        StrictWeakOrder(s[j - 1], s[k], v);
        StrictWeakOrder(s[k], v, v);
        StrictWeakOrder(v, s[k], v);
      }
    }
  }

  /** ResolveDdiRelease: the chosen version has both artifacts, both with digests, and no complete
      version is newer; and each refusal has its reason. */
  method ResolveDdiRelease(lines: seq<Line>, stem: Bytes) returns (r: Outcome)
    ensures r.Found? ==>
              var v := r.release.version;
              && LastOf(lines, stem, v, true) == Some(r.release.uki) &&
                  LastOf(lines, stem, v, false) == Some(r.release.root)
              && r.release.uki.sha != [] && r.release.root.sha != []
              && (forall w | Complete(lines, stem, w) :: !Older(v, w))
              && (forall l, m | l in lines && m in lines && Counts(l, stem) && Counts(m, stem) :: l.stem == m.stem)
    ensures r == Refused(SeveralStems) <==>
              && stem == []
              && exists l, m :: l in lines && m in lines && Counts(l, stem) && Counts(m, stem) && l.stem != m.stem
    ensures r == Refused(NothingComplete) <==>
              r != Refused(SeveralStems) && forall v :: !Complete(lines, stem, v)
    ensures r == Refused(MissingDigest) ==>
              exists v :: Complete(lines, stem, v) && (forall w | Complete(lines, stem, w) :: !Older(v, w)) &&
                          (LastOf(lines, stem, v, true).value.sha == [] ||
                              LastOf(lines, stem, v, false).value.sha == [])
  {
    hide Older, LastOf;
    var halves, stems := Scan(lines, stem);
    ManyStems(lines, stem, halves, stems);
    if stem == [] && |stems| > 1 { return Refused(SeveralStems); }
    var complete := set v | v in halves && halves[v].uki.Some? && halves[v].root.Some?;
    assert forall v :: v in complete <==> Complete(lines, stem, v);
    if complete == {} { return Refused(NothingComplete); }
    var versions := SortVersions(complete);
    assert versions != [] by { var v :| v in complete; assert v in versions; }
    var v := versions[|versions| - 1];
    assert v in versions;
    forall w | Complete(lines, stem, w) ensures !Older(v, w) {
      assert w in versions;
      var i :| 0 <= i < |versions| && versions[i] == w;
      StrictWeakOrder(v, v, v);
    }
    var h := halves[v];
    if h.uki.value.sha == [] || h.root.value.sha == [] { return Refused(MissingDigest); }
    r := Found(Release(v, h.uki.value, h.root.value));
  }

  lemma ManyStems(lines: seq<Line>, stem: Bytes, halves: map<Bytes, Half>, stems: set<Bytes>)
    requires Scanned(lines, stem, halves, stems)
    ensures |stems| > 1 <==>
              exists l, m :: l in lines && m in lines && Counts(l, stem) && Counts(m, stem) && l.stem != m.stem
    ensures stem != [] ==> |stems| <= 1
  {
    if l, m :| l in lines && m in lines && Counts(l, stem) && Counts(m, stem) && l.stem != m.stem {
      assert {l.stem, m.stem} <= stems;
      TwoMembers(stems, l.stem, m.stem);
    }
    if |stems| > 1 {
      var a :| a in stems;
      assert |stems - {a}| == |stems| - 1;
      var b :| b in stems - {a};
      var l :| l in lines && Counts(l, stem) && l.stem == a;
      var m :| m in lines && Counts(m, stem) && m.stem == b;
    }
  }

  lemma TwoMembers(s: set<Bytes>, a: Bytes, b: Bytes)
    requires a in s && b in s && a != b
    ensures |s| > 1
  {
    assert s == {a, b} + (s - {a, b});
  }
}
