/**
 Model of how internal/purefs/iso9660.go sizes and writes a directory: records are laid into
 sectors so that none crosses a boundary (section 6.8.1.1 of ECMA-119).
 */
module IsoDirectory {
  import opened Basics
  import opened Codec
  import opened Seqs
  import opened IsoRecord

  function CeilSector(n: nat): nat {
    (n + SECTOR - 1) / SECTOR * SECTOR
  }

  // ---------- the writing pass ----------

  /** `add`: a record that would cross the sector boundary starts the next sector. */
  function Add(buf: Bytes, rec: Bytes): Bytes {
    if |buf| % SECTOR + |rec| > SECTOR then buf + Zeros(SECTOR - |buf| % SECTOR) + rec else buf + rec
  }

  function Pack(recs: seq<Bytes>): Bytes {
    if recs == [] then [] else Add(Pack(recs[..|recs| - 1]), recs[|recs| - 1])
  }

  /** The in-sector counter is the position modulo the sector. */
  lemma Counter(n: nat, k: nat)
    ensures (n % SECTOR + k) % SECTOR == (n + k) % SECTOR
    ensures n + (SECTOR - n % SECTOR) == (n / SECTOR + 1) * SECTOR
    ensures (0 + k) % SECTOR == ((n / SECTOR + 1) * SECTOR + k) % SECTOR
  {
    WholeSectors(n / SECTOR, n % SECTOR + k);
    WholeSectors(n / SECTOR + 1, k);
    assert n / SECTOR * SECTOR + n % SECTOR == n;
  }

  lemma WholeSectors(q: nat, x: nat)
    ensures (q * SECTOR + x) % SECTOR == x % SECTOR
  {
    assert x == x / SECTOR * SECTOR + x % SECTOR;
    assert q * SECTOR + x == (q + x / SECTOR) * SECTOR + x % SECTOR;
  }

  method WriteRecords(recs: seq<Bytes>) returns (buf: Bytes)
    ensures buf == Pack(recs)
  {
    buf := [];
    var inSector := 0;
    for i := 0 to |recs|
      invariant buf == Pack(recs[..i]) && inSector == |buf| % SECTOR
    {
      assert recs[..i + 1][..i] == recs[..i];
      Counter(|buf|, |recs[i]|);
      if inSector + |recs[i]| > SECTOR {
        buf := buf + Zeros(SECTOR - inSector);
        inSector := 0;
      }
      buf := buf + recs[i];
      inSector := (inSector + |recs[i]|) % SECTOR;
    }
    assert recs[..|recs|] == recs;
  }

  // ---------- the sizing pass ----------

  /** dirContentLen's counters, fed with record lengths only. */
  method SizeRecords(lengths: seq<nat>) returns (used: nat)
    ensures used == PackedLength(lengths)
  {
    used := 0;
    var inSector := 0;
    for i := 0 to |lengths|
      invariant used == PackedLength(lengths[..i]) && inSector == used % SECTOR
    {
      assert lengths[..i + 1][..i] == lengths[..i];
      var rl := lengths[i];
      Counter(used, rl);
      if inSector + rl > SECTOR {
        used := used + SECTOR - inSector;
        inSector := 0;
      }
      used := used + rl;
      inSector := (inSector + rl) % SECTOR;
    }
    assert lengths[..|lengths|] == lengths;
  }

  function PackedLength(lengths: seq<nat>): nat {
    if lengths == [] then 0 else
    var n, rl := PackedLength(lengths[..|lengths| - 1]), lengths[|lengths| - 1];
    (if n % SECTOR + rl > SECTOR then n + SECTOR - n % SECTOR else n) + rl
  }

  function Lengths(recs: seq<Bytes>): (r: seq<nat>)
    ensures |r| == |recs|
  {
    seq(|recs|, i requires 0 <= i < |recs| => |recs[i]|)
  }

  /** The two passes agree: sizing by lengths gives the number of bytes written. */
  lemma {:induction false} SizingAgrees(recs: seq<Bytes>)
    ensures PackedLength(Lengths(recs)) == |Pack(recs)|
  {
    if recs != [] {
      var front := recs[..|recs| - 1];
      SizingAgrees(front);
      assert Lengths(recs)[..|recs| - 1] == Lengths(front);
    }
  }

  // ---------- the reader ----------

  /** Scanning a directory extent: a zero length byte means the rest of the sector is unused. */
  function Scan(data: Bytes, off: nat): Option<seq<Bytes>>
    decreases |data| - off
  {
    if off >= |data| then Some([])
    else if data[off] == 0 then Scan(data, (off / SECTOR + 1) * SECTOR)
    else if off + data[off] as int > |data| then None
    else
      var end: nat := off + data[off] as int;
      var rest := Scan(data, end);
      if rest.None? then None else Some([data[off..end]] + rest.value)
  }

  /** A record as the writer makes it: its first byte is its length. */
  ghost predicate SelfDescribing(rec: Bytes) {
    0 < |rec| < 256 && rec[0] == |rec|
  }

  /** Where record `k` starts. */
  function StartOf(recs: seq<Bytes>, k: nat): nat
    requires k < |recs|
  {
    var n := |Pack(recs[..k])|;
    if n % SECTOR + |recs[k]| > SECTOR then n + SECTOR - n % SECTOR else n
  }

  /** No record crosses a sector boundary. */
  lemma NoCrossing(recs: seq<Bytes>, k: nat)
    requires k < |recs| && 0 < |recs[k]| <= SECTOR
    ensures StartOf(recs, k) / SECTOR == (StartOf(recs, k) + |recs[k]| - 1) / SECTOR
  {
  }

  lemma {:induction false} PackPrefix(recs: seq<Bytes>, k: nat)
    requires k <= |recs|
    ensures Pack(recs[..k]) <= Pack(recs)
    decreases |recs|
  {
    if k == |recs| {
      assert recs[..k] == recs;
    } else {
      var front := recs[..|recs| - 1];
      PackPrefix(front, k);
      assert front[..k] == recs[..k];
      assert Pack(front) <= Pack(recs);
    }
  }

  lemma PackAt(recs: seq<Bytes>, k: nat)
    requires k < |recs|
    ensures var n, s := |Pack(recs[..k])|, StartOf(recs, k);
            && n <= s && s + |recs[k]| == |Pack(recs[..k + 1])| <= |Pack(recs)|
            && Pack(recs)[s..s + |recs[k]|] == recs[k]
            && (s != n ==> s == (n / SECTOR + 1) * SECTOR && Pack(recs)[n] == 0)
  {
    var a, b := Pack(recs[..k]), Pack(recs[..k + 1]);
    assert recs[..k + 1][..k] == recs[..k];
    PackPrefix(recs, k + 1);
    var s := StartOf(recs, k);
    assert b[s..s + |recs[k]|] == recs[k];
    SliceInPrefix(b, Pack(recs), s, s + |recs[k]|);
    if s != |a| {
      assert b[|a|] == 0;
      assert Pack(recs)[|a|] == b[|a|];
    }
  }

  /** Scanning a packed directory from the end of its first `k` records yields the others. */
  lemma {:induction false} ScanFrom(recs: seq<Bytes>, data: Bytes, k: nat)
    requires k <= |recs| && forall r | r in recs :: SelfDescribing(r)
    requires |data| == CeilSector(|Pack(recs)|) && data == Pack(recs) + Zeros(|data| - |Pack(recs)|)
    ensures Scan(data, |Pack(recs[..k])|) == Some(recs[k..])
    decreases |recs| - k
  {
    hide Pack, Scan, StartOf;
    var off := |Pack(recs[..k])|;
    if k == |recs| {
      assert recs[..k] == recs && recs[k..] == [];
      ScanEnd(data, off);
    } else {
      ScanFrom(recs, data, k + 1);
      PackAt(recs, k);
      assert recs[k] in recs;
      var s, rec := StartOf(recs, k), recs[k];
      SliceInPrefix(Pack(recs), data, s, s + |rec|);
      ScanStep(data, off, s, rec);
      assert recs[k..] == [rec] + recs[k + 1..];
    }
  }

  lemma ScanEnd(data: Bytes, off: nat)
    requires |data| == CeilSector(off) && data[off..] == Zeros(|data| - off)
    ensures Scan(data, off) == Some([])
  {
    assert Scan(data, |data|) == Some([]);
    if off < |data| {
      assert data[off] == data[off..][0] == 0;
      assert (off / SECTOR + 1) * SECTOR == |data|;
    }
  }

  lemma ScanStep(data: Bytes, off: nat, s: nat, rec: Bytes)
    requires off <= s && s + |rec| <= |data| && SelfDescribing(rec) && data[s..s + |rec|] == rec
    requires s != off ==> s == (off / SECTOR + 1) * SECTOR && data[off] == 0
    requires Scan(data, s + |rec|).Some?
    ensures Scan(data, off) == Some([rec] + Scan(data, s + |rec|).value)
  {
    assert data[s] == data[s..s + |rec|][0] == rec[0];
    assert Scan(data, s) == Some([rec] + Scan(data, s + |rec|).value);
  }

  /** The reader finds exactly the records that were written, in order. */
  lemma ScanFindsAll(recs: seq<Bytes>, data: Bytes)
    requires forall r | r in recs :: SelfDescribing(r)
    requires |data| == CeilSector(|Pack(recs)|) && data == Pack(recs) + Zeros(|data| - |Pack(recs)|)
    ensures Scan(data, 0) == Some(recs)
  {
    ScanFrom(recs, data, 0);
    assert recs[..0] == [];
  }

  // ---------- scanning past records whose length byte has wrapped ----------

  /** A record the reader takes whole, one it takes for the end of the sector, or one it cuts to
      something unreadable. */
  ghost predicate Wraps(rec: Bytes) {
    && 0 < |rec| <= SECTOR
    && (SelfDescribing(rec) || rec[0] == 0 || (rec[0] < |rec| && ReadRecord(rec[..rec[0]]) == None))
  }

  /** Scanning fails, meets an unreadable record, or finds only records that were written whole. */
  ghost predicate OnlyWhole(found: Option<seq<Bytes>>, recs: seq<Bytes>) {
    || found.None?
    || (exists b :: b in found.value && ReadRecord(b) == None)
    || (forall b | b in found.value :: b in recs && SelfDescribing(b))
  }

  ghost predicate Packed(recs: seq<Bytes>, data: Bytes) {
    && (forall r | r in recs :: Wraps(r))
    && |data| == CeilSector(|Pack(recs)|) && data == Pack(recs) + Zeros(|data| - |Pack(recs)|)
  }

  lemma OneMoreWhole(rec: Bytes, found: Option<seq<Bytes>>, recs: seq<Bytes>)
    requires OnlyWhole(found, recs) && (ReadRecord(rec) == None || (rec in recs && SelfDescribing(rec)))
    ensures OnlyWhole(if found.None? then None else Some([rec] + found.value), recs)
  {
    hide ReadRecord;
    if found.Some? {
      assert rec in [rec] + found.value && forall b | b in found.value :: b in [rec] + found.value;
    }
  }

  /** From the end of the first `k` records. */
  lemma {:induction false} WholeFromEnd(recs: seq<Bytes>, data: Bytes, k: nat)
    requires Packed(recs, data) && k <= |recs|
    ensures OnlyWhole(Scan(data, |Pack(recs[..k])|), recs)
    decreases |recs| - k, 2
  {
    hide Pack, StartOf, Wraps, CeilSector;
    var n := |Pack(recs[..k])|;
    if k == |recs| {
      assert recs[..k] == recs;
      ScanEnd(data, n);
    } else {
      PackAt(recs, k);
      WholeFromStart(recs, data, k);
      SliceInPrefix(Pack(recs), data, n, |Pack(recs)|);
    }
  }

  /** From the start of record `k`. */
  lemma {:induction false} WholeFromStart(recs: seq<Bytes>, data: Bytes, k: nat)
    requires Packed(recs, data) && k < |recs|
    ensures OnlyWhole(Scan(data, StartOf(recs, k)), recs)
    decreases |recs| - k, 1
  {
    hide Pack, StartOf, CeilSector, OnlyWhole, ReadRecord, Packed;
    var s, rec := StartOf(recs, k), recs[k];
    RecordInPlace(recs, data, k);
    if SelfDescribing(rec) {
      WholeFromEnd(recs, data, k + 1);
      OneMoreWhole(rec, Scan(data, s + |rec|), recs);
    } else if rec[0] == 0 {
      WholeAfterBlank(recs, data, k);
    } else {
      var cut := rec[..rec[0]];
      SliceOfSlice(data, s, s + |rec|, 0, rec[0] as int);
      CutIsFatal(cut, Scan(data, s + rec[0] as int), recs);
    }
  }

  lemma RecordInPlace(recs: seq<Bytes>, data: Bytes, k: nat)
    requires Packed(recs, data) && k < |recs|
    ensures var s, rec := StartOf(recs, k), recs[k];
            && rec in recs && Wraps(rec) && s + |rec| == |Pack(recs[..k + 1])|
            && s + |rec| <= |data| && data[s..s + |rec|] == rec && data[s] == rec[0]
  {
    hide Pack, StartOf, CeilSector, ReadRecord;
    PackAt(recs, k);
    var s, rec := StartOf(recs, k), recs[k];
    assert rec in recs && Wraps(rec);
    SliceInPrefix(Pack(recs), data, s, s + |rec|);
    assert data[s] == data[s..s + |rec|][0];
  }

  lemma {:induction false} WholeAfterBlank(recs: seq<Bytes>, data: Bytes, k: nat)
    requires Packed(recs, data) && k < |recs| && 0 < |recs[k]| <= SECTOR
    ensures OnlyWhole(Scan(data, (StartOf(recs, k) / SECTOR + 1) * SECTOR), recs)
    decreases |recs| - k, 0
  {
    hide *;
    PackAt(recs, k);
    NoCrossing(recs, k);
    SectorAfter(StartOf(recs, k), |recs[k]|);
    WholeFromSector(recs, data, k + 1, StartOf(recs, k) / SECTOR + 1);
  }

  lemma CutIsFatal(cut: Bytes, found: Option<seq<Bytes>>, recs: seq<Bytes>)
    requires ReadRecord(cut) == None
    ensures OnlyWhole(if found.None? then None else Some([cut] + found.value), recs)
  {
    hide ReadRecord;
    if found.Some? { assert cut in [cut] + found.value; }
  }

  /** From the sector boundary after the first `k` records. */
  lemma {:induction false} WholeFromSector(recs: seq<Bytes>, data: Bytes, k: nat, sector: nat)
    requires Packed(recs, data) && k <= |recs|
    requires (sector - 1) * SECTOR < |Pack(recs[..k])| <= sector * SECTOR
    ensures OnlyWhole(Scan(data, sector * SECTOR), recs)
    decreases |recs| - k, 2
  {
    hide Pack, OnlyWhole, ReadRecord, CeilSector;
    if k == |recs| {
      assert recs[..k] == recs;
      CeilBound(|Pack(recs)|, sector);
      NothingFound(recs);
    } else {
      PackAt(recs, k);
      assert recs[k] in recs && Wraps(recs[k]);
      if StartOf(recs, k) + |recs[k]| <= sector * SECTOR {
        WholeFromSector(recs, data, k + 1, sector);
      } else {
        StartsNext(|Pack(recs[..k])|, |recs[k]|, sector);
        assert StartOf(recs, k) == sector * SECTOR;
        WholeFromStart(recs, data, k);
      }
    }
  }

  lemma SectorAfter(s: nat, len: nat)
    requires len > 0 && s / SECTOR == (s + len - 1) / SECTOR
    ensures s / SECTOR * SECTOR < s + len <= (s / SECTOR + 1) * SECTOR
  {
  }

  lemma CeilBound(n: nat, sector: nat)
    requires n <= sector * SECTOR
    ensures CeilSector(n) <= sector * SECTOR
  {
  }

  lemma NothingFound(recs: seq<Bytes>)
    ensures OnlyWhole(Some([]), recs)
  {
  }

  /** What does not fit before the boundary starts at it. */
  lemma StartsNext(n: nat, len: nat, sector: nat)
    requires (sector - 1) * SECTOR < n <= sector * SECTOR && 0 < len <= SECTOR
    ensures var s := if n % SECTOR + len > SECTOR then n + SECTOR - n % SECTOR else n;
            s + len > sector * SECTOR ==> s == sector * SECTOR
  {
  }
}
