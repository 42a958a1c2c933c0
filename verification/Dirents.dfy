/**
 Model of packDirents in internal/purefs/erofs.go, against a reader of EROFS directory blocks.
 */
module Dirents {
  import opened Basics
  import opened Codec
  import opened Seqs

  const BLOCK: nat := 4096

  datatype Dirent = Dirent(name: Name, nid: nat, ft: byte)

  // ---------- the reader: how a directory inode's bytes name its entries ----------

  function UpToNul(b: Bytes): Bytes {
    if b == [] || b[0] == 0 then [] else [b[0]] + UpToNul(b[1..])
  }

  function NameOff(b: Bytes, j: nat): nat
    requires 12 * j + 12 <= |b|
  {
    Field(b, 12 * j + 8, 2)
  }

  /** The entry count comes from the first name offset; a name ends where the next one starts. */
  predicate TableOk(b: Bytes, k: nat) {
    && 12 * k <= |b|
    && (forall j | 0 <= j < k :: NameOff(b, j) <= |b|)
    && (forall i, j | 0 <= i < j < k :: NameOff(b, i) <= NameOff(b, j))
  }

  function EntryAt(b: Bytes, k: nat, j: nat): Dirent
    requires TableOk(b, k) && j < k
  {
    var name := if j + 1 < k then b[NameOff(b, j)..NameOff(b, j + 1)]
                else UpToNul(b[NameOff(b, j)..]);
    Dirent(name, Field(b, 12 * j, 8), b[12 * j + 10])
  }

  /** A block names at least one entry. */
  function DecodeBlock(b: Bytes): Option<seq<Dirent>> {
    if |b| < 12 then None else
    var k := NameOff(b, 0) / 12;
    if k == 0 || !TableOk(b, k) then None else Some(EntriesFrom(b, k, 0))
  }

  function EntriesFrom(b: Bytes, k: nat, j: nat): seq<Dirent>
    requires TableOk(b, k) && j <= k
    decreases k - j
  {
    if j == k then [] else [EntryAt(b, k, j)] + EntriesFrom(b, k, j + 1)
  }

  /** The directory's blocks; the last one may be short. */
  function Blocks(d: Bytes): seq<Bytes> {
    if |d| == 0 then [] else if |d| <= BLOCK then [d] else [d[..BLOCK]] + Blocks(d[BLOCK..])
  }

  function DecodeAll(blocks: seq<Bytes>): Option<seq<Dirent>> {
    if blocks == [] then Some([]) else
    var front, last := DecodeAll(blocks[..|blocks| - 1]), DecodeBlock(blocks[|blocks| - 1]);
    if front.None? || last.None? then None else Some(front.value + last.value)
  }

  function DecodeDir(d: Bytes): Option<seq<Dirent>> {
    DecodeAll(Blocks(d))
  }

  // ---------- what a block holds ----------

  function Record(e: Dirent, off: nat): (b: Bytes)
    ensures |b| == 12
  {
    LE(e.nid, 8) + LE(off, 2) + [e.ft, 0]
  }

  function Table(es: seq<Dirent>, off: nat): (b: Bytes)
    ensures |b| == 12 * |es|
  {
    if es == [] then [] else Record(es[0], off) + Table(es[1..], off + |es[0].name|)
  }

  function Names(es: seq<Dirent>): Bytes {
    if es == [] then [] else es[0].name + Names(es[1..])
  }

  function Used(es: seq<Dirent>): nat {
    12 * |es| + |Names(es)|
  }

  function Packed(es: seq<Dirent>): Bytes {
    Table(es, 12 * |es|) + Names(es)
  }

  predicate Encodable(es: seq<Dirent>) {
    forall e | e in es :: 0 !in e.name && e.nid < 0x1_0000_0000_0000_0000
  }

  lemma {:induction false} NamesAppend(a: seq<Dirent>, b: seq<Dirent>)
    ensures Names(a + b) == Names(a) + Names(b)
  {
    if a == [] {
      assert a + b == b;
    } else {
      NamesAppend(a[1..], b);
      assert (a + b)[1..] == a[1..] + b;
      Assoc(a[0].name, Names(a[1..]), Names(b));
    }
  }

  lemma {:induction false} TableAppend(a: seq<Dirent>, b: seq<Dirent>, off: nat)
    ensures Table(a + b, off) == Table(a, off) + Table(b, off + |Names(a)|)
    decreases |a|
  {
    hide Table, Record;
    if a == [] {
      NoTable(off);
      assert a + b == b && Names(a) == [];
      assert [] + Table(b, off) == Table(b, off);
    } else {
      TableAppend(a[1..], b, off + |a[0].name|);
      TableCons(a, off);
      TableCons(a + b, off);
      assert (a + b)[1..] == a[1..] + b && (a + b)[0] == a[0];
      Assoc(Record(a[0], off), Table(a[1..], off + |a[0].name|), Table(b, off + |Names(a)|));
    }
  }

  lemma NoTable(off: nat)
    ensures Table([], off) == []
  {
  }

  lemma TableCons(es: seq<Dirent>, off: nat)
    requires es != []
    ensures Table(es, off) == Record(es[0], off) + Table(es[1..], off + |es[0].name|)
    ensures |Names(es)| == |es[0].name| + |Names(es[1..])|
  {
  }

  lemma {:induction false} TableAt(es: seq<Dirent>, off: nat, j: nat)
    requires j < |es|
    ensures Table(es, off)[12 * j..12 * j + 12] == Record(es[j], off + |Names(es[..j])|)
  {
    if j == 0 {
      assert es[..0] == [];
    } else {
      TableAt(es[1..], off + |es[0].name|, j - 1);
      SliceInSuffix(Record(es[0], off), Table(es[1..], off + |es[0].name|), 12 * (j - 1), 12 * j);
      assert es[..j][1..] == es[1..][..j - 1];
    }
  }

  lemma {:induction false} NamesAt(es: seq<Dirent>, j: nat)
    requires j < |es|
    ensures var o := |Names(es[..j])|;
            o + |es[j].name| == |Names(es[..j + 1])| <= |Names(es)| && Names(es)[o..o + |es[j].name|] == es[j].name
  {
    assert es[..j + 1][1..] == es[1..][..j];
    if j == 0 {
      assert es[..0] == [] && es[1..][..0] == [];
    } else {
      NamesAt(es[1..], j - 1);
      assert es[..j][1..] == es[1..][..j - 1];
      var o := |Names(es[1..][..j - 1])|;
      SliceInSuffix(es[0].name, Names(es[1..]), o, o + |es[j].name|);
    }
  }

  /** Where entry `j` of a block sits: its record and its name. */
  lemma PackedAt(es: seq<Dirent>, b: Bytes, j: nat)
    requires Packed(es) <= b && j < |es|
    ensures var off := 12 * |es| + |Names(es[..j])|;
            && off + |es[j].name| == 12 * |es| + |Names(es[..j + 1])| <= Used(es) <= |b|
            && b[12 * j..12 * j + 12] == Record(es[j], off)
            && b[off..off + |es[j].name|] == es[j].name
  {
    var k, o := |es|, |Names(es[..j])|;
    TableAt(es, 12 * k, j);
    NamesAt(es, j);
    SliceInPrefix(Packed(es), b, 12 * j, 12 * j + 12);
    SliceInPrefix(Table(es, 12 * k), Packed(es), 12 * j, 12 * j + 12);
    SliceInPrefix(Packed(es), b, 12 * k + o, 12 * k + o + |es[j].name|);
    SliceInSuffix(Table(es, 12 * k), Names(es), o, o + |es[j].name|);
  }

  lemma RecordFields(e: Dirent, off: nat)
    requires off < 0x1_0000 && e.nid < 0x1_0000_0000_0000_0000
    ensures var r := Record(e, off); Field(r, 0, 8) == e.nid && Field(r, 8, 2) == off && r[10] == e.ft
  {
    var r := Record(e, off);
    Widths();
    UnLEofLE(e.nid, 8);
    UnLEofLE(off, 2);
    assert r[0..8] == LE(e.nid, 8) && r[8..10] == LE(off, 2);
  }

  lemma {:induction false} UpToNulStops(name: Bytes, rest: Bytes)
    requires 0 !in name && (rest == [] || rest[0] == 0)
    ensures UpToNul(name + rest) == name
  {
    if name == [] {
      assert name + rest == rest;
    } else {
      UpToNulStops(name[1..], rest);
      assert (name + rest)[1..] == name[1..] + rest;
    }
  }

  /** The reader's view of entry `j` of a packed block, whatever follows it. */
  ghost predicate ReadsBack(es: seq<Dirent>, b: Bytes, j: nat)
    requires j < |es| && 12 * |es| <= |b|
  {
    && NameOff(b, j) == 12 * |es| + |Names(es[..j])|
    && NameOff(b, j) + |es[j].name| == 12 * |es| + |Names(es[..j + 1])| <= |b|
    && Field(b, 12 * j, 8) == es[j].nid && b[12 * j + 10] == es[j].ft
    && b[NameOff(b, j)..NameOff(b, j) + |es[j].name|] == es[j].name
  }

  lemma EntryReadsBack(es: seq<Dirent>, b: Bytes, j: nat)
    requires Encodable(es) && Packed(es) <= b && |b| <= BLOCK && j < |es|
    ensures ReadsBack(es, b, j)
  {
    PackedAt(es, b, j);
    assert es[j] in es;
    RecordFields(es[j], 12 * |es| + |Names(es[..j])|);
    SliceOfSlice(b, 12 * j, 12 * j + 12, 0, 8);
    SliceOfSlice(b, 12 * j, 12 * j + 12, 8, 10);
    assert b[12 * j + 10] == b[12 * j..12 * j + 12][10];
  }

  lemma LastNameEnds(es: seq<Dirent>, b: Bytes, pad: nat)
    requires es != [] && Encodable(es) && b == Packed(es) + Zeros(pad) && |b| <= BLOCK
    requires ReadsBack(es, b, |es| - 1)
    ensures UpToNul(b[NameOff(b, |es| - 1)..]) == es[|es| - 1].name
  {
    var last := es[|es| - 1];
    var off := NameOff(b, |es| - 1);
    assert es[..|es|] == es;
    assert b[off + |last.name|..] == Zeros(pad);
    assert b[off..] == b[off..off + |last.name|] + b[off + |last.name|..];
    assert last in es;
    UpToNulStops(last.name, Zeros(pad));
  }

  lemma NamesMonotone(es: seq<Dirent>, i: nat, j: nat)
    requires i <= j <= |es|
    ensures |Names(es[..i])| <= |Names(es[..j])|
  {
    assert es[..j][..i] == es[..i];
    NamesPrefix(es[..j], i);
  }

  lemma TableReadsBack(es: seq<Dirent>, b: Bytes)
    requires es != [] && 12 * |es| <= |b| && forall j | 0 <= j < |es| :: ReadsBack(es, b, j)
    ensures NameOff(b, 0) == 12 * |es| && TableOk(b, |es|)
  {
    assert ReadsBack(es, b, 0) && es[..0] == [];
    forall i, j | 0 <= i < j < |es| ensures NameOff(b, i) <= NameOff(b, j) {
      assert ReadsBack(es, b, i) && ReadsBack(es, b, j);
      NamesMonotone(es, i, j);
    }
    forall j | 0 <= j < |es| ensures NameOff(b, j) <= |b| { assert ReadsBack(es, b, j); }
  }

  lemma EntryAtReadsBack(es: seq<Dirent>, b: Bytes, j: nat)
    requires j < |es| && TableOk(b, |es|) && ReadsBack(es, b, j)
    requires if j + 1 < |es| then ReadsBack(es, b, j + 1) else UpToNul(b[NameOff(b, j)..]) == es[j].name
    ensures EntryAt(b, |es|, j) == es[j]
  {
  }

  lemma EntriesReadBack(es: seq<Dirent>, b: Bytes, pad: nat)
    requires es != [] && Encodable(es) && b == Packed(es) + Zeros(pad) && |b| <= BLOCK
    ensures NameOff(b, 0) == 12 * |es| && TableOk(b, |es|)
    ensures forall j | 0 <= j < |es| :: EntryAt(b, |es|, j) == es[j]
  {
    assert Packed(es) <= b;
    forall j | 0 <= j < |es| ensures ReadsBack(es, b, j) { EntryReadsBack(es, b, j); }
    TableReadsBack(es, b);
    LastNameEnds(es, b, pad);
    forall j | 0 <= j < |es| ensures EntryAt(b, |es|, j) == es[j] { EntryAtReadsBack(es, b, j); }
  }

  lemma {:induction false} EntriesFromIs(b: Bytes, es: seq<Dirent>, j: nat)
    requires TableOk(b, |es|) && j <= |es|
    requires forall i | 0 <= i < |es| :: EntryAt(b, |es|, i) == es[i]
    ensures EntriesFrom(b, |es|, j) == es[j..]
    decreases |es| - j
  {
    hide TableOk, EntryAt;
    if j < |es| { EntriesFromIs(b, es, j + 1); }
  }

  lemma DecodeBlockIs(b: Bytes, es: seq<Dirent>)
    requires es != [] && |b| >= 12 && NameOff(b, 0) == 12 * |es| && TableOk(b, |es|)
    requires forall j | 0 <= j < |es| :: EntryAt(b, |es|, j) == es[j]
    ensures DecodeBlock(b) == Some(es)
  {
    hide TableOk, EntryAt, NameOff;
    assert 12 * |es| / 12 == |es|;
    EntriesFromIs(b, es, 0);
    assert es[0..] == es;
  }

  lemma BlockReadsBack(es: seq<Dirent>, b: Bytes, pad: nat)
    requires es != [] && Encodable(es) && b == Packed(es) + Zeros(pad) && |b| <= BLOCK
    ensures DecodeBlock(b) == Some(es)
  {
    EntriesReadBack(es, b, pad);
    DecodeBlockIs(b, es);
  }

  lemma {:induction false} BlocksAppend(a: Bytes, b: Bytes)
    requires |a| % BLOCK == 0 && 0 < |b| <= BLOCK
    ensures Blocks(a + b) == Blocks(a) + [b]
    decreases |a|
  {
    if a == [] {
      assert a + b == b;
    } else {
      BlocksAppend(a[BLOCK..], b);
      assert (a + b)[..BLOCK] == a[..BLOCK] && (a + b)[BLOCK..] == a[BLOCK..] + b;
      if |a| == BLOCK { assert a[..BLOCK] == a && a[BLOCK..] == []; }
    }
  }

  lemma DecodeAppend(a: Bytes, b: Bytes)
    requires |a| % BLOCK == 0 && 0 < |b| <= BLOCK && DecodeDir(a).Some? && DecodeBlock(b).Some?
    ensures DecodeDir(a + b) == Some(DecodeDir(a).value + DecodeBlock(b).value)
  {
    BlocksAppend(a, b);
    assert (Blocks(a) + [b])[..|Blocks(a)|] == Blocks(a);
  }

  // ---------- the writer ----------

  /** `b` written over what is at `off`. */
  function Replaced(s: Bytes, off: nat, b: Bytes): Bytes
    requires off + |b| <= |s|
  {
    s[..off] + b + s[off + |b|..]
  }

  method PutBytes(a: array<byte>, off: nat, b: Bytes)
    requires off + |b| <= a.Length
    modifies a
    ensures a[..] == Replaced(old(a[..]), off, b)
  {
    for i := 0 to |b|
      invariant a[..off] == old(a[..off]) && a[off + |b|..] == old(a[off + |b|..])
      invariant a[off..off + i] == b[..i]
    {
      a[off + i] := b[i];
    }
    assert a[..] == a[..off] + a[off..off + |b|] + a[off + |b|..];
    assert old(a[..])[..off] == old(a[..off]) && old(a[..])[off + |b|..] == old(a[off + |b|..]);
  }

  /** The block after `j` entries: a growing dirent array, a gap, the names so far, zeros. */
  ghost function Partial(es: seq<Dirent>, j: nat): Bytes
    requires j <= |es| && Used(es) <= BLOCK
  {
    NamesPrefix(es, j);
    Table(es[..j], 12 * |es|) + Zeros(12 * (|es| - j)) + Names(es[..j]) + Zeros(BLOCK - 12 * |es| - |Names(es[..j])|)
  }

  lemma NamesPrefix(es: seq<Dirent>, j: nat)
    requires j <= |es|
    ensures |Names(es[..j])| <= |Names(es)|
  {
    assert es == es[..j] + es[j..];
    NamesAppend(es[..j], es[j..]);
  }

  lemma PartialSlices(t: Bytes, gap: nat, names: Bytes, tail: nat, m: nat, n: nat)
    requires m <= gap && n <= tail
    ensures var a := t + Zeros(gap) + names + Zeros(tail);
            var off := |t| + gap + |names|;
            && a[..|t|] == t
            && a[|t| + m..off] == Zeros(gap - m) + names
            && a[off + n..] == Zeros(tail - n)
  {
  }

  lemma Regroup(t: Bytes, r: Bytes, z: Bytes, n: Bytes, m: Bytes, tail: Bytes)
    ensures t + r + (z + n) + m + tail == (t + r) + z + (n + m) + tail
  {
  }

  lemma PartialBounds(es: seq<Dirent>)
    requires Used(es) <= BLOCK
    ensures Partial(es, 0) == Zeros(BLOCK)
    ensures Partial(es, |es|) == Packed(es) + Zeros(BLOCK - Used(es))
  {
    assert es[..0] == [] && es[..|es|] == es && Zeros(0) == [];
  }

  /** The two writes of one iteration: the record, then the name. */
  lemma PartialStep(es: seq<Dirent>, j: nat, a: Bytes, b: Bytes, c: Bytes)
    requires j < |es| && Used(es) <= BLOCK && a == Partial(es, j)
    requires var off := 12 * |es| + |Names(es[..j])|;
             && off + |es[j].name| <= BLOCK
             && b == Replaced(a, 12 * j, Record(es[j], off)) && c == Replaced(b, off, es[j].name)
    ensures c == Partial(es, j + 1)
  {
    hide Table, Names, Record, Zeros;
    var k, e := |es|, es[j];
    var off := 12 * k + |Names(es[..j])|;
    assert es[..j + 1] == es[..j] + [e];
    TableAppend(es[..j], [e], 12 * k);
    NamesAppend(es[..j], [e]);
    OneEntry(e, off);
    assert 12 * (k - j) - 12 == 12 * (k - (j + 1));
    StepBytes(Table(es[..j], 12 * k), Record(e, off), 12 * (k - j), Names(es[..j]), e.name, BLOCK - off, a, b, c);
  }

  lemma StepBytes(t: Bytes, r: Bytes, gap: nat, names: Bytes, m: Bytes, tail: nat, a: Bytes, b: Bytes, c: Bytes)
    requires |r| <= gap && |m| <= tail && a == t + Zeros(gap) + names + Zeros(tail)
    requires var off := |t| + gap + |names|;
             b == a[..|t|] + r + a[|t| + |r|..] && c == b[..off] + m + b[off + |m|..]
    ensures c == (t + r) + Zeros(gap - |r|) + (names + m) + Zeros(tail - |m|)
  {
    hide Zeros;
    PartialSlices(t, gap, names, tail, |r|, |m|);
    TwoWrites(a, b, |t|, r, |t| + gap + |names|, |m|);
    Regroup(t, r, Zeros(gap - |r|), names, m, Zeros(tail - |m|));
  }

  lemma OneEntry(e: Dirent, off: nat)
    ensures Table([e], off) == Record(e, off) && Names([e]) == e.name
  {
    assert [e][1..] == [];
  }

  lemma TwoWrites(a: Bytes, b: Bytes, i: nat, r: Bytes, off: nat, n: nat)
    requires i + |r| <= off && off + n <= |a| && b == a[..i] + r + a[i + |r|..]
    ensures b[..off] == a[..i] + r + a[i + |r|..off] && b[off + n..] == a[off + n..]
  {
  }

  /** One 4 KiB block: the dirent array grows from the front while the names grow behind it. */
  method FillBlock(es: seq<Dirent>) returns (blk: Bytes)
    requires Used(es) <= BLOCK
    ensures blk == Packed(es) + Zeros(BLOCK - Used(es))
  {
    hide Table, Names, Partial, Record;
    var k := |es|;
    var a := new byte[BLOCK](_ => 0);
    var nameOff := 12 * k;
    assert a[..] == Zeros(BLOCK);
    PartialBounds(es);
    NoNames(es);
    for j := 0 to k
      invariant nameOff == 12 * k + |Names(es[..j])|
      invariant a[..] == Partial(es, j)
    {
      NamesAt(es, j);
      ghost var before := a[..];
      PutBytes(a, 12 * j, Record(es[j], nameOff));
      ghost var middle := a[..];
      PutBytes(a, nameOff, es[j].name);
      PartialStep(es, j, before, middle, a[..]);
      nameOff := nameOff + |es[j].name|;
    }
    blk := a[..];
  }

  lemma NoNames(es: seq<Dirent>)
    ensures Names(es[..0]) == []
  {
  }

  // ---------- the exact size ----------

  /** How many entries fit in one block, given that the first `k` do. */
  function Fitting(es: seq<Dirent>, k: nat): (r: nat)
    requires k <= |es|
    ensures k <= r <= |es|
    decreases |es| - k
  {
    if k < |es| && Used(es[..k + 1]) <= BLOCK then Fitting(es, k + 1) else k
  }

  /** Whole blocks, each as full as it gets, and what the last one uses. */
  function PackedSize(list: seq<Dirent>): nat
    decreases |list|
  {
    var k := Fitting(list, 0);
    if k == 0 then 0 else if k == |list| then Used(list) else BLOCK + PackedSize(list[k..])
  }

  /** The greedy count is the only maximal one. */
  lemma {:induction false} FittingIs(es: seq<Dirent>, j: nat, k: nat)
    requires j <= k <= |es| && Used(es[..k]) <= BLOCK && (k < |es| ==> Used(es[..k + 1]) > BLOCK)
    ensures Fitting(es, j) == k
    decreases k - j
  {
    if j < k {
      NamesMonotone(es, j + 1, k);
      FittingIs(es, j + 1, k);
    }
  }

  /** After `i` entries, whole blocks account for the size so far. */
  ghost predicate SizeSoFar(list: seq<Dirent>, i: nat, out: Bytes, lastUsed: nat) {
    && i <= |list|
    && if 0 < i == |list| then BLOCK <= |out| && PackedSize(list) == |out| - BLOCK + lastUsed
       else PackedSize(list) == |out| + PackedSize(list[i..])
  }

  lemma SizeStep(list: seq<Dirent>, i: nat, k: nat, out: Bytes, blk: Bytes, lastUsed: nat)
    requires SizeSoFar(list, i, out, lastUsed) && i < |list| && k == Fitting(list[i..], 0) > 0 && |blk| == BLOCK
    ensures i + k <= |list| && SizeSoFar(list, i + k, out + blk, Used(list[i..i + k]))
  {
    hide Used, Fitting;
    if i + k < |list| {
      assert list[i..][k..] == list[i + k..];
    } else {
      assert list[i..i + k] == list[i..];
    }
  }

  lemma SizeStarts(list: seq<Dirent>)
    ensures SizeSoFar(list, 0, [], 0)
  {
    assert list[0..] == list;
  }

  lemma {:induction false} PackedSizeBound(list: seq<Dirent>)
    ensures PackedSize(list) <= BLOCK * |list|
    decreases |list|
  {
    var k := Fitting(list, 0);
    if k > 0 {
      FittingFits(list, 0);
      if k == |list| { assert list[..k] == list; } else { PackedSizeBound(list[k..]); }
    }
  }

  lemma {:induction false} FittingFits(es: seq<Dirent>, j: nat)
    requires j <= |es| && Used(es[..j]) <= BLOCK
    ensures Used(es[..Fitting(es, j)]) <= BLOCK
    decreases |es| - j
  {
    hide Used;
    if j < |es| && Used(es[..j + 1]) <= BLOCK { FittingFits(es, j + 1); }
  }

  /** How many of `es` the greedy loop puts in one block. */
  method CountFitting(es: seq<Dirent>) returns (k: nat)
    ensures k <= |es| && Used(es[..k]) <= BLOCK && k == Fitting(es, 0)
    ensures k < |es| ==> Used(es[..k + 1]) > BLOCK
  {
    var used := 0;
    k := 0;
    while k < |es|
      invariant k <= |es| && used == Used(es[..k]) <= BLOCK
    {
      var need := 12 + |es[k].name|;
      assert es[..k + 1] == es[..k] + [es[k]] && [es[k]][1..] == [];
      NamesAppend(es[..k], [es[k]]);
      if used + need > BLOCK { break; }
      used := used + need;
      k := k + 1;
    }
    FittingIs(es, 0, k);
  }

  /** Appending a packed block to whole blocks appends its entries, padded or not. */
  lemma AppendBlock(out: Bytes, done: seq<Dirent>, es: seq<Dirent>, blk: Bytes)
    requires |out| % BLOCK == 0 && DecodeDir(out) == Some(done)
    requires es != [] && Encodable(es) && Used(es) <= BLOCK && blk == Packed(es) + Zeros(BLOCK - Used(es))
    ensures ReadsAs(out + blk, Used(es), done + es)
  {
    hide DecodeDir, DecodeBlock, Table, Names;
    BlockReadsBack(es, blk, BLOCK - Used(es));
    DecodeAppend(out, blk);
    assert Packed(es) + Zeros(0) == Packed(es);
    BlockReadsBack(es, Packed(es), 0);
    DecodeAppend(out, Packed(es));
    assert (out + blk)[..|out| + Used(es)] == out + Packed(es);
  }

  /** The first `i` entries are packed into `out`, the last block of which uses `lastUsed` bytes. */
  ghost predicate PackedSoFar(list: seq<Dirent>, i: nat, out: Bytes, lastUsed: nat) {
    && i <= |list| && |out| % BLOCK == 0
    && (forall m | 0 <= m < i :: 12 + |list[m].name| <= BLOCK)
    && (if i == 0 then out == [] else 0 < lastUsed <= BLOCK <= |out|)
    && (Encodable(list) ==> ReadsAs(out, lastUsed, list[..i]))
  }

  lemma NothingPacked(list: seq<Dirent>)
    ensures PackedSoFar(list, 0, [], 0)
  {
  }

  lemma FitsMore(list: seq<Dirent>, i: nat, k: nat)
    requires i + k <= |list| && Used(list[i..i + k]) <= BLOCK
    requires forall m | 0 <= m < i :: 12 + |list[m].name| <= BLOCK
    ensures forall m | 0 <= m < i + k :: 12 + |list[m].name| <= BLOCK
  {
    var es := list[i..i + k];
    FitsEach(es);
    forall m | 0 <= m < i + k ensures 12 + |list[m].name| <= BLOCK {
      if m >= i { assert list[m] == es[m - i]; }
    }
  }

  lemma EncodablePart(list: seq<Dirent>, i: nat, j: nat)
    requires Encodable(list) && i <= j <= |list|
    ensures Encodable(list[i..j])
  {
    forall e | e in list[i..j] ensures e in list { }
  }

  /** The block-by-block half of PackedSoFar: what a reader of `out` finds. */
  ghost predicate ReadsAs(out: Bytes, lastUsed: nat, done: seq<Dirent>) {
    && DecodeDir(out) == Some(done)
    && (done != [] && lastUsed <= BLOCK <= |out| ==> DecodeDir(out[..|out| - BLOCK + lastUsed]) == Some(done))
  }

  lemma BlockAdded(n: nat)
    requires n % BLOCK == 0
    ensures (n + BLOCK) % BLOCK == 0
  {
  }

  lemma PackBlock(list: seq<Dirent>, i: nat, k: nat, out: Bytes, lastUsed: nat, blk: Bytes)
    requires PackedSoFar(list, i, out, lastUsed) && 0 < k && i + k <= |list|
    requires var es := list[i..i + k]; Used(es) <= BLOCK && blk == Packed(es) + Zeros(BLOCK - Used(es))
    ensures PackedSoFar(list, i + k, out + blk, Used(list[i..i + k]))
  {
    hide DecodeDir, Encodable, Names, Table;
    var es := list[i..i + k];
    FitsMore(list, i, k);
    BlockAdded(|out|);
    if Encodable(list) {
      EncodablePart(list, i, i + k);
      AppendBlock(out, list[..i], es, blk);
      assert list[..i] + es == list[..i + k];
    }
  }

  /** Packs a sorted entry list.  It fails exactly when some name cannot fit in a block; otherwise
      `size` is exact, reading back that many bytes yields the list, and the padded bytes fill the
      blocks of `size`. */
  method PackDirents(list: seq<Dirent>) returns (r: Option<(Bytes, nat)>)
    ensures r.None? <==> !NamesFit(list)
    ensures r.Some? ==> HoldsList(list, r.value.0, r.value.1)
  {
    hide PackedSoFar, SizeSoFar, HoldsList, NamesFit, Packed, Table, Names, Fitting;
    var out: Bytes, lastUsed, i := [], 0, 0;
    NothingPacked(list);
    SizeStarts(list);
    while i < |list|
      invariant i <= |list| && PackedSoFar(list, i, out, lastUsed) && SizeSoFar(list, i, out, lastUsed)
    {
      var k := CountFitting(list[i..]);
      if k == 0 {
        TooLong(list, i);
        return None;
      }
      assert list[i..][..k] == list[i..i + k];
      var blk := FillBlock(list[i..i + k]);
      PackBlock(list, i, k, out, lastUsed, blk);
      PackedLengthIs(list[i..i + k]);
      SizeStep(list, i, k, out, blk, lastUsed);
      out := out + blk;
      lastUsed := Used(list[i..i + k]);
      i := i + k;
    }
    AllPacked(list, out, lastUsed);
    r := if out == [] then Some(([], 0)) else Some((out, |out| - BLOCK + lastUsed));
  }

  predicate NamesFit(list: seq<Dirent>) {
    forall i | 0 <= i < |list| :: 12 + |list[i].name| <= BLOCK
  }

  lemma PackedLengthIs(es: seq<Dirent>)
    ensures |Packed(es)| == Used(es)
  {
  }

  /** `size` is exact and that many bytes of `data` read back as `list`; `data` is the whole blocks
      those bytes occupy. */
  ghost predicate HoldsList(list: seq<Dirent>, data: Bytes, size: nat) {
    && size <= |data| < size + BLOCK && |data| % BLOCK == 0
    && (list != [] ==> size > 0) && size == PackedSize(list)
    && (Encodable(list) ==> DecodeDir(data[..size]) == Some(list))
  }

  lemma TooLong(list: seq<Dirent>, i: nat)
    requires i < |list| && Used(list[i..][..1]) > BLOCK
    ensures !NamesFit(list)
  {
    assert list[i..][..1] == [list[i]] && [list[i]][1..] == [];
    assert Names([list[i]]) == list[i].name;
  }

  lemma AllPacked(list: seq<Dirent>, out: Bytes, lastUsed: nat)
    requires PackedSoFar(list, |list|, out, lastUsed) && SizeSoFar(list, |list|, out, lastUsed)
    ensures NamesFit(list)
    ensures if out == [] then HoldsList(list, [], 0)
            else lastUsed <= BLOCK <= |out| && HoldsList(list, out, |out| - BLOCK + lastUsed)
  {
    hide DecodeDir, Encodable, Used;
    assert list[..|list|] == list;
  }

  lemma {:induction false} FitsEach(es: seq<Dirent>)
    requires Used(es) <= BLOCK
    ensures forall m | 0 <= m < |es| :: 12 + |es[m].name| <= BLOCK
  {
    if es != [] {
      FitsEach(es[1..]);
      forall m | 0 < m < |es| ensures 12 + |es[m].name| <= BLOCK { assert es[m] == es[1..][m - 1]; }
    }
  }
}
