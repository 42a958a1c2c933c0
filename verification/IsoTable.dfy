/**
 Model of the path tables of internal/purefs/iso9660.go (section 9.4 of ECMA-119), in both byte
 orders, against a reader.
 */
module IsoTable {
  import opened Basics
  import opened Codec
  import opened Seqs
  import opened IsoTree
  import opened IsoLayout

  function Number(little: bool, v: nat, n: nat): (b: Bytes)
    ensures |b| == n
  {
    if little then LE(v, n) else BE(v, n)
  }

  function UnNumber(little: bool, b: Bytes): nat {
    if little then UnLE(b) else UnBE(b)
  }

  lemma NumberReadsBack(little: bool, v: nat, n: nat)
    requires v < Pow256(n)
    ensures UnNumber(little, Number(little, v, n)) == v
  {
    if little { UnLEofLE(v, n); } else { UnBEofBE(v, n); }
  }

  /** The 1-based number of a directory's parent; the root is its own. */
  function ParentNumber(order: seq<Path>, p: Path): nat
    requires p != [] ==> Parent(p) in order
  {
    if p == [] then 1 else IndexOf(order, Parent(p)) + 1
  }

  function TableRecord(little: bool, id: Bytes, extent: nat, parent: nat): (b: Bytes)
    requires |id| < 256
    ensures |b| == 8 + |id| + (8 + |id|) % 2
  {
    [|id|, 0] + Number(little, extent % U32, 4) + Number(little, parent % 0x1_0000, 2) + id + Zeros((8 + |id|) % 2)
  }

  ghost predicate Closed(order: seq<Path>) {
    forall p | p in order && p != [] :: Parent(p) in order
  }

  function RecordAt(little: bool, ly: Layout, k: nat): (b: Bytes)
    requires k < |ly.order| && Closed(ly.order)
    ensures |b| == TableRecordLength(ly.order[k])
  {
    var p := ly.order[k];
    TableRecord(little, TableId(p), At(ly.extents, p), ParentNumber(ly.order, p))
  }

  /** The table of the first `n` directories. */
  function Table(little: bool, ly: Layout, n: nat): (b: Bytes)
    requires n <= |ly.order| && Closed(ly.order)
    ensures |b| == TableLength(ly.order[..n])
  {
    if n == 0 then [] else
    assert ly.order[..n][..n - 1] == ly.order[..n - 1];
    Table(little, ly, n - 1) + RecordAt(little, ly, n - 1)
  }

  method WriteTable(little: bool, ly: Layout) returns (b: Bytes)
    requires Closed(ly.order)
    ensures b == Table(little, ly, |ly.order|)
  {
    hide RecordAt;
    b := [];
    for n := 0 to |ly.order|
      invariant b == Table(little, ly, n)
    {
      b := b + RecordAt(little, ly, n);
    }
  }

  datatype TableEntry = TableEntry(id: Bytes, extent: nat, parent: nat)

  /** Reading a table from its front. */
  function ReadTable(little: bool, b: Bytes): Option<seq<TableEntry>> {
    if b == [] then Some([])
    else if |b| < 8 then None
    else
      var len: nat := 8 + b[0] as int;
      if |b| < len + len % 2 then None else
      var rest := ReadTable(little, b[len + len % 2..]);
      if rest.None? then None
      else Some([TableEntry(b[8..len], UnNumber(little, b[2..6]), UnNumber(little, b[6..8]))] + rest.value)
  }

  /** Where the fields of a record sit, whatever follows it. */
  lemma RecordFields(little: bool, id: Bytes, extent: nat, parent: nat, rest: Bytes)
    requires |id| < 256 && extent < U32 && parent < 0x1_0000
    ensures var rec := TableRecord(little, id, extent, parent);
            var b := rec + rest;
            && b[0] == |id| && b[2..6] == Number(little, extent, 4) && b[6..8] == Number(little, parent, 2)
            && b[8..8 + |id|] == id && b[|rec|..] == rest
  {
    hide Number;
    var rec := TableRecord(little, id, extent, parent);
    assert rec[2..6] == Number(little, extent, 4) && rec[6..8] == Number(little, parent, 2) && rec[8..8 + |id|] == id;
    SliceInPrefix(rec, rec + rest, 2, 6);
    SliceInPrefix(rec, rec + rest, 6, 8);
    SliceInPrefix(rec, rec + rest, 8, 8 + |id|);
  }

  lemma ReadOne(little: bool, id: Bytes, extent: nat, parent: nat, rest: Bytes)
    requires |id| < 256 && extent < U32 && parent < 0x1_0000 && ReadTable(little, rest).Some?
    ensures ReadTable(little, TableRecord(little, id, extent, parent) + rest)
         == Some([TableEntry(id, extent, parent)] + ReadTable(little, rest).value)
  {
    hide Number, UnNumber, TableRecord;
    Widths();
    RecordFields(little, id, extent, parent, rest);
    NumberReadsBack(little, extent, 4);
    NumberReadsBack(little, parent, 2);
  }

  function EntryAt(ly: Layout, k: nat): TableEntry
    requires k < |ly.order| && Closed(ly.order)
  {
    var p := ly.order[k];
    TableEntry(TableId(p), At(ly.extents, p), ParentNumber(ly.order, p))
  }

  /** The entries of directories `k` and up. */
  ghost function EntriesFrom(ly: Layout, k: nat): (r: seq<TableEntry>)
    requires k <= |ly.order| && Closed(ly.order)
    ensures |r| == |ly.order| - k && forall i | 0 <= i < |r| :: r[i] == EntryAt(ly, k + i)
    decreases |ly.order| - k
  {
    if k == |ly.order| then [] else [EntryAt(ly, k)] + EntriesFrom(ly, k + 1)
  }

  lemma ReadRecordAt(little: bool, ly: Layout, k: nat, rest: Bytes)
    requires k < |ly.order| < 0x1_0000 && Closed(ly.order) && At(ly.extents, ly.order[k]) < U32
    requires ReadTable(little, rest).Some?
    ensures ReadTable(little, RecordAt(little, ly, k) + rest) == Some([EntryAt(ly, k)] + ReadTable(little, rest).value)
  {
    var p := ly.order[k];
    assert ParentNumber(ly.order, p) <= |ly.order|;
    ReadOne(little, TableId(p), At(ly.extents, p), ParentNumber(ly.order, p), rest);
  }

  /** Reading the table after its first `k` records. */
  lemma {:induction false} TableReadsFrom(little: bool, ly: Layout, k: nat) returns (rest: Bytes)
    requires k <= |ly.order| < 0x1_0000 && Closed(ly.order) && forall p | p in ly.order :: At(ly.extents, p) < U32
    ensures Table(little, ly, |ly.order|) == Table(little, ly, k) + rest
    ensures ReadTable(little, rest) == Some(EntriesFrom(ly, k))
    decreases |ly.order| - k
  {
    hide *;
    if k == |ly.order| {
      rest := [];
      ReadNothing(little);
      NoEntriesLeft(ly);
    } else {
      rest := TableReadsFrom(little, ly, k + 1);
      ReadRecordAt(little, ly, k, rest);
      OneStep(little, ly, k);
      Assoc(Table(little, ly, k), RecordAt(little, ly, k), rest);
      rest := RecordAt(little, ly, k) + rest;
    }
  }

  lemma OneStep(little: bool, ly: Layout, k: nat)
    requires k < |ly.order| && Closed(ly.order)
    ensures Table(little, ly, k + 1) == Table(little, ly, k) + RecordAt(little, ly, k)
    ensures EntriesFrom(ly, k) == [EntryAt(ly, k)] + EntriesFrom(ly, k + 1)
  {
    hide RecordAt, EntryAt, TableLength, Closed;
  }

  lemma NoEntriesLeft(ly: Layout)
    requires Closed(ly.order)
    ensures EntriesFrom(ly, |ly.order|) == []
  {
  }

  lemma ReadNothing(little: bool)
    ensures ReadTable(little, []) == Some([])
  {
  }

  lemma EmptyTable(little: bool, ly: Layout)
    requires Closed(ly.order)
    ensures Table(little, ly, 0) == []
  {
  }

  /** A table of at most 65535 directories reads back as their identifiers, extents and parents. */
  lemma TableReadsBack(little: bool, ly: Layout)
    requires |ly.order| < 0x1_0000 && Closed(ly.order) && forall p | p in ly.order :: At(ly.extents, p) < U32
    ensures ReadTable(little, Table(little, ly, |ly.order|)) == Some(EntriesFrom(ly, 0))
  {
    hide *;
    var rest := TableReadsFrom(little, ly, 0);
    EmptyTable(little, ly);
    assert [] + rest == rest;
  }
}
