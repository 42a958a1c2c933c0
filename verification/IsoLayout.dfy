/**
 Model of the second half of layoutIso in internal/purefs/iso9660.go: directory sizes, and the
 sector at which every structure of the image starts.
 */
module IsoLayout {
  import opened Basics
  import opened Codec
  import opened Seqs
  import opened Paths
  import opened IsoRecord
  import opened IsoDirectory
  import opened IsoTree

  /** Extents and sizes are by directory path, places by file id. */
  datatype Layout = Layout(sorted: Dirs, order: seq<Path>, sizes: map<Path, nat>, extents: map<Path, nat>,
                           tableLen: nat, tableL: nat, tableM: nat, catalog: nat,
                           files: seq<FileEntry>, places: map<nat, nat>, total: nat)

  function Sectors(n: nat): nat {
    (n + SECTOR - 1) / SECTOR
  }

  lemma CeilIsSectors(n: nat)
    ensures CeilSector(n) == Sectors(n) * SECTOR && CeilSector(n) / SECTOR == Sectors(n)
    ensures n <= CeilSector(n) < n + SECTOR
  {
  }

  // ---------- the records of a directory ----------

  function At<K>(m: map<K, nat>, k: K): nat {
    if k in m then m[k] else 0
  }

  function SpanRecords(name: Name, extent: nat, spans: seq<Span>): seq<Record> {
    if spans == [] then [] else
    [Record(Named(name), extent + spans[0].off / SECTOR, spans[0].len, false, |spans| > 1)]
      + SpanRecords(name, extent, spans[1..])
  }

  function FileRecords(fs: seq<FileEntry>, places: map<nat, nat>): seq<Record> {
    if fs == [] then [] else
    FileRecords(fs[..|fs| - 1], places)
      + SpanRecords(fs[|fs| - 1].name, At(places, fs[|fs| - 1].id), SpansFrom(0, fs[|fs| - 1].size))
  }

  function SubdirRecords(p: Path, names: seq<Name>, sizes: map<Path, nat>, extents: map<Path, nat>): (r: seq<Record>)
    ensures |r| == |names|
    ensures forall i | 0 <= i < |r| ::
            r[i] == Record(Named(names[i]), At(extents, p + [names[i]]), At(sizes, p + [names[i]]), true, false)
  {
    seq(|names|, i requires 0 <= i < |names| =>
      Record(Named(names[i]), At(extents, p + [names[i]]), At(sizes, p + [names[i]]), true, false))
  }

  function DotRecords(p: Path, sizes: map<Path, nat>, extents: map<Path, nat>): seq<Record> {
    var up := if p == [] then p else Parent(p);
    [Record(Self(p == []), At(extents, p), At(sizes, p), true, false),
     Record(Up, At(extents, up), At(sizes, up), true, false)]
  }

  /** ".", "..", the subdirectories, then one record per extent of each file. */
  function RecordsOf(p: Path, d: Dir, sizes: map<Path, nat>, extents: map<Path, nat>,
                     places: map<nat, nat>): seq<Record> {
    DotRecords(p, sizes, extents) + SubdirRecords(p, d.subdirs, sizes, extents) + FileRecords(d.files, places)
  }

  method ListRecords(p: Path, d: Dir, sizes: map<Path, nat>, extents: map<Path, nat>, places: map<nat, nat>)
    returns (recs: seq<Record>)
    ensures recs == RecordsOf(p, d, sizes, extents, places)
  {
    hide SpansFrom, SpanRecords, RecordLength;
    recs := DotRecords(p, sizes, extents);
    ghost var dots := recs;
    for i := 0 to |d.subdirs|
      invariant recs == dots + SubdirRecords(p, d.subdirs, sizes, extents)[..i]
    {
      var s := p + [d.subdirs[i]];
      recs := recs + [Record(Named(d.subdirs[i]), At(extents, s), At(sizes, s), true, false)];
    }
    ghost var dirs := recs;
    assert d.files[..0] == [];
    for i := 0 to |d.files|
      invariant recs == dirs + FileRecords(d.files[..i], places)
    {
      var f := d.files[i];
      var spans := ExtentSpans(f.size);
      var more := ListSpans(f.name, At(places, f.id), spans);
      assert d.files[..i + 1][..i] == d.files[..i];
      recs := recs + more;
    }
    assert d.files[..|d.files|] == d.files;
  }

  method ListSpans(name: Name, extent: nat, spans: seq<Span>) returns (recs: seq<Record>)
    ensures recs == SpanRecords(name, extent, spans)
  {
    recs := [];
    for i := 0 to |spans|
      invariant SpanRecords(name, extent, spans) == recs + SpanRecords(name, extent, spans[i..])
    {
      assert spans[i..][1..] == spans[i + 1..];
      recs := recs + [Record(Named(name), extent + spans[i].off / SECTOR, spans[i].len, false, i < |spans| - 1)];
    }
  }

  function RecordLengths(recs: seq<Record>): (r: seq<nat>)
    ensures |r| == |recs| && forall i | 0 <= i < |r| :: r[i] == RecordLength(recs[i].kind, recs[i].isDir)
  {
    seq(|recs|, i requires 0 <= i < |recs| => RecordLength(recs[i].kind, recs[i].isDir))
  }

  /** Two record lists that name the same things in the same order have the same lengths. */
  ghost predicate SameShape(a: seq<Record>, b: seq<Record>) {
    |a| == |b| && forall i | 0 <= i < |a| :: a[i].kind == b[i].kind && a[i].isDir == b[i].isDir
  }

  lemma {:induction false} SpansSameShape(name: Name, e: nat, e': nat, spans: seq<Span>)
    ensures SameShape(SpanRecords(name, e, spans), SpanRecords(name, e', spans))
  {
    if spans != [] { SpansSameShape(name, e, e', spans[1..]); }
  }

  lemma {:induction false} FilesSameShape(fs: seq<FileEntry>, m: map<nat, nat>, m': map<nat, nat>)
    ensures SameShape(FileRecords(fs, m), FileRecords(fs, m'))
  {
    hide SpansFrom, SpanRecords;
    if fs != [] {
      FilesSameShape(fs[..|fs| - 1], m, m');
      var f := fs[|fs| - 1];
      SpansSameShape(f.name, At(m, f.id), At(m', f.id), SpansFrom(0, f.size));
    }
  }

  /** Where things are placed does not change how long a directory is. */
  lemma PlacementKeepsShape(p: Path, d: Dir, s: map<Path, nat>, e: map<Path, nat>, m: map<nat, nat>,
                            s': map<Path, nat>, e': map<Path, nat>, m': map<nat, nat>)
    ensures SameShape(RecordsOf(p, d, s, e, m), RecordsOf(p, d, s', e', m'))
  {
    FilesSameShape(d.files, m, m');
  }

  /** The sizing pass: the records are listed with every extent still zero. */
  method DirContentLen(p: Path, d: Dir) returns (used: nat)
    ensures used == ContentLength(p, d)
  {
    var dummies := ListRecords(p, d, map[], map[], map[]);
    used := SizeRecords(RecordLengths(dummies));
  }

  function ContentLength(p: Path, d: Dir): nat {
    PackedLength(RecordLengths(RecordsOf(p, d, map[], map[], map[])))
  }

  // ---------- path table records ----------

  function TableId(p: Path): (id: Bytes)
    ensures |id| <= 30
  {
    if p == [] then [0] else IsoName(Last(p), true)
  }

  function TableRecordLength(p: Path): nat {
    var l := 8 + |TableId(p)|;
    l + l % 2
  }

  function TableLength(order: seq<Path>): nat {
    if order == [] then 0 else TableLength(order[..|order| - 1]) + TableRecordLength(order[|order| - 1])
  }

  // ---------- placement ----------

  function DirSectors(order: seq<Path>, sizes: map<Path, nat>, k: nat): nat
    requires k <= |order|
  {
    if k == 0 then 0 else DirSectors(order, sizes, k - 1) + At(sizes, order[k - 1]) / SECTOR
  }

  function FileSectors(fs: seq<FileEntry>, k: nat): nat
    requires k <= |fs|
  {
    if k == 0 then 0 else FileSectors(fs, k - 1) + Sectors(fs[k - 1].size)
  }

  /** All entries, directory by directory. */
  ghost function AllFiles(sorted: Dirs, order: seq<Path>): seq<FileEntry> {
    if order == [] then [] else AllFiles(sorted, order[..|order| - 1]) + FilesAt(sorted, order[|order| - 1])
  }

  ghost predicate Sized(sorted: Dirs, order: seq<Path>, sizes: map<Path, nat>) {
    forall p | p in order :: p in sorted && p in sizes && sizes[p] == CeilSector(ContentLength(p, sorted[p]))
  }

  /** Each structure starts where the one before it ends. */
  ghost predicate Placed(ly: Layout) {
    && Sized(ly.sorted, ly.order, ly.sizes)
    && ly.tableLen == TableLength(ly.order)
    && ly.tableL == 19 && ly.tableM == 19 + Sectors(ly.tableLen)
    && DirsPlaced(ly.order, ly.sizes, ly.extents, FirstDir(ly.tableLen), |ly.order|)
    && ly.catalog == FirstDir(ly.tableLen) + DirSectors(ly.order, ly.sizes, |ly.order|)
    && ly.files == AllFiles(ly.sorted, ly.order)
    && FilesPlaced(ly.files, ly.places, ly.catalog + 1)
    && ly.total == ly.catalog + 1 + FileSectors(ly.files, |ly.files|)
  }

  function FirstDir(tableLen: nat): nat {
    19 + 2 * Sectors(tableLen)
  }

  ghost predicate DirsPlaced(order: seq<Path>, sizes: map<Path, nat>, extents: map<Path, nat>, first: nat, n: nat)
    requires n <= |order|
  {
    forall k | 0 <= k < n :: order[k] in extents && extents[order[k]] == first + DirSectors(order, sizes, k)
  }

  ghost predicate FilesPlaced(fs: seq<FileEntry>, places: map<nat, nat>, first: nat) {
    forall k | 0 <= k < |fs| :: fs[k].id in places && places[fs[k].id] == first + FileSectors(fs, k)
  }

  ghost predicate DistinctIds(fs: seq<FileEntry>) {
    forall i, j | 0 <= i < j < |fs| :: fs[i].id != fs[j].id
  }

  method SizeDirs(sorted: Dirs, order: seq<Path>) returns (sizes: map<Path, nat>)
    requires forall p | p in order :: p in sorted
    ensures Sized(sorted, order, sizes)
  {
    hide ContentLength, CeilSector;
    sizes := map[];
    for i := 0 to |order|
      invariant Sized(sorted, order[..i], sizes)
    {
      var used := DirContentLen(order[i], sorted[order[i]]);
      sizes := sizes[order[i] := CeilSector(used)];
      assert order[..i + 1] == order[..i] + [order[i]];
    }
    assert order[..|order|] == order;
  }

  method SizeTable(order: seq<Path>) returns (tableLen: nat)
    ensures tableLen == TableLength(order)
  {
    tableLen := 0;
    for i := 0 to |order|
      invariant tableLen == TableLength(order[..i])
    {
      assert order[..i + 1][..i] == order[..i];
      tableLen := tableLen + TableRecordLength(order[i]);
    }
    assert order[..|order|] == order;
  }

  method PlaceDirs(order: seq<Path>, sizes: map<Path, nat>, first: nat) returns (extents: map<Path, nat>, sector: nat)
    requires Distinct(order)
    ensures DirsPlaced(order, sizes, extents, first, |order|)
    ensures sector == first + DirSectors(order, sizes, |order|)
  {
    extents, sector := map[], first;
    for i := 0 to |order|
      invariant DirsPlaced(order, sizes, extents, first, i)
      invariant sector == first + DirSectors(order, sizes, i)
    {
      extents := extents[order[i] := sector];
      sector := sector + At(sizes, order[i]) / SECTOR;
    }
  }

  method PlaceFiles(sorted: Dirs, order: seq<Path>, first: nat)
    returns (files: seq<FileEntry>, places: map<nat, nat>, sector: nat)
    requires DistinctIds(AllFiles(sorted, order))
    ensures files == AllFiles(sorted, order) && FilesPlaced(files, places, first)
    ensures sector == first + FileSectors(files, |files|)
  {
    hide Sectors, FilesPlaced, DistinctIds;
    files, places, sector := [], map[], first;
    assert order[..0] == [];
    NothingPlaced(first);
    for i := 0 to |order|
      invariant files == AllFiles(sorted, order[..i]) && FilesPlaced(files, places, first)
      invariant sector == first + FileSectors(files, |files|)
    {
      assert order[..i + 1][..i] == order[..i];
      AllFilesPrefix(sorted, order, i + 1);
      PrefixDistinct(AllFiles(sorted, order[..i + 1]), AllFiles(sorted, order));
      files, places, sector := PlaceHere(files, FilesAt(sorted, order[i]), places, sector, first);
    }
    assert order[..|order|] == order;
  }

  /** The inner loop: the files of one directory. */
  method PlaceHere(before: seq<FileEntry>, here: seq<FileEntry>, places0: map<nat, nat>, sector0: nat, ghost first: nat)
    returns (files: seq<FileEntry>, places: map<nat, nat>, sector: nat)
    requires DistinctIds(before + here) && FilesPlaced(before, places0, first)
    requires sector0 == first + FileSectors(before, |before|)
    ensures files == before + here && FilesPlaced(files, places, first)
    ensures sector == first + FileSectors(files, |files|)
  {
    hide Sectors, FilesPlaced, DistinctIds;
    files, places, sector := before, places0, sector0;
    for j := 0 to |here|
      invariant files == before + here[..j] && FilesPlaced(files, places, first)
      invariant sector == first + FileSectors(files, |files|)
    {
      var f := here[j];
      PrefixDistinct(files + [f], before + here);
      OneMorePlaced(files, f, places, first);
      FileSectorsPrefix(files, f);
      files := files + [f];
      places := places[f.id := sector];
      sector := sector + Sectors(f.size);
    }
    assert here[..|here|] == here;
  }

  lemma NothingPlaced(first: nat)
    ensures FilesPlaced([], map[], first)
  {
  }

  lemma PrefixDistinct(a: seq<FileEntry>, b: seq<FileEntry>)
    requires a <= b && DistinctIds(b)
    ensures DistinctIds(a)
  {
  }

  lemma DifferentIds(fs: seq<FileEntry>, i: nat, j: nat)
    requires DistinctIds(fs) && i < j < |fs|
    ensures fs[i].id != fs[j].id
  {
  }

  lemma OneMorePlaced(files: seq<FileEntry>, f: FileEntry, places: map<nat, nat>, first: nat)
    requires DistinctIds(files + [f]) && FilesPlaced(files, places, first)
    ensures FilesPlaced(files + [f], places[f.id := first + FileSectors(files, |files|)], first)
  {
    hide FileSectors, DistinctIds;
    var more, n := files + [f], |files|;
    var places' := places[f.id := first + FileSectors(files, n)];
    forall k | 0 <= k < |more| ensures more[k].id in places' && places'[more[k].id] == first + FileSectors(more, k) {
      FileSectorsSame(files, f, k);
      if k < n { DifferentIds(more, k, n); }
    }
  }

  lemma {:induction false} AllFilesPrefix(sorted: Dirs, order: seq<Path>, k: nat)
    requires k <= |order|
    ensures AllFiles(sorted, order[..k]) <= AllFiles(sorted, order)
  {
    if k == |order| {
      assert order[..k] == order;
    } else {
      var front := order[..|order| - 1];
      AllFilesPrefix(sorted, front, k);
      assert front[..k] == order[..k];
    }
  }

  lemma FileSectorsPrefix(fs: seq<FileEntry>, f: FileEntry)
    ensures forall k | 0 <= k <= |fs| :: FileSectors(fs + [f], k) == FileSectors(fs, k)
    ensures FileSectors(fs + [f], |fs| + 1) == FileSectors(fs, |fs|) + Sectors(f.size)
  {
    hide Sectors;
    forall k | 0 <= k <= |fs| ensures FileSectors(fs + [f], k) == FileSectors(fs, k) { FileSectorsSame(fs, f, k); }
  }

  lemma {:induction false} FileSectorsSame(fs: seq<FileEntry>, f: FileEntry, k: nat)
    requires k <= |fs|
    ensures FileSectors(fs + [f], k) == FileSectors(fs, k)
  {
    if k > 0 { FileSectorsSame(fs, f, k - 1); }
  }

  // ---------- entries are distinct ----------

  function EntryFor(inputs: seq<Input>, i: nat): FileEntry
    requires i < |inputs|
  {
    FileEntry(BaseName(inputs[i].path), inputs[i].size, i)
  }

  lemma {:induction false} FilesInIs(inputs: seq<Input>, p: Path)
    ensures forall f :: f in FilesIn(inputs, p) <==>
              f.id < |inputs| && f == EntryFor(inputs, f.id) && DirPath(inputs[f.id].path) == p
    ensures DistinctIds(FilesIn(inputs, p))
  {
    hide DirPath, BaseName;
    if inputs != [] {
      var n := |inputs| - 1;
      FilesInIs(inputs[..n], p);
      forall f | f in FilesIn(inputs[..n], p) ensures f.id < n && f == EntryFor(inputs, f.id) { }
    }
  }

  lemma DistinctFromCounts(a: seq<FileEntry>, b: seq<FileEntry>)
    requires multiset(a) == multiset(b) && DistinctIds(a)
    ensures DistinctIds(b) && |a| == |b| && forall f :: f in b <==> f in a
  {
    assert |multiset(a)| == |a| && |multiset(b)| == |b|;
    forall f ensures f in b <==> f in a { assert f in multiset(a) <==> f in multiset(b); }
    forall i, j | 0 <= i < j < |b| ensures b[i].id != b[j].id {
      if b[i].id == b[j].id {
        assert b[i] in a && b[j] in a;
        var x :| 0 <= x < |a| && a[x] == b[i];
        var y :| 0 <= y < |a| && a[y] == b[j];
        assert x == y;
        TwoCopies(b, i, j);
        OneCopy(a, x);
      }
    }
  }

  lemma TwoCopies(b: seq<FileEntry>, i: nat, j: nat)
    requires i < j < |b| && b[i] == b[j]
    ensures multiset(b)[b[i]] >= 2
  {
    assert b == b[..j] + b[j..];
    assert b[i] == b[..j][i] && b[j] == b[j..][0];
    assert b[i] in multiset(b[..j]) && b[i] in multiset(b[j..]);
  }

  lemma OneCopy(a: seq<FileEntry>, x: nat)
    requires DistinctIds(a) && x < |a|
    ensures multiset(a)[a[x]] == 1
  {
    assert a == a[..x] + [a[x]] + a[x + 1..];
    assert a[x] !in a[..x] && a[x] !in a[x + 1..];
  }

  /** Every entry of every directory is there once, and comes from its own input. */
  lemma {:induction false} AllFilesDistinct(dirs: Dirs, sorted: Dirs, inputs: seq<Input>, order: seq<Path>)
    requires Distinct(order) && (forall p | p in order :: p in dirs && p in sorted && SortedDir(dirs[p], sorted[p]))
    requires forall p :: FilesAt(dirs, p) == FilesIn(inputs, p)
    ensures DistinctIds(AllFiles(sorted, order))
    ensures forall f :: f in AllFiles(sorted, order) <==>
              f.id < |inputs| && f == EntryFor(inputs, f.id) && DirPath(inputs[f.id].path) in order
  {
    hide DirPath, EntryFor, Less;
    if order != [] {
      var n := |order| - 1;
      var front, p := order[..n], order[n];
      AllFilesDistinct(dirs, sorted, inputs, front);
      FilesInIs(inputs, p);
      assert SortedDir(dirs[p], sorted[p]) && FilesAt(dirs, p) == FilesIn(inputs, p);
      DistinctFromCounts(FilesIn(inputs, p), sorted[p].files);
      assert p !in front;
      DisjointIds(AllFiles(sorted, front), FilesAt(sorted, p));
    }
  }

  lemma DisjointIds(a: seq<FileEntry>, b: seq<FileEntry>)
    requires DistinctIds(a) && DistinctIds(b) && forall f, g | f in a && g in b :: f.id != g.id
    ensures DistinctIds(a + b)
  {
    var c := a + b;
    forall i, j | 0 <= i < j < |c| ensures c[i].id != c[j].id {
      if i < |a| <= j { assert c[i] in a && c[j] in b; }
    }
  }

  /** layoutIso.  It fails exactly when the boot image is not among the inputs. */
  method LayoutIso(inputs: seq<Input>, bootImage: Bytes) returns (r: Option<(Layout, nat)>, ghost dirs: Dirs)
    ensures r.None? <==> forall i | 0 <= i < |inputs| :: SplitClean(inputs[i].path) != SplitClean(bootImage)
    ensures IsoTree.Holds(dirs, inputs)
    ensures r.Some? ==>
              && BreadthFirst(dirs, r.value.0.sorted, r.value.0.order) && Placed(r.value.0)
              && LastAt(inputs, bootImage, r.value.1)
  {
    hide SplitClean, IsoTree.Holds, BreadthFirst, DirsPlaced, FilesPlaced, Sized, Sectors, Distinct, DistinctIds,
      CeilSector, Tree, SortedDir, FilesIn, AllFiles, TableLength, DirSectors, FileSectors;
    var tree, boot := BuildTree(inputs, bootImage);
    dirs := tree;
    if boot.None? { return None, dirs; }
    HeldTree(dirs, inputs);
    var sorted, order := OrderDirs(tree);
    OrderFacts(dirs, sorted, order);
    var sizes := SizeDirs(sorted, order);
    var tableLen := SizeTable(order);
    CeilIsSectors(tableLen);
    var tableL := 19;
    var tableM := tableL + CeilSector(tableLen) / SECTOR;
    var first := tableM + CeilSector(tableLen) / SECTOR;
    var extents, catalog := PlaceDirs(order, sizes, first);
    AllFilesDistinct(dirs, sorted, inputs, order);
    var files, places, total := PlaceFiles(sorted, order, catalog + 1);
    r := Some((Layout(sorted, order, sizes, extents, tableLen, tableL, tableM, catalog, files, places, total),
        boot.value));
  }

  lemma HeldTree(dirs: Dirs, inputs: seq<Input>)
    requires IsoTree.Holds(dirs, inputs)
    ensures Tree(dirs) && forall p :: FilesAt(dirs, p) == FilesIn(inputs, p)
  {
  }

  lemma OrderFacts(dirs: Dirs, sorted: Dirs, order: seq<Path>)
    requires BreadthFirst(dirs, sorted, order)
    ensures Distinct(order) && forall p | p in order :: p in dirs && p in sorted && SortedDir(dirs[p], sorted[p])
  {
  }
}
