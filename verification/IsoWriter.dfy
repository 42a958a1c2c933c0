/**
 Model of WriteIso9660 in internal/purefs/iso9660.go, from the inputs to the finished image.
 */
module IsoWriter {
  import opened Basics
  import opened Codec
  import opened Seqs
  import opened Paths
  import opened IsoRecord
  import opened IsoDirectory
  import opened IsoTree
  import opened IsoLayout
  import opened IsoTable
  import opened IsoImage
  import opened IsoVolume
  import opened IsoReadBack
  import opened IsoLongNames

  method WriteImage(ly: Layout, ghost dirs: Dirs, inputs: seq<Input>, boot: nat, stamp: Stamp)
    returns (r: Option<Bytes>)
    requires stamp.Valid() && LaidOut(inputs, dirs, ly) && boot < |inputs|
    ensures Closed(ly.order)
    ensures r.None? <==> exists k :: 0 <= k < |ly.files| && !SourceOk(inputs, ly.files[k])
    ensures r.Some? ==> ImageOf(r.value, ly, inputs, boot, stamp)
  {
    hide *;
    HeldBy(inputs, dirs, ly);
    InOrderClosed(inputs, dirs, ly);
    PlacedFacts(ly);
    forall f | f in ly.files ensures f.id < |inputs| { FilesListed(inputs, dirs, ly, f); }
    var wrote := WriteHead(ly, stamp);
    if wrote.None? { return None; }
    FirstDirIs(ly);
    assert |stamp.time| == 7 by { StampTime(stamp); }
    ghost var head := Settled(wrote.value, AfterDirs(ly, 0));
    wrote := WriteDirs(wrote.value, ly, stamp.time);
    if wrote.None? { return None; }
    ghost var withDirs := Settled(wrote.value, ly.catalog);
    var cat := Catalog(ly, inputs[boot].size, At(ly.places, boot));
    CatalogSize(ly, inputs[boot].size, At(ly.places, boot));
    wrote := WriteAt(wrote.value, ly.catalog, cat);
    if wrote.None? { return None; }
    ghost var withCatalog := withDirs + PadSector(cat);
    NoFilesBefore(ly);
    wrote := WriteFiles(wrote.value, ly, inputs);
    if wrote.None? { return None; }
    var padded := PadTo(wrote.value, ly.total);
    if padded.None? { return None; }
    SettledIs(wrote.value, ly.total, padded.value);
    Assemble(head, withDirs, cat, padded.value, ly, inputs, boot, stamp);
    r := padded;
  }

  lemma StampTime(stamp: Stamp)
    requires stamp.Valid()
    ensures |stamp.time| == 7
  {
  }

  lemma FirstDirIs(ly: Layout)
    ensures AfterDirs(ly, 0) == FirstDir(ly.tableLen)
  {
  }

  lemma NoFilesBefore(ly: Layout)
    ensures AfterFiles(ly, 0) == ly.catalog + 1
  {
  }

  lemma CatalogSize(ly: Layout, bootSize: nat, bootExtent: nat)
    ensures Sectors(|Catalog(ly, bootSize, bootExtent)|) == 1
  {
    hide Validation;
  }

  lemma SettledIs(out: Bytes, next: nat, padded: Bytes)
    requires |out| <= next * SECTOR && padded == out + Zeros(next * SECTOR - |out|)
    ensures Settled(out, next) == padded && |padded| == next * SECTOR
  {
  }

  /** What was there stays there as the image grows. */
  lemma Assemble(head: Bytes, withDirs: Bytes, cat: Bytes, img: Bytes, ly: Layout, inputs: seq<Input>, boot: nat,
                 stamp: Stamp)
    requires stamp.Valid() && Closed(ly.order) && boot < |inputs| && |img| == ly.total * SECTOR
    requires head <= withDirs && |withDirs| == ly.catalog * SECTOR && withDirs + PadSector(cat) <= img
    requires HeadPresent(head, ly, stamp) && DirsPresent(withDirs, ly, stamp.time, |ly.order|)
    requires cat == Catalog(ly, inputs[boot].size, At(ly.places, boot)) && FilesPresent(img, ly, inputs, |ly.files|)
    ensures ImageOf(img, ly, inputs, boot, stamp)
  {
    hide Catalog, Present, Pvd, Brvd, TERMINATOR, Table, DirBytes, PadSector, FilesPresent;
    PresentNew(withDirs, ly.catalog, cat);
    StaysIn(withDirs + PadSector(cat), img, ly.catalog, cat);
    StaysIn(head, img, 16, Pvd(stamp.volumeID, ly, stamp.time, stamp.date));
    StaysIn(head, img, 17, Brvd(ly));
    StaysIn(head, img, 18, TERMINATOR);
    StaysIn(head, img, ly.tableL, Table(true, ly, |ly.order|));
    StaysIn(head, img, ly.tableM, Table(false, ly, |ly.order|));
    forall k | 0 <= k < |ly.order| ensures DirPresent(img, ly, stamp.time, ly.order[k]) {
      assert DirPresent(withDirs, ly, stamp.time, ly.order[k]);
      StaysIn(withDirs, img, At(ly.extents, ly.order[k]), PadSector(DirBytes(ly, ly.order[k], stamp.time)));
    }
  }

  lemma StaysIn(a: Bytes, b: Bytes, sector: nat, x: Bytes)
    requires a <= b
    ensures Present(a, sector, x) ==> Present(b, sector, x)
  {
    hide Present;
    assert b == a + b[|a|..];
    if Present(a, sector, x) { PresentStays(a, b[|a|..], sector, x); }
  }

  ghost predicate BadSource(f: Input) {
    f.source.None? || |f.source.value| != f.size
  }

  /** WriteIso9660.  It fails exactly when the boot image is not among the inputs or some source does
      not yield its declared size; a layout overrun never happens.  The image is `total` sectors.  As
      long as no directory reaches 4 GiB and the sectors are numbered in 32 bits, it reads back as its
      inputs exactly when no path component exceeds 144 bytes. */
  method WriteIso9660(inputs: seq<Input>, bootImage: Bytes, stamp: Stamp)
    returns (r: Option<Bytes>, ghost ly: Layout, ghost dirs: Dirs, ghost boot: nat)
    requires stamp.Valid()
    ensures r.None? <==>
              || (forall i | 0 <= i < |inputs| :: SplitClean(inputs[i].path) != SplitClean(bootImage))
              || (exists i :: 0 <= i < |inputs| && BadSource(inputs[i]))
    ensures r.Some? ==>
              && LaidOut(inputs, dirs, ly) && Closed(ly.order) && |r.value| == ly.total * SECTOR
              && LastAt(inputs, bootImage, boot)
              && boot < |inputs| && ImageOf(r.value, ly, inputs, boot, stamp)
    ensures r.Some? && SmallDirs(ly) && |r.value| < U32 * SECTOR ==>
              && (ReadsAsInputs(r.value, inputs, boot) <==> ShortComponents(inputs))
              && ReadVolume(r.value).Some? && IsLabel(ReadVolume(r.value).value.id, stamp.volumeID)
  {
    hide *;
    ly, boot := Layout(map[], [], map[], map[], 0, 0, 0, 0, [], map[], 0), 0;
    var laid;
    laid, dirs := LayoutIso(inputs, bootImage);
    if laid.None? { return None, ly, dirs, boot; }
    ly, boot := laid.value.0, laid.value.1;
    BootIsInput(inputs, bootImage, boot);
    NowLaidOut(inputs, dirs, ly);
    r := WriteImage(laid.value.0, dirs, inputs, laid.value.1, stamp);
    SourcesListed(inputs, dirs, ly);
    if r.Some? {
      ImageLength(r.value, ly, inputs, boot, stamp);
      if SmallDirs(ly) && |r.value| < U32 * SECTOR {
        NowWritten(r.value, inputs, dirs, ly, boot, stamp);
        WrittenFacts(r.value, inputs, dirs, ly, boot, stamp);
        VolumeSize(r.value, ly, stamp);
        if ShortComponents(inputs) {
          ImageReadsBack(r.value, inputs, dirs, ly, boot, stamp);
        } else {
          LongNamesAreLost(r.value, inputs, dirs, ly, boot, stamp);
        }
      }
    }
  }

  lemma BootIsInput(inputs: seq<Input>, bootImage: Bytes, boot: nat)
    requires LastAt(inputs, bootImage, boot)
    ensures boot < |inputs|
  {
  }

  lemma NowLaidOut(inputs: seq<Input>, dirs: Dirs, ly: Layout)
    requires IsoTree.Holds(dirs, inputs) && BreadthFirst(dirs, ly.sorted, ly.order) && Placed(ly)
    ensures LaidOut(inputs, dirs, ly)
  {
  }

  lemma ImageLength(img: Bytes, ly: Layout, inputs: seq<Input>, boot: nat, stamp: Stamp)
    requires stamp.Valid() && Closed(ly.order) && boot < |inputs| && ImageOf(img, ly, inputs, boot, stamp)
    ensures |img| == ly.total * SECTOR
  {
  }

  lemma NowWritten(img: Bytes, inputs: seq<Input>, dirs: Dirs, ly: Layout, boot: nat, stamp: Stamp)
    requires stamp.Valid() && LaidOut(inputs, dirs, ly) && Closed(ly.order) && boot < |inputs|
    requires ImageOf(img, ly, inputs, boot, stamp) && SmallDirs(ly) && |img| < U32 * SECTOR
    ensures Written(img, inputs, dirs, ly, boot, stamp)
  {
  }

  lemma SourcesListed(inputs: seq<Input>, dirs: Dirs, ly: Layout)
    requires LaidOut(inputs, dirs, ly)
    ensures (exists k :: 0 <= k < |ly.files| && !SourceOk(inputs, ly.files[k]))
       <==> (exists i :: 0 <= i < |inputs| && BadSource(inputs[i]))
  {
    hide LaidOut, EntryFor;
    if k :| 0 <= k < |ly.files| && !SourceOk(inputs, ly.files[k]) {
      FilesListed(inputs, dirs, ly, ly.files[k]);
      EntryForIs(inputs, ly.files[k].id);
      assert BadSource(inputs[ly.files[k].id]);
    }
    if i :| 0 <= i < |inputs| && BadSource(inputs[i]) {
      EntryForIs(inputs, i);
      var f := EntryFor(inputs, i);
      FilesListed(inputs, dirs, ly, f);
      var k :| 0 <= k < |ly.files| && ly.files[k] == f;
      assert !SourceOk(inputs, ly.files[k]);
    }
  }

  // ---------- a name that is lost ----------

  const BOOT: Bytes := [98]
  const LONG: Bytes := seq(145, _ => 97)

  /** Two empty files, one with a name of 145 bytes. */
  const LOSSY: seq<Input> := [Input(BOOT, 0, Some([])), Input(LONG, 0, Some([]))]

  lemma OneComponent(name: Name)
    requires Plain(name)
    ensures SplitClean(name) == [name] && DirPath(name) == []
  {
    hide SplitClean;
    CleanJoin([name]);
  }

  lemma LossyPaths()
    ensures SplitClean(BOOT) == [BOOT] && SplitClean(LONG) == [LONG] && |LONG| == 145 && |LOSSY| == 2
    ensures forall i | 0 <= i < |LOSSY| :: DirPath(LOSSY[i].path) == []
  {
    hide SplitClean, DirPath;
    assert LONG[0] == 97;
    OneComponent(BOOT);
    OneComponent(LONG);
  }

  /** Inputs that are all at the root give one directory. */
  lemma OneDirectory(inputs: seq<Input>, dirs: Dirs, ly: Layout)
    requires LaidOut(inputs, dirs, ly) && forall i | 0 <= i < |inputs| :: DirPath(inputs[i].path) == []
    ensures ly.order == [[]] && [] in ly.sorted && ly.sorted[[]].subdirs == []
    ensures |ly.sorted[[]].files| == |FilesIn(inputs, [])| && ly.files == ly.sorted[[]].files
  {
    hide *;
    HeldBy(inputs, dirs, ly);
    InOrder(inputs, dirs, ly, []);
    RootIn(dirs);
    forall p ensures p in dirs ==> p == [] { OnlyRoot(dirs, inputs, p); }
    RootOnly(dirs, ly.sorted, ly.order);
    SortedFiles(dirs[[]], ly.sorted[[]]);
    NoSubdirs(dirs);
    NothingIn(ly.sorted[[]].subdirs);
    SameLength(ly.sorted[[]].files, dirs[[]].files);
    PlacedFiles(ly);
    AllOfOne(ly.sorted);
  }

  lemma NothingIn<T>(s: seq<T>)
    requires forall x :: x !in s
    ensures s == []
  {
    forall x ensures multiset(s)[x] == 0 { assert x !in s; }
    assert multiset(s) == multiset{} && |multiset(s)| == |s|;
  }

  lemma NoSubdirs(dirs: Dirs)
    requires Tree(dirs) && [] in dirs && forall p | p in dirs :: p == []
    ensures forall n :: n !in dirs[[]].subdirs
  {
    hide Tree;
    forall n ensures n !in dirs[[]].subdirs { ChildIn(dirs, [], n); }
  }

  lemma OnlyRoot(dirs: Dirs, inputs: seq<Input>, p: Path)
    requires IsoTree.Holds(dirs, inputs) && forall i | 0 <= i < |inputs| :: DirPath(inputs[i].path) == []
    ensures p in dirs ==> p == []
  {
    hide DirPath, FilesIn, Tree;
  }

  lemma RootOnly(dirs: Dirs, sorted: Dirs, order: seq<Path>)
    requires BreadthFirst(dirs, sorted, order) && forall p | p in dirs :: p == []
    ensures order == [[]]
  {
    RootFirst(dirs, sorted, order);
    DistinctFits(order, {[]});
  }

  lemma SameLength<T>(a: seq<T>, b: seq<T>)
    requires multiset(a) == multiset(b)
    ensures |a| == |b|
  {
    assert |multiset(a)| == |multiset(b)|;
  }

  lemma AllOfOne(sorted: Dirs)
    requires [] in sorted
    ensures AllFiles(sorted, [[]]) == sorted[[]].files
  {
    var root: seq<Path> := [[]];
    assert root[..0] == [] && AllFiles(sorted, []) == [];
  }

  lemma {:induction false} PackedBound(lengths: seq<nat>)
    requires forall i | 0 <= i < |lengths| :: lengths[i] <= SECTOR
    ensures PackedLength(lengths) <= 2 * SECTOR * |lengths|
  {
    if lengths != [] { PackedBound(lengths[..|lengths| - 1]); }
  }

  lemma {:induction false} OneRecordEach(fs: seq<FileEntry>, places: map<nat, nat>)
    requires forall f | f in fs :: f.size == 0
    ensures |FileRecords(fs, places)| == |fs|
  {
    if fs != [] {
      var last := fs[|fs| - 1];
      assert last in fs;
      OneRecordEach(fs[..|fs| - 1], places);
      OneSpan(last.name, At(places, last.id));
    }
  }

  lemma OneSpan(name: Name, extent: nat)
    ensures |SpanRecords(name, extent, SpansFrom(0, 0))| == 1
  {
    assert SpansFrom(0, 0)[1..] == [];
  }

  lemma {:induction false} NoSectors(fs: seq<FileEntry>, k: nat)
    requires k <= |fs| && forall f | f in fs :: f.size == 0
    ensures FileSectors(fs, k) == 0
  {
    if k > 0 {
      assert fs[k - 1] in fs;
      NoSectors(fs, k - 1);
    }
  }

  /** Its layout is a few sectors. */
  lemma LossyIsSmall(dirs: Dirs, ly: Layout)
    requires LaidOut(LOSSY, dirs, ly)
    ensures SmallDirs(ly) && ly.total < 100
  {
    hide *;
    HeldBy(LOSSY, dirs, ly);
    LossyPaths();
    OneDirectory(LOSSY, dirs, ly);
    FewFiles(LOSSY, []);
    forall f | f in ly.files ensures f.size == 0 && |f.name| <= 145 {
      FilesListed(LOSSY, dirs, ly, f);
      LossyEntry(f);
    }
    RootIsSmall(ly.sorted[[]]);
    NoSectors(ly.files, |ly.files|);
    TotalIs(ly);
  }

  lemma LossyEntry(f: FileEntry)
    requires f.id < |LOSSY| && f == EntryFor(LOSSY, f.id)
    ensures f.size == 0 && |f.name| <= 145
  {
    hide SplitClean;
    LossyPaths();
    EntryForIs(LOSSY, f.id);
  }

  lemma {:induction false} FewFiles(inputs: seq<Input>, p: Path)
    ensures |FilesIn(inputs, p)| <= |inputs|
  {
    if inputs != [] { FewFiles(inputs[..|inputs| - 1], p); }
  }

  lemma RootIsSmall(d: Dir)
    requires d.subdirs == [] && |d.files| <= 2 && forall f | f in d.files :: f.size == 0 && |f.name| <= 145
    ensures ContentLength([], d) <= 8 * SECTOR
  {
    hide FileRecords, RecordLength, PackedLength;
    var recs := RecordsOf([], d, map[], map[], map[]);
    OneRecordEach(d.files, map[]);
    RecordNames([], d, map[], map[], map[], 145);
    forall r | r in recs ensures RecordLength(r.kind, r.isDir) <= SECTOR { LengthBound(r.kind, r.isDir); }
    forall i | 0 <= i < |recs| ensures RecordLengths(recs)[i] <= SECTOR { assert recs[i] in recs; }
    PackedBound(RecordLengths(recs));
  }

  lemma TotalIs(ly: Layout)
    requires Placed(ly) && ly.order == [[]] && [] in ly.sorted && ContentLength([], ly.sorted[[]]) <= 8 * SECTOR
    requires FileSectors(ly.files, |ly.files|) == 0
    ensures SmallDirs(ly) && ly.total < 100
  {
    hide ContentLength, FileSectors, AllFiles, FilesPlaced, DirsPlaced, TableLength;
    CeilIsSectors(ContentLength([], ly.sorted[[]]));
    RootTable();
    assert [] in ly.order && ly.sizes[[]] <= 9 * SECTOR;
    assert DirSectors(ly.order, ly.sizes, 1) == ly.sizes[[]] / SECTOR;
  }

  lemma RootTable()
    ensures TableLength([[]]) == 10
  {
    var root: seq<Path> := [[]];
    assert root[..0] == [] && TableLength([]) == 0 && root[0] == [];
  }

  /** The image of these inputs is written without complaint and does not read back as them. */
  method LongNameIsLost(stamp: Stamp) returns (r: Option<Bytes>, ghost boot: nat)
    requires stamp.Valid()
    ensures r.Some? && !ReadsAsInputs(r.value, LOSSY, boot)
  {
    hide LaidOut, Closed, ImageOf, ReadsAsInputs, ShortComponents, SmallDirs, SplitClean, BadSource;
    ghost var ly, dirs;
    LossyInputs();
    r, ly, dirs, boot := WriteIso9660(LOSSY, BOOT, stamp);
    LossyIsSmall(dirs, ly);
  }

  lemma LossyInputs()
    ensures SplitClean(LOSSY[0].path) == SplitClean(BOOT) && !ShortComponents(LOSSY)
    ensures forall i | 0 <= i < |LOSSY| :: !BadSource(LOSSY[i])
  {
    hide SplitClean;
    LossyPaths();
    assert LOSSY[1].path == LONG && LONG in SplitClean(LOSSY[1].path);
  }
}
