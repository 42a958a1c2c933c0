/**
 Reading back an image of internal/purefs/iso9660.go: directories, files, boot image and path tables,
 under directories whose names fit their records.
 */
module IsoReadBack {
  import opened Basics
  import opened Codec
  import opened Seqs
  import opened Paths
  import opened IsoRecord
  import opened IsoTree
  import opened IsoLayout
  import opened IsoTable
  import opened IsoImage
  import opened IsoVolume

  // ---------- when every record fits its fields ----------

  /** What a caller can check: no path component exceeds 144 bytes. */
  ghost predicate ShortComponents(inputs: seq<Input>) {
    forall i | 0 <= i < |inputs| :: ShortParts(SplitClean(inputs[i].path))
  }

  ghost predicate ShortParts(p: Path) {
    forall c | c in p :: |c| <= 144
  }

  /** No entry of the directory has a longer name. */
  ghost predicate NamesWithin(d: Dir, limit: nat) {
    (forall n | n in d.subdirs :: |n| <= limit) && (forall f | f in d.files :: |f.name| <= limit)
  }

  /** The directories above `p` can be read. */
  ghost predicate ShortAbove(dirs: Dirs, p: Path) {
    forall q | q < p && q in dirs :: NamesWithin(dirs[q], 144)
  }

  lemma ShortAboveParent(dirs: Dirs, p: Path)
    requires p != [] && ShortAbove(dirs, p)
    ensures ShortAbove(dirs, Parent(p)) && (Parent(p) in dirs ==> NamesWithin(dirs[Parent(p)], 144))
  {
    forall q | q < Parent(p) && q in dirs ensures NamesWithin(dirs[q], 144) {
      assert q < p;
    }
    assert Parent(p) < p;
  }

  lemma ShortBase(path: Bytes)
    requires ShortParts(SplitClean(path))
    ensures |BaseName(path)| <= 144 && ShortParts(DirPath(path))
  {
    hide SplitClean;
  }

  /** Short components are exactly short names in every directory. */
  lemma ShortEverywhere(dirs: Dirs, inputs: seq<Input>)
    requires IsoTree.Holds(dirs, inputs)
    ensures ShortComponents(inputs) <==> forall p | p in dirs :: NamesWithin(dirs[p], 144)
  {
    hide *;
    if ShortComponents(inputs) {
      forall p | p in dirs ensures NamesWithin(dirs[p], 144) { ShortDir(dirs, inputs, p); }
    }
    if forall p | p in dirs :: NamesWithin(dirs[p], 144) { ShortInputs(dirs, inputs); }
  }

  lemma ShortDir(dirs: Dirs, inputs: seq<Input>, p: Path)
    requires IsoTree.Holds(dirs, inputs) && ShortComponents(inputs) && p in dirs
    ensures NamesWithin(dirs[p], 144)
  {
    hide SplitClean, BaseName, DirPath, FilesIn, ShortParts, Above;
    assert HasChildren(dirs, p) && FilesAt(dirs, p) == FilesIn(inputs, p);
    FilesInIs(inputs, p);
    forall f | f in dirs[p].files ensures |f.name| <= 144 { ShortBase(inputs[f.id].path); }
    forall name | name in dirs[p].subdirs ensures |name| <= 144 {
      assert p + [name] in dirs && p + [name] != [] && Above(inputs, p + [name]);
      AboveIsShort(inputs, p, name);
    }
  }

  lemma AboveIsShort(inputs: seq<Input>, p: Path, name: Name)
    requires ShortComponents(inputs) && Above(inputs, p + [name])
    ensures |name| <= 144
  {
    hide SplitClean, DirPath;
    var i :| 0 <= i < |inputs| && p + [name] <= DirPath(inputs[i].path);
    ShortBase(inputs[i].path);
    assert DirPath(inputs[i].path)[|p|] == (p + [name])[|p|] == name;
  }

  lemma ShortInputs(dirs: Dirs, inputs: seq<Input>)
    requires IsoTree.Holds(dirs, inputs) && forall p | p in dirs :: NamesWithin(dirs[p], 144)
    ensures ShortComponents(inputs)
  {
    hide SplitClean, FilesIn, Above, IsoTree.Holds;
    forall i, k | 0 <= i < |inputs| && 0 <= k < |SplitClean(inputs[i].path)|
      ensures |SplitClean(inputs[i].path)[k]| <= 144
    {
      InputIsShort(dirs, inputs, i, k);
    }
  }

  lemma InputIsShort(dirs: Dirs, inputs: seq<Input>, i: nat, k: nat)
    requires IsoTree.Holds(dirs, inputs) && forall p | p in dirs :: NamesWithin(dirs[p], 144)
    requires i < |inputs| && k < |SplitClean(inputs[i].path)|
    ensures |SplitClean(inputs[i].path)[k]| <= 144
  {
    hide SplitClean, FilesIn, Above, Tree;
    var c, home := SplitClean(inputs[i].path), DirPath(inputs[i].path);
    HomeIn(inputs, dirs, i);
    if k == |c| - 1 {
      FilesInIs(inputs, home);
      assert FilesAt(dirs, home) == FilesIn(inputs, home);
      assert EntryFor(inputs, i) in dirs[home].files;
    } else {
      AncestorsIn(dirs, home);
      assert c[..k + 1] <= home;
      ParentIn(dirs, c[..k + 1]);
      assert Parent(c[..k + 1]) in dirs && Last(c[..k + 1]) == c[k];
    }
  }

  lemma {:induction false} SpanRecordsFit(name: Name, extent: nat, off: nat, size: nat, limit: nat)
    requires off <= size && off % SECTOR == 0 && extent + Sectors(size) <= limit < U32
    ensures NumbersFit(SpanRecords(name, extent, SpansFrom(off, size)))
    decreases size - off
  {
    hide SpansFrom;
    SpansStep(off, size);
    WithinFile(off, size);
    SectorAligned(off, extent);
    if size - off > MAX_EXTENT {
      SpanRecordsFit(name, extent, off + MAX_EXTENT, size, limit);
      assert SpansFrom(off, size)[1..] == SpansFrom(off + MAX_EXTENT, size);
    } else {
      assert SpansFrom(off, size)[1..] == [];
    }
  }

  lemma WithinFile(off: nat, size: nat)
    requires off <= size && off % SECTOR == 0
    ensures off / SECTOR <= Sectors(size)
  {
  }

  lemma {:induction false} FileRecordsFit(fs: seq<FileEntry>, places: map<nat, nat>, limit: nat)
    requires limit < U32 && forall f | f in fs :: At(places, f.id) + Sectors(f.size) <= limit
    ensures NumbersFit(FileRecords(fs, places))
  {
    hide SpansFrom, SpanRecords, Sectors;
    if fs != [] {
      var n := |fs| - 1;
      FileRecordsFit(fs[..n], places, limit);
      assert fs[n] in fs;
      SpanRecordsFit(fs[n].name, At(places, fs[n].id), 0, fs[n].size, limit);
    }
  }

  lemma {:induction false} FileRecordNames(fs: seq<FileEntry>, places: map<nat, nat>, limit: nat)
    requires forall f | f in fs :: |f.name| <= limit
    ensures NamesUpTo(FileRecords(fs, places), limit)
  {
    hide SpansFrom, SpanRecords;
    if fs != [] {
      var n := |fs| - 1;
      FileRecordNames(fs[..n], places, limit);
      assert fs[n] in fs;
      SpansAreFiles(fs[n].name, At(places, fs[n].id), SpansFrom(0, fs[n].size));
    }
  }

  /** The records of a directory have its entries' names. */
  lemma RecordNames(p: Path, d: Dir, sizes: map<Path, nat>, extents: map<Path, nat>, places: map<nat, nat>, limit: nat)
    requires NamesWithin(d, limit)
    ensures NamesUpTo(RecordsOf(p, d, sizes, extents, places), limit)
  {
    hide FileRecords;
    FileRecordNames(d.files, places, limit);
  }

  lemma NumbersAppend(a: seq<Record>, b: seq<Record>)
    requires NumbersFit(a) && NumbersFit(b)
    ensures NumbersFit(a + b)
  {
  }

  lemma {:induction false} DirSectorsMonotone(order: seq<Path>, sizes: map<Path, nat>, i: nat, j: nat)
    requires i <= j <= |order|
    ensures DirSectors(order, sizes, i) <= DirSectors(order, sizes, j)
  {
    if i < j { DirSectorsMonotone(order, sizes, i, j - 1); }
  }

  lemma {:induction false} FileSectorsMonotone(fs: seq<FileEntry>, i: nat, j: nat)
    requires i <= j <= |fs|
    ensures FileSectors(fs, i) <= FileSectors(fs, j)
  {
    hide Sectors;
    if i < j { FileSectorsMonotone(fs, i, j - 1); }
  }

  /** Directories and files end before the end of the image, one after the other. */
  lemma DirEnds(ly: Layout, p: Path)
    requires Placed(ly) && p in ly.order
    ensures p in ly.sizes && At(ly.extents, p) + ly.sizes[p] / SECTOR <= ly.catalog < ly.total + 1
    ensures FirstDir(ly.tableLen) <= At(ly.extents, p)
  {
    hide Sized, FilesPlaced, Sectors, AllFiles;
    SizedAt(ly, p);
    var k :| 0 <= k < |ly.order| && ly.order[k] == p;
    DirSectorsMonotone(ly.order, ly.sizes, k + 1, |ly.order|);
  }

  lemma FileEnds(ly: Layout, f: FileEntry)
    requires Placed(ly) && f in ly.files
    ensures ly.catalog < At(ly.places, f.id) && At(ly.places, f.id) + Sectors(f.size) <= ly.total
  {
    hide Sized, DirsPlaced, Sectors, AllFiles;
    var k :| 0 <= k < |ly.files| && ly.files[k] == f;
    FileSectorsMonotone(ly.files, k + 1, |ly.files|);
  }

  lemma PlacedFacts(ly: Layout)
    requires Placed(ly)
    ensures Sized(ly.sorted, ly.order, ly.sizes) && ly.tableLen == TableLength(ly.order)
    ensures ly.tableL == 19 && ly.tableM == 19 + Sectors(ly.tableLen)
    ensures DirsPlaced(ly.order, ly.sizes, ly.extents, FirstDir(ly.tableLen), |ly.order|)
    ensures ly.catalog == AfterDirs(ly, |ly.order|)
    ensures FilesPlaced(ly.files, ly.places, ly.catalog + 1) && ly.total == AfterFiles(ly, |ly.files|)
  {
    hide Sized, TableLength, Sectors, DirsPlaced, FilesPlaced, DirSectors, FileSectors, FirstDir, AllFiles;
  }

  /** No two files share a sector ... */
  lemma FilesDisjoint(ly: Layout, i: nat, j: nat)
    requires Placed(ly) && i < j < |ly.files|
    ensures At(ly.places, ly.files[i].id) + Sectors(ly.files[i].size) <= At(ly.places, ly.files[j].id)
  {
    hide *;
    PlacedFacts(ly);
    FileIsNext(ly, i);
    FileIsNext(ly, j);
    AfterFilesMonotone(ly, i + 1, j);
  }

  lemma AfterFilesMonotone(ly: Layout, i: nat, j: nat)
    requires i <= j <= |ly.files|
    ensures AfterFiles(ly, i) <= AfterFiles(ly, j)
  {
    hide FileSectors;
    FileSectorsMonotone(ly.files, i, j);
  }

  /** ... nor two directories. */
  lemma DirsDisjoint(ly: Layout, i: nat, j: nat)
    requires Placed(ly) && i < j < |ly.order|
    ensures ly.order[i] in ly.sizes
    ensures At(ly.extents, ly.order[i]) + ly.sizes[ly.order[i]] / SECTOR <= At(ly.extents, ly.order[j])
  {
    hide *;
    PlacedFacts(ly);
    DirIsNext(ly, i);
    DirIsNext(ly, j);
    AfterDirsMonotone(ly, i + 1, j);
  }

  lemma AfterDirsMonotone(ly: Layout, i: nat, j: nat)
    requires i <= j <= |ly.order|
    ensures AfterDirs(ly, i) <= AfterDirs(ly, j)
  {
    hide DirSectors, FirstDir;
    DirSectorsMonotone(ly.order, ly.sizes, i, j);
  }

  /** The parts of a finished layout that reading needs. */
  ghost predicate LaidOut(inputs: seq<Input>, dirs: Dirs, ly: Layout) {
    IsoTree.Holds(dirs, inputs) && BreadthFirst(dirs, ly.sorted, ly.order) && Placed(ly)
  }

  lemma InOrder(inputs: seq<Input>, dirs: Dirs, ly: Layout, p: Path)
    requires LaidOut(inputs, dirs, ly)
    ensures p in ly.order <==> p in dirs
    ensures p in ly.sorted <==> p in dirs
    ensures p in dirs ==> SortedDir(dirs[p], ly.sorted[p]) && dirs[p].files == FilesIn(inputs, p)
  {
    hide Placed, Kids, FilesIn, Tree, Above;
    assert FilesAt(dirs, p) == FilesIn(inputs, p);
  }

  lemma InOrderClosed(inputs: seq<Input>, dirs: Dirs, ly: Layout)
    requires LaidOut(inputs, dirs, ly)
    ensures Closed(ly.order) && [] in ly.order
  {
    hide LaidOut, BreadthFirst;
    HeldBy(inputs, dirs, ly);
    InOrder(inputs, dirs, ly, []);
    forall p | p in ly.order && p != [] ensures Parent(p) in ly.order {
      InOrder(inputs, dirs, ly, p);
      assert HasParent(dirs, p);
      InOrder(inputs, dirs, ly, Parent(p));
    }
  }

  lemma HeldBy(inputs: seq<Input>, dirs: Dirs, ly: Layout)
    requires LaidOut(inputs, dirs, ly)
    ensures IsoTree.Holds(dirs, inputs) && Tree(dirs) && Placed(ly) && Sized(ly.sorted, ly.order, ly.sizes)
    ensures BreadthFirst(dirs, ly.sorted, ly.order)
  {
  }

  lemma SameElements(a: seq<FileEntry>, b: seq<FileEntry>)
    requires multiset(a) == multiset(b)
    ensures forall f :: f in a <==> f in b
  {
    forall f ensures f in a <==> f in b { assert f in multiset(a) <==> f in multiset(b); }
  }

  lemma FilesListed(inputs: seq<Input>, dirs: Dirs, ly: Layout, f: FileEntry)
    requires LaidOut(inputs, dirs, ly)
    ensures f in ly.files <==> f.id < |inputs| && f == EntryFor(inputs, f.id)
  {
    hide LaidOut, BreadthFirst, IsoTree.Holds, Placed, Sized, EntryFor, SplitClean, DirPath, SortedDir;
    HeldBy(inputs, dirs, ly);
    OrderFacts(dirs, ly.sorted, ly.order);
    HeldTree(dirs, inputs);
    AllFilesDistinct(dirs, ly.sorted, inputs, ly.order);
    PlacedFiles(ly);
    if f.id < |inputs| {
      HomeIn(inputs, dirs, f.id);
      InOrder(inputs, dirs, ly, DirPath(inputs[f.id].path));
    }
  }

  lemma HomeIn(inputs: seq<Input>, dirs: Dirs, i: nat)
    requires IsoTree.Holds(dirs, inputs) && i < |inputs|
    ensures DirPath(inputs[i].path) in dirs
  {
    hide Tree, FilesIn, DirPath;
    var d := DirPath(inputs[i].path);
    assert Above(inputs, d);
  }

  lemma PlacedFiles(ly: Layout)
    requires Placed(ly)
    ensures ly.files == AllFiles(ly.sorted, ly.order)
  {
  }

  /** A file of a directory is one of the layout's files. */
  lemma FileOfDir(inputs: seq<Input>, dirs: Dirs, ly: Layout, p: Path, f: FileEntry)
    requires LaidOut(inputs, dirs, ly) && p in dirs && p in ly.sorted && f in ly.sorted[p].files
    ensures f in ly.files && f in FilesIn(inputs, p)
  {
    hide LaidOut, SortedDir, FilesIn, EntryFor, DirPath;
    InOrder(inputs, dirs, ly, p);
    SortedFiles(dirs[p], ly.sorted[p]);
    SameElements(ly.sorted[p].files, dirs[p].files);
    FilesInIs(inputs, p);
    FilesListed(inputs, dirs, ly, f);
  }

  lemma SortedFiles(d: Dir, s: Dir)
    requires SortedDir(d, s)
    ensures multiset(s.files) == multiset(d.files) && forall n :: n in s.subdirs <==> n in d.subdirs
  {
  }

  ghost predicate SmallDirs(ly: Layout) {
    forall p | p in ly.order :: At(ly.sizes, p) < U32
  }

  lemma DirFits(inputs: seq<Input>, dirs: Dirs, ly: Layout, p: Path)
    requires LaidOut(inputs, dirs, ly) && SmallDirs(ly) && ly.total < U32 && p in dirs
    ensures p in ly.sorted && NumbersFit(DirRecords(ly, p))
    ensures forall limit | NamesWithin(dirs[p], limit) :: NamesUpTo(DirRecords(ly, p), limit)
  {
    hide LaidOut, BreadthFirst, Placed, Sized, SortedDir, FileRecords, SubdirRecords, DotRecords, NumbersFit, NamesUpTo,
      Sectors, FilesIn, Tree, IsoTree.Holds;
    InOrder(inputs, dirs, ly, p);
    HeldBy(inputs, dirs, ly);
    var d := ly.sorted[p];
    SortedFiles(dirs[p], d);
    SameElements(d.files, dirs[p].files);
    forall f | f in d.files ensures At(ly.places, f.id) + Sectors(f.size) <= ly.total {
      FileOfDir(inputs, dirs, ly, p, f);
      FileEnds(ly, f);
    }
    FileRecordsFit(d.files, ly.places, ly.total);
    SubdirsFit(inputs, dirs, ly, p);
    DotsFit(inputs, dirs, ly, p);
    NumbersAppend(DotRecords(p, ly.sizes, ly.extents), SubdirRecords(p, d.subdirs, ly.sizes, ly.extents));
    NumbersAppend(DotRecords(p, ly.sizes, ly.extents) + SubdirRecords(p, d.subdirs, ly.sizes, ly.extents),
                  FileRecords(d.files, ly.places));
    forall limit | NamesWithin(dirs[p], limit) ensures NamesUpTo(DirRecords(ly, p), limit) {
      RecordNames(p, d, ly.sizes, ly.extents, ly.places, limit);
    }
  }

  lemma PlaceFits(inputs: seq<Input>, dirs: Dirs, ly: Layout, p: Path)
    requires LaidOut(inputs, dirs, ly) && SmallDirs(ly) && ly.total < U32 && p in dirs
    ensures At(ly.extents, p) < U32 && At(ly.sizes, p) < U32
  {
    hide LaidOut, Placed;
    InOrder(inputs, dirs, ly, p);
    HeldBy(inputs, dirs, ly);
    DirEnds(ly, p);
  }

  lemma SubdirsFit(inputs: seq<Input>, dirs: Dirs, ly: Layout, p: Path)
    requires LaidOut(inputs, dirs, ly) && SmallDirs(ly) && ly.total < U32
    requires p in dirs && p in ly.sorted
    ensures NumbersFit(SubdirRecords(p, ly.sorted[p].subdirs, ly.sizes, ly.extents))
  {
    hide LaidOut, SortedDir, SmallDirs, IsoTree.Holds, Placed, BreadthFirst, Tree, Sized, At, FilesIn;
    InOrder(inputs, dirs, ly, p);
    HeldBy(inputs, dirs, ly);
    SortedFiles(dirs[p], ly.sorted[p]);
    forall name | name in ly.sorted[p].subdirs
      ensures At(ly.extents, p + [name]) < U32 && At(ly.sizes, p + [name]) < U32
    {
      ChildIn(dirs, p, name);
      PlaceFits(inputs, dirs, ly, p + [name]);
    }
  }

  lemma DotsFit(inputs: seq<Input>, dirs: Dirs, ly: Layout, p: Path)
    requires LaidOut(inputs, dirs, ly) && SmallDirs(ly) && ly.total < U32 && p in dirs
    ensures NumbersFit(DotRecords(p, ly.sizes, ly.extents))
  {
    hide LaidOut, SmallDirs, IsoTree.Holds, Placed, BreadthFirst, Tree, Sized, At;
    HeldBy(inputs, dirs, ly);
    PlaceFits(inputs, dirs, ly, p);
    if p != [] {
      ParentIn(dirs, p);
      PlaceFits(inputs, dirs, ly, Parent(p));
    }
  }

  lemma ParentIn(dirs: Dirs, p: Path)
    requires Tree(dirs) && p in dirs && p != []
    ensures Parent(p) in dirs && Last(p) in dirs[Parent(p)].subdirs
  {
    assert HasParent(dirs, p);
  }

  // ---------- directories ----------

  ghost predicate Written(img: Bytes, inputs: seq<Input>, dirs: Dirs, ly: Layout, boot: nat, stamp: Stamp) {
    && stamp.Valid() && LaidOut(inputs, dirs, ly) && Closed(ly.order) && boot < |inputs|
    && ImageOf(img, ly, inputs, boot, stamp)
    && SmallDirs(ly) && |img| < U32 * SECTOR
  }

  lemma WrittenFacts(img: Bytes, inputs: seq<Input>, dirs: Dirs, ly: Layout, boot: nat, stamp: Stamp)
    requires Written(img, inputs, dirs, ly, boot, stamp)
    ensures LaidOut(inputs, dirs, ly) && SmallDirs(ly) && ly.total < U32 && stamp.Valid()
    ensures Present(img, 16, Pvd(stamp.volumeID, ly, stamp.time, stamp.date)) && Present(img, 17, Brvd(ly))
    ensures Present(img, 18, TERMINATOR) && |img| == ly.total * SECTOR
    ensures forall p | p in ly.order :: DirPresent(img, ly, stamp.time, p)
    ensures forall f | f in ly.files :: FilePresent(img, ly, inputs, f)
  {
    hide LaidOut, Pvd, Brvd, Table, Present, DirPresent, FilePresent, Catalog, SmallDirs;
  }

  lemma RootFound(img: Bytes, ly: Layout, stamp: Stamp)
    requires stamp.Valid() && Present(img, 16, Pvd(stamp.volumeID, ly, stamp.time, stamp.date))
    requires Present(img, 17, Brvd(ly)) && Present(img, 18, TERMINATOR)
    requires At(ly.extents, []) < U32 && At(ly.sizes, []) < U32
    ensures ResolveDir(img, []) == Some(Where(At(ly.extents, []), At(ly.sizes, [])))
  {
    hide Pvd, Brvd, TERMINATOR, ReadVolume, At;
    VolumeFound(img, ly, stamp);
  }

  /** Following directory records from the root reaches exactly the directories of the inputs. */
  lemma {:induction false} DirsResolve(img: Bytes, inputs: seq<Input>, dirs: Dirs, ly: Layout, boot: nat,
                                       stamp: Stamp, p: Path)
    requires Written(img, inputs, dirs, ly, boot, stamp) && ShortAbove(dirs, p)
    ensures ResolveDir(img, p) == if p in dirs then Some(Where(At(ly.extents, p), At(ly.sizes, p))) else None
    decreases |p|
  {
    hide Written, LaidOut, Present, Pvd, DirPresent, FilePresent, NamesWithin, SmallDirs, Tree, IsoTree.Holds, Placed,
      Sized, BreadthFirst, ListDir, FindDir, EntriesOf, DirRecords, FitsFields, At, SortedDir, FilesIn;
    WrittenFacts(img, inputs, dirs, ly, boot, stamp);
    HeldBy(inputs, dirs, ly);
    RootIn(dirs);
    if p == [] {
      PlaceFits(inputs, dirs, ly, []);
      RootFound(img, ly, stamp);
    } else {
      var q := Parent(p);
      ShortAboveParent(dirs, p);
      DirsResolve(img, inputs, dirs, ly, boot, stamp, q);
      if q in dirs {
        ListsEntries(img, inputs, dirs, ly, boot, stamp, q);
        FindDirFinds(ly, q, Last(p));
        InOrder(inputs, dirs, ly, q);
        SortedFiles(dirs[q], ly.sorted[q]);
        assert q + [Last(p)] == p;
        ChildIn(dirs, q, Last(p));
      } else if p in dirs {
        ParentIn(dirs, p);
      }
    }
  }

  lemma ChildIn(dirs: Dirs, q: Path, name: Name)
    requires Tree(dirs) && q in dirs
    ensures name in dirs[q].subdirs <==> q + [name] in dirs
  {
    assert HasChildren(dirs, q);
    if q + [name] in dirs { assert HasParent(dirs, q + [name]); }
  }

  lemma ListsEntries(img: Bytes, inputs: seq<Input>, dirs: Dirs, ly: Layout, boot: nat, stamp: Stamp, p: Path)
    requires Written(img, inputs, dirs, ly, boot, stamp) && p in dirs && NamesWithin(dirs[p], 144)
    ensures p in ly.sorted && ListDir(img, At(ly.extents, p), At(ly.sizes, p)) == Some(EntriesOf(DirRecords(ly, p)))
  {
    hide Written, LaidOut, Present, Pvd, DirPresent, FilePresent, NamesWithin, SmallDirs, Tree, IsoTree.Holds, Placed,
      Sized, BreadthFirst, ListDir, EntriesOf, DirRecords, NamesUpTo, NumbersFit, SortedDir, FilesIn;
    WrittenFacts(img, inputs, dirs, ly, boot, stamp);
    HeldBy(inputs, dirs, ly);
    InOrder(inputs, dirs, ly, p);
    DirFits(inputs, dirs, ly, p);
    DirReadsBack(img, ly, stamp.time, p);
  }

  // ---------- files ----------

  /** The contents of the inputs that belong at `p`, in input order. */
  ghost function ContentsAt(inputs: seq<Input>, p: Path): seq<Option<Bytes>> {
    if inputs == [] then [] else
    var n := |inputs| - 1;
    ContentsAt(inputs[..n], p) + if PathOf(inputs[n].path) == p then [inputs[n].source] else []
  }

  ghost function One(inputs: seq<Input>, f: FileEntry, name: Name): multiset<Option<Bytes>> {
    if f.name == name && f.id < |inputs| then multiset{inputs[f.id].source} else multiset{}
  }

  /** The sources of the listed entries called `name`. */
  ghost function Wanted(inputs: seq<Input>, fs: seq<FileEntry>, name: Name): multiset<Option<Bytes>> {
    if fs == [] then multiset{} else Wanted(inputs, fs[..|fs| - 1], name) + One(inputs, fs[|fs| - 1], name)
  }

  lemma {:induction false} ContentsAreWanted(img: Bytes, inputs: seq<Input>, ly: Layout, fs: seq<FileEntry>, name: Name)
    requires forall f | f in fs :: FilePresent(img, ly, inputs, f)
    ensures multiset(ContentsOf(img, Seen(fs, ly.places), name)) == Wanted(inputs, fs, name)
  {
    hide SpansFrom, PiecesOf, Present, ReadPieces;
    if fs != [] {
      var n := |fs| - 1;
      var f := fs[n];
      assert forall g | g in fs[..n] :: g in fs;
      ContentsAreWanted(img, inputs, ly, fs[..n], name);
      assert Seen(fs, ly.places)[..n] == Seen(fs[..n], ly.places);
      assert f in fs && FilePresent(img, ly, inputs, f);
      var data := inputs[f.id].source.value;
      PiecesReadBack(img, At(ly.places, f.id), data, 0);
      assert data[0..] == data;
    }
  }

  lemma {:induction false} WantedRemoves(inputs: seq<Input>, fs: seq<FileEntry>, k: nat, name: Name)
    requires k < |fs|
    ensures Wanted(inputs, fs, name) == Wanted(inputs, fs[..k] + fs[k + 1..], name) + One(inputs, fs[k], name)
  {
    hide One, Wanted;
    var n := |fs| - 1;
    var rest := fs[..k] + fs[k + 1..];
    WantedLast(inputs, fs, name);
    if k == n {
      assert rest == fs[..n];
    } else {
      WantedRemoves(inputs, fs[..n], k, name);
      WantedLast(inputs, rest, name);
      assert rest[..|rest| - 1] == fs[..n][..k] + fs[..n][k + 1..];
      assert fs[..n][k] == fs[k] && rest[|rest| - 1] == fs[n];
    }
  }

  lemma WantedLast(inputs: seq<Input>, fs: seq<FileEntry>, name: Name)
    requires fs != []
    ensures Wanted(inputs, fs, name) == Wanted(inputs, fs[..|fs| - 1], name) + One(inputs, fs[|fs| - 1], name)
  {
  }

  lemma Without(fs: seq<FileEntry>, k: nat)
    requires k < |fs|
    ensures multiset(fs[..k] + fs[k + 1..]) == multiset(fs) - multiset{fs[k]} && |fs[..k] + fs[k + 1..]| == |fs| - 1
  {
    assert fs == fs[..k] + [fs[k]] + fs[k + 1..];
  }

  /** The order of the entries does not matter. */
  lemma {:induction false} WantedPermutes(inputs: seq<Input>, a: seq<FileEntry>, b: seq<FileEntry>, name: Name)
    requires multiset(a) == multiset(b)
    ensures Wanted(inputs, a, name) == Wanted(inputs, b, name)
    decreases |a|
  {
    hide Wanted, One;
    if a == [] {
      assert |multiset(b)| == 0 && b == [];
    } else {
      assert a[0] in multiset(b);
      var k :| 0 <= k < |b| && b[k] == a[0];
      Without(a, 0);
      Without(b, k);
      var a', b' := a[..0] + a[0 + 1..], b[..k] + b[k + 1..];
      assert multiset(a') == multiset(b');
      WantedPermutes(inputs, a', b', name);
      WantedRemoves(inputs, a, 0, name);
      WantedRemoves(inputs, b, k, name);
    }
  }

  lemma Belongs(path: Bytes, p: Path)
    requires p != []
    ensures PathOf(path) == p <==> DirPath(path) == Parent(p) && BaseName(path) == Last(p)
  {
    hide SplitClean, DirPath, BaseName;
    assert p == Parent(p) + [Last(p)];
    PathOfIs(path);
    var q := PathOf(path);
    assert q[|q| - 1] == BaseName(path) && Parent(q) == DirPath(path);
  }

  lemma WantedSnoc(inputs: seq<Input>, fs: seq<FileEntry>, f: FileEntry, name: Name)
    ensures Wanted(inputs, fs + [f], name) == Wanted(inputs, fs, name) + One(inputs, f, name)
  {
    assert (fs + [f])[..|fs|] == fs;
  }

  lemma {:induction false} WantedFromInputs(inputs: seq<Input>, n: nat, p: Path)
    requires n <= |inputs| && p != []
    ensures Wanted(inputs, FilesIn(inputs[..n], Parent(p)), Last(p)) == multiset(ContentsAt(inputs[..n], p))
  {
    hide SplitClean, DirPath, BaseName, FilesIn, PathOf, Wanted, ContentsAt;
    if n == 0 {
      NoInputs(p);
      WantedNothing(inputs, Last(p));
    } else {
      WantedFromInputs(inputs, n - 1, p);
      ContentsMore(inputs, n, p);
      var x := inputs[n - 1];
      Belongs(x.path, p);
      FilesMore(inputs, n - 1, Parent(p));
      var fs := FilesIn(inputs[..n - 1], Parent(p));
      WantedSnoc(inputs, fs, FileEntry(BaseName(x.path), x.size, n - 1), Last(p));
      assert fs + [] == fs;
    }
  }

  lemma ContentsMore(inputs: seq<Input>, n: nat, p: Path)
    requires 0 < n <= |inputs|
    ensures ContentsAt(inputs[..n], p)
         == ContentsAt(inputs[..n - 1], p) + if PathOf(inputs[n - 1].path) == p then [inputs[n - 1].source] else []
  {
    hide PathOf;
    assert inputs[..n][..n - 1] == inputs[..n - 1];
  }

  lemma NoInputs(p: Path)
    requires p != []
    ensures FilesIn([], Parent(p)) == [] && ContentsAt([], p) == []
  {
  }

  /** Reading any path of the image yields exactly the contents of the inputs that belong there. */
  lemma FilesReadBack(img: Bytes, inputs: seq<Input>, dirs: Dirs, ly: Layout, boot: nat, stamp: Stamp, p: Path)
    requires Written(img, inputs, dirs, ly, boot, stamp) && p != [] && ShortAbove(dirs, p)
    ensures multiset(ReadFiles(img, p)) == multiset(ContentsAt(inputs, p))
  {
    hide Written, LaidOut, Present, DirPresent, FilePresent, NamesWithin, SmallDirs, Tree, IsoTree.Holds, Placed, Sized,
      BreadthFirst, ListDir, EntriesOf, DirRecords, FitsFields, At, FilesIn, ResolveDir, ContentsOf, JoinFiles, Seen,
          Wanted, ContentsAt;
    var q, name := Parent(p), Last(p);
    ShortAboveParent(dirs, p);
    WrittenFacts(img, inputs, dirs, ly, boot, stamp);
    HeldBy(inputs, dirs, ly);
    DirsResolve(img, inputs, dirs, ly, boot, stamp, q);
    WantedFromInputs(inputs, |inputs|, p);
    assert inputs[..|inputs|] == inputs;
    if q in dirs {
      ListsEntries(img, inputs, dirs, ly, boot, stamp, q);
      JoinFinds(ly, q);
      InOrder(inputs, dirs, ly, q);
      var fs := ly.sorted[q].files;
      forall f | f in fs ensures FilePresent(img, ly, inputs, f) { FileOfDir(inputs, dirs, ly, q, f); }
      ContentsAreWanted(img, inputs, ly, fs, name);
      SortedFiles(dirs[q], ly.sorted[q]);
      WantedPermutes(inputs, fs, FilesIn(inputs, q), name);
    } else {
      NoFilesThere(dirs, inputs, q);
      WantedNothing(inputs, name);
    }
  }

  lemma NoFilesThere(dirs: Dirs, inputs: seq<Input>, q: Path)
    requires IsoTree.Holds(dirs, inputs) && q !in dirs
    ensures FilesIn(inputs, q) == []
  {
    hide FilesIn, Tree, Above;
    assert FilesAt(dirs, q) == FilesIn(inputs, q);
  }

  lemma WantedNothing(inputs: seq<Input>, name: Name)
    ensures Wanted(inputs, [], name) == multiset{}
  {
  }

  // ---------- the boot image ----------

  /** The boot record leads to the bytes of the boot input, and tells how much of them to load. */
  ghost predicate BootsFrom(img: Bytes, inputs: seq<Input>, boot: nat) {
    && boot < |inputs| && inputs[boot].source.Some? && ReadBoot(img).Some?
    && Present(img, ReadBoot(img).value.sector, inputs[boot].source.value)
    && ReadBoot(img).value.count == LoadCount(|inputs[boot].source.value|)
  }

  /** Firmware following the boot record and the catalog finds the boot image's bytes. */
  lemma BootImageFound(img: Bytes, inputs: seq<Input>, dirs: Dirs, ly: Layout, boot: nat, stamp: Stamp)
    requires Written(img, inputs, dirs, ly, boot, stamp)
    ensures BootsFrom(img, inputs, boot)
  {
    hide *;
    WrittenFacts(img, inputs, dirs, ly, boot, stamp);
    HeldBy(inputs, dirs, ly);
    CatalogWritten(img, inputs, dirs, ly, boot, stamp);
    var f := FileEntry(BaseName(inputs[boot].path), inputs[boot].size, boot);
    EntryForIs(inputs, boot);
    FilesListed(inputs, dirs, ly, f);
    FileEnds(ly, f);
    BootFound(img, ly, inputs[boot].size, At(ly.places, boot));
    FileThere(img, ly, inputs, f);
    NowBoots(img, inputs, boot, At(ly.places, boot));
  }

  lemma NowBoots(img: Bytes, inputs: seq<Input>, boot: nat, sector: nat)
    requires boot < |inputs| && inputs[boot].source.Some? && |inputs[boot].source.value| == inputs[boot].size
    requires ReadBoot(img) == Some(Boot(sector, LoadCount(inputs[boot].size)))
    requires Present(img, sector, inputs[boot].source.value)
    ensures BootsFrom(img, inputs, boot)
  {
    hide ReadBoot, Present, LoadCount;
  }

  lemma EntryForIs(inputs: seq<Input>, i: nat)
    requires i < |inputs|
    ensures EntryFor(inputs, i) == FileEntry(BaseName(inputs[i].path), inputs[i].size, i)
  {
  }

  lemma FileThere(img: Bytes, ly: Layout, inputs: seq<Input>, f: FileEntry)
    requires FilePresent(img, ly, inputs, f)
    ensures f.id < |inputs| && inputs[f.id].source.Some? && |inputs[f.id].source.value| == f.size
    ensures Present(img, At(ly.places, f.id), inputs[f.id].source.value)
  {
  }

  lemma CatalogWritten(img: Bytes, inputs: seq<Input>, dirs: Dirs, ly: Layout, boot: nat, stamp: Stamp)
    requires Written(img, inputs, dirs, ly, boot, stamp)
    ensures boot < |inputs| && Present(img, ly.catalog, Catalog(ly, inputs[boot].size, At(ly.places, boot)))
  {
    hide LaidOut, Catalog, Present, HeadPresent, DirsPresent, FilesPresent;
  }

  // ---------- the whole image ----------

  /** Everything that reading the finished image yields. */
  ghost predicate ReadsAsInputs(img: Bytes, inputs: seq<Input>, boot: nat) {
    && (forall p: Path | p != [] :: multiset(ReadFiles(img, p)) == multiset(ContentsAt(inputs, p)))
    && (forall p :: ResolveDir(img, p).Some? <==> p == [] || Above(inputs, p))
    && BootsFrom(img, inputs, boot)
    && ReadVolume(img).Some? && ReadVolume(img).value.sectors * SECTOR == |img|
    && (forall p | ResolveDir(img, p).Some? :: WellListed(img, p))
  }

  /** The listing of a directory: "." first, which is the directory itself, then "..", the one above
      it; the root's "." announces Rock Ridge.  All others have names and proper identifiers.  Modes
      are 0o040555 for directories and 0o100444 for files. */
  ghost predicate WellListed(img: Bytes, p: Path) {
    var here, above := ResolveDir(img, p), ResolveDir(img, if p == [] then [] else Parent(p));
    && here.Some? && above.Some?
    && var es := ListDir(img, here.value.sector, here.value.size);
    && es.Some? && |es.value| >= 2
    && IsDot(es.value[0], 0, here.value) && IsDot(es.value[1], 1, above.value)
    && (p == [] ==> es.value[0].announced)
    && (forall e | e in es.value[2..] :: e.name.Some? && e.listed == Some(9) && IsIdentifier(e.id, e.isDir))
    && (forall e | e in es.value ::
          if e.isDir then e.posix.mode == 0x416D && e.posix.links == 2
          else e.posix.mode == 0x8124 && e.posix.links == 1)
  }

  ghost predicate IsDot(e: Entry, id: byte, w: Where) {
    IsDirectory(e) && e.id == [id] && e.name == None && e.listed == Some(1) && e.extent == w.sector && e.size == w.size
  }

  lemma RecordsNamed(p: Path, d: Dir, s: map<Path, nat>, e: map<Path, nat>, m: map<nat, nat>)
    ensures |RecordsOf(p, d, s, e, m)| >= 2 && RecordsOf(p, d, s, e, m)[..2] == DotRecords(p, s, e)
    ensures forall r | r in RecordsOf(p, d, s, e, m)[2..] :: r.kind.Named?
  {
    hide FileRecords;
    FilesNamed(d.files, m);
    assert RecordsOf(p, d, s, e, m)[2..] == SubdirRecords(p, d.subdirs, s, e) + FileRecords(d.files, m);
  }

  lemma {:induction false} FilesNamed(fs: seq<FileEntry>, m: map<nat, nat>)
    ensures forall r | r in FileRecords(fs, m) :: r.kind.Named?
  {
    hide SpansFrom, SpanRecords;
    if fs != [] {
      FilesNamed(fs[..|fs| - 1], m);
      SpansAreFiles(fs[|fs| - 1].name, At(m, fs[|fs| - 1].id), SpansFrom(0, fs[|fs| - 1].size));
    }
  }

  /** What `WellListed` asks of the entries alone. */
  lemma EntriesWell(p: Path, d: Dir, s: map<Path, nat>, e: map<Path, nat>, m: map<nat, nat>)
    ensures var es, up := EntriesOf(RecordsOf(p, d, s, e, m)), if p == [] then [] else Parent(p);
            && |es| >= 2 && IsDot(es[0], 0, Where(At(e, p), At(s, p))) && IsDot(es[1], 1, Where(At(e, up), At(s, up)))
            && (p == [] ==> es[0].announced)
            && (forall x | x in es[2..] :: x.name.Some? && x.listed == Some(9) && IsIdentifier(x.id, x.isDir))
            && (forall x | x in es ::
                  if x.isDir then x.posix.mode == 0x416D && x.posix.links == 2
                  else x.posix.mode == 0x8124 && x.posix.links == 1)
  {
    hide RecordsOf, IsIdentifier, IsoName;
    var recs := RecordsOf(p, d, s, e, m);
    RecordsNamed(p, d, s, e, m);
    assert recs[0] == recs[..2][0] && recs[1] == recs[..2][1];
    forall x | x in EntriesOf(recs)[2..] ensures x.name.Some? && x.listed == Some(9) && IsIdentifier(x.id, x.isDir) {
      var i :| 2 <= i < |recs| && x == EntryOf(recs[i]);
      assert recs[i] == recs[2..][i - 2];
      NameIsIdentifier(recs[i].kind.name, recs[i].isDir);
    }
  }

  lemma DirWellListed(img: Bytes, inputs: seq<Input>, dirs: Dirs, ly: Layout, boot: nat, stamp: Stamp, p: Path)
    requires Written(img, inputs, dirs, ly, boot, stamp) && p in dirs && forall q | q in dirs ::
             NamesWithin(dirs[q], 144)
    ensures WellListed(img, p)
  {
    hide *;
    var up := if p == [] then [] else Parent(p);
    WrittenFacts(img, inputs, dirs, ly, boot, stamp);
    HeldBy(inputs, dirs, ly);
    if p != [] { ParentIn(dirs, p); }
    AllShortAbove(dirs, p);
    AllShortAbove(dirs, up);
    DirsResolve(img, inputs, dirs, ly, boot, stamp, p);
    DirsResolve(img, inputs, dirs, ly, boot, stamp, up);
    ListsEntries(img, inputs, dirs, ly, boot, stamp, p);
    DirRecordsAre(ly, p);
    EntriesWell(p, ly.sorted[p], ly.sizes, ly.extents, ly.places);
    NowWellListed(img, p, Where(At(ly.extents, p), At(ly.sizes, p)), Where(At(ly.extents, up), At(ly.sizes, up)));
  }

  lemma DirRecordsAre(ly: Layout, p: Path)
    requires p in ly.sorted
    ensures DirRecords(ly, p) == RecordsOf(p, ly.sorted[p], ly.sizes, ly.extents, ly.places)
  {
  }

  lemma NowWellListed(img: Bytes, p: Path, here: Where, above: Where)
    requires ResolveDir(img, p) == Some(here) && ResolveDir(img, if p == [] then [] else Parent(p)) == Some(above)
    requires var es := ListDir(img, here.sector, here.size);
             && es.Some? && |es.value| >= 2 && IsDot(es.value[0], 0, here) && IsDot(es.value[1], 1, above)
             && (p == [] ==> es.value[0].announced)
             && (forall e | e in es.value[2..] :: e.name.Some? && e.listed == Some(9) && IsIdentifier(e.id, e.isDir))
             && (forall e | e in es.value ::
                   if e.isDir then e.posix.mode == 0x416D && e.posix.links == 2
                   else e.posix.mode == 0x8124 && e.posix.links == 1)
    ensures WellListed(img, p)
  {
    hide ResolveDir, ListDir, IsDot, IsIdentifier;
  }

  lemma VolumeSize(img: Bytes, ly: Layout, stamp: Stamp)
    requires stamp.Valid() && Present(img, 16, Pvd(stamp.volumeID, ly, stamp.time, stamp.date))
    requires Present(img, 17, Brvd(ly)) && Present(img, 18, TERMINATOR) && |img| == ly.total * SECTOR && ly.total < U32
    ensures ReadVolume(img).Some? && ReadVolume(img).value.sectors * SECTOR == |img|
    ensures IsLabel(ReadVolume(img).value.id, stamp.volumeID)
  {
    hide Pvd, Brvd, TERMINATOR, ReadVolume, At, IsLabel;
    VolumeFound(img, ly, stamp);
  }

  lemma ImageReadsBack(img: Bytes, inputs: seq<Input>, dirs: Dirs, ly: Layout, boot: nat, stamp: Stamp)
    requires Written(img, inputs, dirs, ly, boot, stamp) && ShortComponents(inputs)
    ensures ReadsAsInputs(img, inputs, boot)
  {
    hide *;
    WrittenFacts(img, inputs, dirs, ly, boot, stamp);
    HeldBy(inputs, dirs, ly);
    ShortEverywhere(dirs, inputs);
    forall p: Path ensures ShortAbove(dirs, p) { AllShortAbove(dirs, p); }
    BootImageFound(img, inputs, dirs, ly, boot, stamp);
    VolumeSize(img, ly, stamp);
    forall p: Path | p != [] ensures multiset(ReadFiles(img, p)) == multiset(ContentsAt(inputs, p)) {
      FilesReadBack(img, inputs, dirs, ly, boot, stamp, p);
    }
    forall p ensures ResolveDir(img, p).Some? <==> p == [] || Above(inputs, p) {
      DirsResolve(img, inputs, dirs, ly, boot, stamp, p);
      DirsAre(img, inputs, dirs, ly, boot, stamp, p);
    }
    forall p | ResolveDir(img, p).Some? ensures WellListed(img, p) {
      DirsResolve(img, inputs, dirs, ly, boot, stamp, p);
      DirWellListed(img, inputs, dirs, ly, boot, stamp, p);
    }
    Together(img, inputs, boot);
  }

  lemma AllShortAbove(dirs: Dirs, p: Path)
    requires forall q | q in dirs :: NamesWithin(dirs[q], 144)
    ensures ShortAbove(dirs, p)
  {
  }

  lemma DirsAre(img: Bytes, inputs: seq<Input>, dirs: Dirs, ly: Layout, boot: nat, stamp: Stamp, p: Path)
    requires Written(img, inputs, dirs, ly, boot, stamp)
    ensures p in dirs <==> p == [] || Above(inputs, p)
  {
    hide Above, Tree, FilesIn, BreadthFirst, Placed, ImageOf, SmallDirs;
  }

  lemma Together(img: Bytes, inputs: seq<Input>, boot: nat)
    requires forall p: Path | p != [] :: multiset(ReadFiles(img, p)) == multiset(ContentsAt(inputs, p))
    requires forall p :: ResolveDir(img, p).Some? <==> p == [] || Above(inputs, p)
    requires BootsFrom(img, inputs, boot) && ReadVolume(img).Some? && ReadVolume(img).value.sectors * SECTOR == |img|
    requires forall p | ResolveDir(img, p).Some? :: WellListed(img, p)
    ensures ReadsAsInputs(img, inputs, boot)
  {
    hide ReadFiles, ContentsAt, ResolveDir, Above, BootsFrom, ReadVolume, WellListed;
  }

  // ---------- path tables ----------

  /** The little- or big-endian path table, found through the primary volume descriptor. */
  function ReadPathTable(img: Bytes, little: bool): Option<seq<TableEntry>> {
    match ReadVolume(img)
    case None => None
    case Some(v) =>
      var table := Extent(img, if little then v.tableL else v.tableM, v.tableLen);
      if table.None? then None else ReadTable(little, table.value)
  }

  /** Each path table lists every directory with its identifier, extent and parent's number. */
  lemma PathTablesReadBack(img: Bytes, inputs: seq<Input>, dirs: Dirs, ly: Layout, boot: nat, stamp: Stamp,
                           little: bool)
    requires Written(img, inputs, dirs, ly, boot, stamp) && |ly.order| < 0x1_0000
    ensures Closed(ly.order) && ReadPathTable(img, little) == Some(EntriesFrom(ly, 0))
    ensures forall k | 0 <= k < |ly.order| :: EntryLeads(ly, ReadPathTable(img, little).value, k)
  {
    hide *;
    WrittenFacts(img, inputs, dirs, ly, boot, stamp);
    HeldBy(inputs, dirs, ly);
    InOrderClosed(inputs, dirs, ly);
    RootFirst(dirs, ly.sorted, ly.order);
    forall k | 0 <= k < |ly.order| ensures EntryLeads(ly, EntriesFrom(ly, 0), k) { EntryIs(ly, k); }
    forall p | p in ly.order ensures At(ly.extents, p) < U32 {
      InOrder(inputs, dirs, ly, p);
      PlaceFits(inputs, dirs, ly, p);
    }
    TableReadsBack(little, ly);
    TableWritten(img, inputs, dirs, ly, boot, stamp, little);
    TableFits(ly);
    TableFound(img, ly, stamp, little);
  }

  /** Entry `k` has the identifier and the extent of directory `k`, and the number of the entry of the
      directory above; the root has number one and is its own parent. */
  ghost predicate EntryLeads(ly: Layout, es: seq<TableEntry>, k: nat)
    requires k < |ly.order|
  {
    var p := ly.order[k];
    && |es| == |ly.order| && es[k].extent == At(ly.extents, p) && 0 < es[k].parent <= |es|
    && ly.order[es[k].parent - 1] == (if p == [] then p else Parent(p))
    && (if p == [] then es[k].id == [0] else IsIdentifier(es[k].id, true))
  }

  lemma EntryIs(ly: Layout, k: nat)
    requires Closed(ly.order) && k < |ly.order| && ly.order[0] == []
    ensures EntryLeads(ly, EntriesFrom(ly, 0), k)
  {
    hide IsIdentifier, IsoName, Closed, At;
    var p := ly.order[k];
    if p != [] {
      assert Parent(p) in ly.order by { ClosedAt(ly.order, p); }
      NameIsIdentifier(Last(p), true);
    }
  }

  lemma ClosedAt(order: seq<Path>, p: Path)
    requires Closed(order) && p in order && p != []
    ensures Parent(p) in order
  {
  }

  lemma TableFits(ly: Layout)
    requires Placed(ly) && ly.total < U32 && |ly.order| < 0x1_0000
    ensures ly.tableLen < U32 && ly.tableL < U32 && ly.tableM < U32
  {
    hide DirsPlaced, FilesPlaced, AllFiles, Sized, DirSectors, FileSectors, Sectors;
    TableBound(ly.order);
    assert ly.order[..|ly.order|] == ly.order;
  }

  lemma {:induction false} TableBound(order: seq<Path>)
    ensures TableLength(order) <= 39 * |order|
  {
    hide TableId;
    if order != [] { TableBound(order[..|order| - 1]); }
  }

  lemma TableFound(img: Bytes, ly: Layout, stamp: Stamp, little: bool)
    requires stamp.Valid() && Present(img, 16, Pvd(stamp.volumeID, ly, stamp.time, stamp.date))
    requires Present(img, 17, Brvd(ly)) && Present(img, 18, TERMINATOR)
    requires ly.tableLen < U32 && ly.tableL < U32 && ly.tableM < U32
    ensures var table := Extent(img, if little then ly.tableL else ly.tableM, ly.tableLen);
            ReadPathTable(img, little) == if table.None? then None else ReadTable(little, table.value)
  {
    hide Pvd, Brvd, TERMINATOR, ReadVolume, Extent, ReadTable;
    VolumeFound(img, ly, stamp);
  }

  /** Their order is by level, then by parent number, then by name. */
  lemma PathTableOrder(dirs: Dirs, sorted: Dirs, order: seq<Path>, a: nat, b: nat)
    requires BreadthFirst(dirs, sorted, order) && Closed(order) && a < b < |order|
    ensures |order[a]| <= |order[b]|
    ensures ParentNumber(order, order[a]) <= ParentNumber(order, order[b])
    ensures a > 0 && ParentNumber(order, order[a]) == ParentNumber(order, order[b]) ==>
              order[a] != [] && order[b] != [] && Less(Last(order[a]), Last(order[b]))
  {
    hide BreadthFirst;
    LevelsInOrder(dirs, sorted, order, a, b);
    RootFirst(dirs, sorted, order);
    if a > 0 { ParentPositions(dirs, sorted, order, a, b); }
  }

  lemma TableWritten(img: Bytes, inputs: seq<Input>, dirs: Dirs, ly: Layout, boot: nat, stamp: Stamp, little: bool)
    requires Written(img, inputs, dirs, ly, boot, stamp)
    ensures Closed(ly.order)
    ensures Extent(img, if little then ly.tableL else ly.tableM, ly.tableLen) == Some(Table(little, ly, |ly.order|))
  {
    hide Table, Pvd, Brvd, BreadthFirst, IsoTree.Holds, Catalog, Extent, FilesPresent, DirsPresent, SmallDirs;
    assert ly.order[..|ly.order|] == ly.order;
  }
}
