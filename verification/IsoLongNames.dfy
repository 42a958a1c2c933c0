/**
 What a reader of an ISO image makes of names that are too long for a directory record: nothing in
 internal/purefs/iso9660.go refuses them, and they are lost.
 */
module IsoLongNames {
  import opened Basics
  import opened IsoRecord
  import opened IsoDirectory
  import opened IsoTree
  import opened IsoLayout
  import opened IsoImage
  import opened IsoReadBack

  // ---------- one directory ----------

  /** No entry of the list has this name. */
  ghost predicate Unseen(es: seq<Entry>, name: Name) {
    forall e | e in es :: e.name != Some(name)
  }

  lemma {:induction false} ReadEntries(recs: seq<Bytes>)
    ensures ReadAll(recs).Some? ==>
              && (forall b | b in recs :: ReadRecord(b).Some?)
              && forall e | e in ReadAll(recs).value :: exists b :: b in recs && ReadRecord(b) == Some(e)
  {
    hide ReadRecord;
    if recs != [] {
      var front, last := recs[..|recs| - 1], recs[|recs| - 1];
      ReadEntries(front);
      assert recs == front + [last];
    }
  }

  lemma {:induction false} ScannedLengths(data: Bytes, off: nat)
    ensures Scan(data, off).Some? ==> forall b | b in Scan(data, off).value :: |b| < 256
    decreases |data| - off
  {
    if off < |data| {
      if data[off] == 0 {
        ScannedLengths(data, (off / SECTOR + 1) * SECTOR);
      } else if off + data[off] as int <= |data| {
        ScannedLengths(data, off + data[off] as int);
      }
    }
  }

  /** A name of more than 216 bytes is in no listing, whatever the bytes. */
  lemma HugeNameUnseen(img: Bytes, w: Where, name: Name)
    requires |name| > 216
    ensures var es := ListDir(img, w.sector, w.size); es.Some? ==> Unseen(es.value, name)
  {
    hide ReadRecord, ReadAll, Scan, Extent;
    var data := Extent(img, w.sector, w.size);
    if data.Some? && Scan(data.value, 0).Some? {
      var recs := Scan(data.value, 0).value;
      ReadEntries(recs);
      ScannedLengths(data.value, 0);
      forall b | b in recs
        ensures ReadRecord(b).Some? && ReadRecord(b).value.name.Some? ==> |ReadRecord(b).value.name.value| <= 216
      {
        NamesAreBounded(b);
      }
    }
  }

  /** Each record is taken whole, taken for the end of its sector, or cut to something unreadable. */
  lemma RecordsWrap(recs: seq<Record>, time: Bytes)
    requires |time| == 7 && NamesUpTo(recs, 216)
    ensures forall b | b in EncodeAll(recs, time) :: Wraps(b)
  {
    hide Encode, ReadRecord, RecordLength;
    forall i | 0 <= i < |recs| ensures Wraps(EncodeAll(recs, time)[i]) {
      var r := recs[i];
      assert r in recs;
      SelfDescribingIff(r, time);
      if r.kind.Named? && |r.kind.name| > 144 { LongRecord(r, time); }
    }
  }

  /** A directory in which no name exceeds 216 bytes: a listing holds only names of at most 144. */
  lemma LongNameUnseen(img: Bytes, ly: Layout, time: Bytes, p: Path, name: Name)
    requires |time| == 7 && p in ly.order && Sized(ly.sorted, ly.order, ly.sizes) && DirPresent(img, ly, time, p)
    requires NumbersFit(DirRecords(ly, p)) && NamesUpTo(DirRecords(ly, p), 216) && |name| > 144
    ensures p in ly.sizes
    ensures var es := ListDir(img, At(ly.extents, p), ly.sizes[p]); es.Some? ==> Unseen(es.value, name)
  {
    hide Pack, EncodeAll, RecordsOf, DirRecords, Scan, ReadAll, ReadRecord, Sized, Wraps, NumbersFit, NamesUpTo;
    SizedAt(ly, p);
    DirSizeAgrees(ly, p, time);
    var rs := DirRecords(ly, p);
    var recs, data := EncodeAll(rs, time), PadSector(DirBytes(ly, p, time));
    RecordsWrap(rs, time);
    assert recs[..0] == [] && Pack([]) == [] by { EmptyPack(); }
    WholeFromEnd(recs, data, 0);
    var found := Scan(data, 0);
    if found.Some? && ReadAll(found.value).Some? {
      ReadEntries(found.value);
      forall b | b in found.value ensures ReadRecord(b).value.name != Some(name) { WholeIsShort(rs, time, b, name); }
    }
  }

  lemma EmptyPack()
    ensures Pack([]) == []
  {
  }

  lemma WholeIsShort(rs: seq<Record>, time: Bytes, b: Bytes, name: Name)
    requires |time| == 7 && NumbersFit(rs) && b in EncodeAll(rs, time) && SelfDescribing(b) && |name| > 144
    ensures ReadRecord(b).Some? && ReadRecord(b).value.name != Some(name)
  {
    hide Encode, ReadRecord;
    var i :| 0 <= i < |rs| && EncodeAll(rs, time)[i] == b;
    assert rs[i] in rs;
    SelfDescribingIff(rs[i], time);
    OneReadsBack(rs[i], time);
  }

  lemma {:induction false} UnseenDir(es: seq<Entry>, name: Name)
    requires Unseen(es, name)
    ensures FindDir(es, name) == None
  {
    if es != [] {
      assert es[0] in es && forall e | e in es[1..] :: e in es;
      UnseenDir(es[1..], name);
    }
  }

  lemma {:induction false} UnseenFile(img: Bytes, es: seq<Entry>, begun: seq<Where>, name: Name)
    requires Unseen(es, name)
    ensures forall f | f in JoinFiles(es, begun) :: f.name != name
  {
    if es != [] {
      assert es[0] in es && forall e | e in es[1..] :: e in es;
      UnseenFile(img, es[1..], [], name);
      UnseenFile(img, es[1..], begun + [Where(es[0].extent, es[0].size)], name);
    }
  }

  lemma {:induction false} NoContents(img: Bytes, fs: seq<Named>, name: Name)
    requires forall f | f in fs :: f.name != name
    ensures ContentsOf(img, fs, name) == []
  {
    if fs != [] {
      assert fs[|fs| - 1] in fs;
      NoContents(img, fs[..|fs| - 1], name);
    }
  }

  // ---------- the whole image ----------

  /** A directory with a long name under directories that can be read. */
  lemma {:induction false} ShallowestLong(dirs: Dirs, p: Path) returns (q: Path)
    requires p in dirs && !NamesWithin(dirs[p], 144)
    ensures q in dirs && !NamesWithin(dirs[q], 144) && ShortAbove(dirs, q)
    decreases |p|
  {
    if x :| x < p && x in dirs && !NamesWithin(dirs[x], 144) {
      q := ShallowestLong(dirs, x);
    } else {
      q := p;
    }
  }

  ghost predicate HasName(d: Dir, name: Name) {
    name in d.subdirs || exists f :: f in d.files && f.name == name
  }

  /** Some long name of the directory that no listing of it shows. */
  lemma LostName(img: Bytes, inputs: seq<Input>, dirs: Dirs, ly: Layout, boot: nat, stamp: Stamp, p: Path)
    returns (name: Name)
    requires Written(img, inputs, dirs, ly, boot, stamp) && p in dirs && !NamesWithin(dirs[p], 144)
    ensures HasName(dirs[p], name) && |name| > 144
    ensures var es := ListDir(img, At(ly.extents, p), At(ly.sizes, p)); es.Some? ==> Unseen(es.value, name)
  {
    hide Written, LaidOut, DirPresent, FilePresent, SmallDirs, Tree, IsoTree.Holds, Placed, Sized, BreadthFirst,
      ListDir, DirRecords, SortedDir, FilesIn, Present, Pvd, Unseen;
    WrittenFacts(img, inputs, dirs, ly, boot, stamp);
    HeldBy(inputs, dirs, ly);
    InOrder(inputs, dirs, ly, p);
    SizedAt(ly, p);
    if NamesWithin(dirs[p], 216) {
      name := Longest(dirs[p], 144);
      DirFits(inputs, dirs, ly, p);
      LongNameUnseen(img, ly, stamp.time, p, name);
    } else {
      name := Longest(dirs[p], 216);
      HugeNameUnseen(img, Where(At(ly.extents, p), At(ly.sizes, p)), name);
    }
  }

  lemma Longest(d: Dir, limit: nat) returns (name: Name)
    requires !NamesWithin(d, limit)
    ensures HasName(d, name) && |name| > limit
  {
    if n :| n in d.subdirs && |n| > limit {
      name := n;
    } else {
      var f :| f in d.files && |f.name| > limit;
      name := f.name;
    }
  }

  /** An image with a component of more than 144 bytes does not read back as its inputs. */
  lemma LongNamesAreLost(img: Bytes, inputs: seq<Input>, dirs: Dirs, ly: Layout, boot: nat, stamp: Stamp)
    requires Written(img, inputs, dirs, ly, boot, stamp) && !ShortComponents(inputs)
    ensures !ReadsAsInputs(img, inputs, boot)
  {
    hide *;
    WrittenFacts(img, inputs, dirs, ly, boot, stamp);
    HeldBy(inputs, dirs, ly);
    ShortEverywhere(dirs, inputs);
    var long :| long in dirs && !NamesWithin(dirs[long], 144);
    var p := ShallowestLong(dirs, long);
    var name := LostName(img, inputs, dirs, ly, boot, stamp, p);
    DirsResolve(img, inputs, dirs, ly, boot, stamp, p);
    PathIsLost(img, inputs, dirs, boot, p, Where(At(ly.extents, p), At(ly.sizes, p)), name);
  }

  lemma PathIsLost(img: Bytes, inputs: seq<Input>, dirs: Dirs, boot: nat, p: Path, w: Where, name: Name)
    requires IsoTree.Holds(dirs, inputs) && p in dirs && HasName(dirs[p], name) && ResolveDir(img, p) == Some(w)
    requires ListDir(img, w.sector, w.size).Some? ==> Unseen(ListDir(img, w.sector, w.size).value, name)
    ensures !ReadsAsInputs(img, inputs, boot)
  {
    hide ListDir, Unseen, Tree, FilesIn, Above, ContentsAt, ContentsOf, JoinFiles, FindDir, BootsFrom, ReadVolume,
      WellListed;
    var q := p + [name];
    assert Parent(q) == p && Last(q) == name;
    var es := ListDir(img, w.sector, w.size);
    if name in dirs[p].subdirs {
      if es.Some? { UnseenDir(es.value, name); }
      ChildIn(dirs, p, name);
      assert q != [] && Above(inputs, q) && ResolveDir(img, q) == None;
    } else {
      if es.Some? {
        UnseenFile(img, es.value, [], name);
        NoContents(img, JoinFiles(es.value, []), name);
      }
      assert ReadFiles(img, q) == [];
      assert FilesAt(dirs, p) == FilesIn(inputs, p);
      HasContents(inputs, p, name);
    }
  }

  /** A file of a directory gives its path contents. */
  lemma HasContents(inputs: seq<Input>, p: Path, name: Name)
    requires exists f :: f in FilesIn(inputs, p) && f.name == name
    ensures multiset(ContentsAt(inputs, p + [name])) != multiset{}
  {
    hide DirPath, BaseName;
    var f :| f in FilesIn(inputs, p) && f.name == name;
    FilesInIs(inputs, p);
    PathOfIs(inputs[f.id].path);
    assert PathOf(inputs[f.id].path) == p + [name];
    ContentsInclude(inputs, f.id, p + [name]);
  }

  lemma {:induction false} ContentsInclude(inputs: seq<Input>, i: nat, p: Path)
    requires i < |inputs| && PathOf(inputs[i].path) == p
    ensures |ContentsAt(inputs, p)| > 0
  {
    hide PathOf;
    var n := |inputs| - 1;
    if i < n { ContentsInclude(inputs[..n], i, p); }
  }
}
