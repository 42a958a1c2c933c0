/**
 Model of isoLayout.write in internal/purefs/iso9660.go: the emitted sectors, and a reader that
 starts at the primary volume descriptor (sections 8.4 and 9.1 of ECMA-119) as their specification.
 */
module IsoImage {
  import opened Basics
  import opened Codec
  import opened Seqs
  import opened IsoRecord
  import opened IsoDirectory
  import opened IsoTree
  import opened IsoLayout
  import opened IsoTable

  // ---------- the reader ----------

  /** `len` bytes from the start of a sector. */
  function Extent(img: Bytes, sector: nat, len: nat): Option<Bytes> {
    if sector * SECTOR + len > |img| then None else Some(img[sector * SECTOR..sector * SECTOR + len])
  }

  function ReadAll(recs: seq<Bytes>): Option<seq<Entry>> {
    if recs == [] then Some([]) else
    var front, last := ReadAll(recs[..|recs| - 1]), ReadRecord(recs[|recs| - 1]);
    if front.None? || last.None? then None else Some(front.value + [last.value])
  }

  /** The entries of the directory at an extent. */
  function ListDir(img: Bytes, sector: nat, size: nat): Option<seq<Entry>> {
    match Extent(img, sector, size)
    case None => None
    case Some(data) => (match Scan(data, 0) case None => None case Some(recs) => ReadAll(recs))
  }

  datatype Where = Where(sector: nat, size: nat)

  /** A Rock Ridge reader takes the file type from PX, which has to agree with the record's flag. */
  predicate IsDirectory(e: Entry) {
    e.isDir && e.posix.mode / 4096 == 4
  }

  predicate IsRegular(e: Entry) {
    !e.isDir && e.posix.mode / 4096 == 8
  }

  function FindDir(es: seq<Entry>, name: Name): Option<Where> {
    if es == [] then None
    else if IsDirectory(es[0]) && es[0].name == Some(name) then Some(Where(es[0].extent, es[0].size))
    else FindDir(es[1..], name)
  }

  datatype Volume = Volume(id: Bytes, sectors: nat, root: Where, tableLen: nat, tableL: nat, tableM: nat)

  /** The primary volume descriptor (section 8.4 of ECMA-119): one volume of 2048-byte blocks, with a
      directory record for the root. */
  function VolumeOf(pvd: Bytes): Option<Volume>
    requires |pvd| == SECTOR
  {
    var root, len := pvd[156..190], ReadBoth(pvd[132..140]);
    var sectors, extent, size := ReadBoth(pvd[80..88]), ReadBoth(root[2..10]), ReadBoth(root[10..18]);
    if pvd[..7] != [1, 67, 68, 48, 48, 49, 1] || pvd[881] != 1 || root[0] != 34 || root[25] != 2 then None
    else if ReadBoth(pvd[120..124]) != Some(1) || ReadBoth(pvd[124..128]) != Some(1) then None
    else if ReadBoth(pvd[128..132]) != Some(SECTOR) then None
    else if sectors.None? || extent.None? || size.None? || len.None? then None
    else Some(Volume(pvd[40..72], sectors.value, Where(extent.value, size.value), len.value, UnLE(pvd[140..144]),
                     UnBE(pvd[148..152])))
  }

  /** Descriptors start at sector 16; this set is a primary one, a boot record and the terminator. */
  function ReadVolume(img: Bytes): Option<Volume> {
    var pvd, boot, end := Extent(img, 16, SECTOR), Extent(img, 17, SECTOR), Extent(img, 18, SECTOR);
    if pvd.None? || boot.None? || end.None? then None
    else if boot.value[..7] != [0, 67, 68, 48, 48, 49, 1] || end.value[..7] != [255, 67, 68, 48, 48, 49, 1] then None
    else VolumeOf(pvd.value)
  }

  /** The directory at a path, from the root record of the primary volume descriptor. */
  function ResolveDir(img: Bytes, p: Path): Option<Where>
    decreases |p|
  {
    if p == [] then
      (match ReadVolume(img) case None => None case Some(volume) => Some(volume.root))
    else
      match ResolveDir(img, Parent(p))
      case None => None
      case Some(w) => (match ListDir(img, w.sector, w.size) case None => None case Some(es) => FindDir(es, Last(p)))
  }

  datatype Named = NamedFile(name: Name, pieces: seq<Where>)

  /** Files of a directory: a record with the multi-extent flag continues in the next one (section
      9.1.6 of ECMA-119). */
  function JoinFiles(es: seq<Entry>, begun: seq<Where>): seq<Named> {
    if es == [] then []
    else if !IsRegular(es[0]) || es[0].name.None? then JoinFiles(es[1..], [])
    else
      var pieces := begun + [Where(es[0].extent, es[0].size)];
      if es[0].multi then JoinFiles(es[1..], pieces)
      else [NamedFile(es[0].name.value, pieces)] + JoinFiles(es[1..], [])
  }

  function ReadPieces(img: Bytes, pieces: seq<Where>): Option<Bytes> {
    if pieces == [] then Some([]) else
    var first, rest := Extent(img, pieces[0].sector, pieces[0].size), ReadPieces(img, pieces[1..]);
    if first.None? || rest.None? then None else Some(first.value + rest.value)
  }

  /** The contents of every file called `name`, in directory order. */
  function ContentsOf(img: Bytes, fs: seq<Named>, name: Name): seq<Option<Bytes>> {
    if fs == [] then [] else
    var front := ContentsOf(img, fs[..|fs| - 1], name);
    if fs[|fs| - 1].name == name then front + [ReadPieces(img, fs[|fs| - 1].pieces)] else front
  }

  /** The contents of every file at `p`. */
  function ReadFiles(img: Bytes, p: Path): seq<Option<Bytes>>
    requires p != []
  {
    match ResolveDir(img, Parent(p))
    case None => []
    case Some(w) =>
      match ListDir(img, w.sector, w.size)
      case None => []
      case Some(es) => ContentsOf(img, JoinFiles(es, []), Last(p))
  }

  /** Where the boot image starts, and how many 512-byte sectors of it to load. */
  datatype Boot = Boot(sector: nat, count: nat)

  /** El Torito: the boot record leads to the catalog, whose validation entry is for platform 0xEF and
      sums to zero, and whose initial entry is bootable without emulation. */
  function ReadBoot(img: Bytes): Option<Boot> {
    match Extent(img, 17, SECTOR)
    case None => None
    case Some(brvd) =>
      match Extent(img, Field(brvd, 71, 4), SECTOR)
      case None => None
      case Some(cat) => if IsBootRecord(brvd) then BootOf(cat) else None
  }

  /** It names itself "EL TORITO SPECIFICATION". */
  predicate IsBootRecord(brvd: Bytes)
    requires |brvd| == SECTOR
  {
    && brvd[..7] == [0, 67, 68, 48, 48, 49, 1]
    && brvd[7..30] == [69, 76, 32, 84, 79, 82, 73, 84, 79, 32, 83, 80, 69, 67, 73, 70, 73, 67, 65, 84, 73, 79, 78]
  }

  function BootOf(cat: Bytes): Option<Boot>
    requires |cat| == SECTOR
  {
    if cat[..2] != [1, 0xEF] || cat[30..32] != [0x55, 0xAA] || WordSum(cat[..32]) != 0 then None
    else if cat[32..34] != [0x88, 0] then None
    else Some(Boot(Field(cat, 40, 4), Field(cat, 38, 2)))
  }

  // ---------- what is written ----------

  function PadStr(s: Bytes, n: nat): (b: Bytes)
    ensures |b| == n
  {
    if |s| >= n then s[..n] else s + seq(n - |s|, _ => 32)
  }

  const TACKLEBOX: Bytes := [84, 65, 67, 75, 76, 69, 66, 79, 88]
  const CD001: Bytes := [67, 68, 48, 48, 49]

  function RootRecord(extent: nat, size: nat, time: Bytes): (b: Bytes)
    requires |time| == 7
    ensures |b| == 34
  {
    [34, 0] + Both32(extent % U32) + Both32(size % U32) + time + [2, 0, 0, 1, 0, 0, 1, 1, 0]
  }

  /** The descriptor up to and including its root record. */
  function PvdFront(volumeID: Bytes, ly: Layout, time: Bytes): (b: Bytes)
    requires |time| == 7
    ensures |b| == 190
  {
    [1] + CD001 + [1, 0] + PadStr(TACKLEBOX, 32) + PadStr(volumeID, 32) + Zeros(8) + Both32(ly.total % U32) + Zeros(32)
      + [1, 0, 0, 1] + [1, 0, 0, 1] + [0, 8, 8, 0] + Both32(ly.tableLen % U32) + LE(ly.tableL % U32, 4) + Zeros(4)
      + BE(ly.tableM % U32, 4) + Zeros(4) + RootRecord(At(ly.extents, []), At(ly.sizes, []), time)
  }

  function Pvd(volumeID: Bytes, ly: Layout, time: Bytes, date: Bytes): (b: Bytes)
    requires |time| == 7 && |date| == 17
    ensures |b| == SECTOR
  {
    hide PvdFront;
    PvdFront(volumeID, ly, time) + (PadStr([], 128) + PadStr(TACKLEBOX, 128) + PadStr([], 128)
      + PadStr(TACKLEBOX + [32, 80, 85, 82, 69, 70, 83], 128) + Zeros(111) + date + date + PadStr([], 16) + [0]
          + PadStr([], 16)
      + [0, 1] + Zeros(1166))
  }

  const EL_TORITO: Bytes := [69, 76, 32, 84, 79, 82, 73, 84, 79, 32, 83, 80, 69, 67, 73, 70, 73, 67, 65, 84, 73, 79, 78]

  function Brvd(ly: Layout): (b: Bytes)
    ensures |b| == SECTOR
  {
    [0] + CD001 + [1] + PadStr(EL_TORITO, 32) + Zeros(32) + LE(ly.catalog % U32, 4) + Zeros(1973)
  }

  const TERMINATOR: Bytes := [255] + CD001 + [1] + Zeros(2041)

  /** The validation entry: platform 0xEF, and a checksum that makes its words sum to zero. */
  function Validation(): (b: Bytes)
    ensures |b| == 32
  {
    var csum := (0x1_0000 - WordSum(ValidationWith(0))) % 0x1_0000;
    ValidationWith(csum)
  }

  function ValidationWith(csum: nat): (b: Bytes)
    ensures |b| == 32
  {
    [1, 0xEF, 0, 0] + PadStr(TACKLEBOX, 24) + LE(csum, 2) + [0x55, 0xAA]
  }

  /** The sum of the little-endian words, modulo 2^16. */
  function WordSum(b: Bytes): (r: nat)
    ensures r < 0x1_0000
  {
    if |b| < 2 then 0 else (b[0] as int + 256 * (b[1] as int) + WordSum(b[2..])) % 0x1_0000
  }

  function Catalog(ly: Layout, bootSize: nat, bootExtent: nat): (b: Bytes)
    ensures |b| == SECTOR
  {
    var cnt := if bootSize / 512 > 0xFFFF then 0 else bootSize / 512;
    Validation() + [0x88] + Zeros(5) + LE(cnt, 2) + LE(bootExtent % U32, 4) + Zeros(2004)
  }

  lemma {:induction false} WordSumAppend(a: Bytes, b: Bytes)
    requires |a| % 2 == 0
    ensures WordSum(a + b) == (WordSum(a) + WordSum(b)) % 0x1_0000
    decreases |a|
  {
    hide WordSum;
    if a == [] {
      assert a + b == b && WordSum([]) == 0 by { NoWords(); }
    } else {
      WordSumAppend(a[2..], b);
      assert (a + b)[2..] == a[2..] + b && (a + b)[0] == a[0] && (a + b)[1] == a[1];
      var word: nat := a[0] as int + 256 * (a[1] as int);
      ModAdd(word, WordSum(a[2..]), WordSum(b));
      WordSumStep(a);
      WordSumStep(a + b);
    }
  }

  lemma NoWords()
    ensures WordSum([]) == 0
  {
  }

  lemma WordSumStep(b: Bytes)
    requires |b| >= 2
    ensures WordSum(b) == (b[0] as int + 256 * (b[1] as int) + WordSum(b[2..])) % 0x1_0000
  {
  }

  lemma ModAdd(x: nat, y: nat, z: nat)
    ensures (x + (y + z) % 0x1_0000) % 0x1_0000 == ((x + y) % 0x1_0000 + z) % 0x1_0000
  {
  }

  /** Firmware accepts the entry: its words sum to zero. */
  lemma ChecksumIsZero()
    ensures WordSum(Validation()) == 0
  {
    hide PadStr, WordSum;
    var front: Bytes := [1, 0xEF, 0, 0] + PadStr(TACKLEBOX, 24);
    var csum := (0x1_0000 - WordSum(ValidationWith(0))) % 0x1_0000;
    var tail: Bytes := [0x55, 0xAA];
    WordSumAppend(front, LE(0, 2) + tail);
    WordSumAppend(front, LE(csum, 2) + tail);
    assert ValidationWith(0) == front + (LE(0, 2) + tail);
    assert ValidationWith(csum) == front + (LE(csum, 2) + tail);
    WordSumAppend(LE(0, 2), tail);
    WordSumAppend(LE(csum, 2), tail);
    OneWord(0);
    OneWord(csum);
    Cancel(WordSum(front), WordSum(tail), csum);
  }

  lemma OneWord(v: nat)
    requires v < 0x1_0000
    ensures WordSum(LE(v, 2)) == v
  {
    var b := LE(v, 2);
    assert b == [v % 256, v / 256];
    assert WordSum(b[2..]) == 0;
  }

  lemma Cancel(f: nat, t: nat, c: nat)
    requires var s := (f + (0 + t) % 0x1_0000) % 0x1_0000; c == (0x1_0000 - s) % 0x1_0000
    ensures (f + (c + t) % 0x1_0000) % 0x1_0000 == 0
  {
  }

  // ---------- the sector writer ----------

  function PadSector(b: Bytes): (r: Bytes)
    ensures |r| == CeilSector(|b|) == Sectors(|b|) * SECTOR && b <= r
  {
    CeilIsSectors(|b|);
    b + Zeros(CeilSector(|b|) - |b|)
  }

  /** Zeros up to a sector, at most 32 KiB at a time; None is the layout-overrun error. */
  method PadTo(out: Bytes, sector: nat) returns (r: Option<Bytes>)
    ensures r.None? <==> |out| > sector * SECTOR
    ensures r.Some? ==> r.value == out + Zeros(sector * SECTOR - |out|)
  {
    var want := sector * SECTOR;
    if |out| > want { return None; }
    var buf := out;
    while |buf| < want
      invariant |out| <= |buf| <= want && buf == out + Zeros(|buf| - |out|)
    {
      var n := want - |buf|;
      if n > 32 * 1024 { n := 32 * 1024; }
      buf := buf + Zeros(n);
    }
    r := Some(buf);
  }

  /** What is written, with the zeros the next padTo adds. */
  ghost function Settled(out: Bytes, next: nat): (img: Bytes)
    requires |out| <= next * SECTOR
    ensures |img| == next * SECTOR
  {
    out + Zeros(next * SECTOR - |out|)
  }

  /** One structure at its sector: the settled image grows by exactly its padded bytes. */
  method WriteAt(out: Bytes, sector: nat, b: Bytes) returns (r: Option<Bytes>)
    requires |out| <= sector * SECTOR
    ensures r.Some? && |r.value| <= (sector + Sectors(|b|)) * SECTOR
    ensures Settled(r.value, sector + Sectors(|b|)) == Settled(out, sector) + PadSector(b)
  {
    var padded := PadTo(out, sector);
    if padded.None? { return None; }
    CeilIsSectors(|b|);
    r := Some(padded.value + b);
  }

  /** `b` is in the image from `sector` on. */
  ghost predicate Present(img: Bytes, sector: nat, b: Bytes) {
    Extent(img, sector, |b|) == Some(b)
  }

  lemma PresentStays(img: Bytes, more: Bytes, sector: nat, b: Bytes)
    requires Present(img, sector, b)
    ensures Present(img + more, sector, b)
  {
    SliceInPrefix(img, img + more, sector * SECTOR, sector * SECTOR + |b|);
  }

  lemma PresentNew(img: Bytes, sector: nat, b: Bytes)
    requires |img| == sector * SECTOR
    ensures Present(img + PadSector(b), sector, b) && Present(img + PadSector(b), sector, PadSector(b))
  {
    var padded := PadSector(b);
    assert (img + padded)[|img|..|img| + |padded|] == padded;
    assert (img + padded)[|img|..|img| + |b|] == padded[..|b|] == b;
  }

  // ---------- directories ----------

  function EncodeAll(recs: seq<Record>, time: Bytes): (r: seq<Bytes>)
    requires |time| == 7
    ensures |r| == |recs| && forall i | 0 <= i < |r| :: r[i] == Encode(recs[i], time)
  {
    seq(|recs|, i requires 0 <= i < |recs| => Encode(recs[i], time))
  }

  function DirRecords(ly: Layout, p: Path): seq<Record>
    requires p in ly.sorted
  {
    RecordsOf(p, ly.sorted[p], ly.sizes, ly.extents, ly.places)
  }

  function DirBytes(ly: Layout, p: Path, time: Bytes): Bytes
    requires |time| == 7 && p in ly.sorted
  {
    Pack(EncodeAll(DirRecords(ly, p), time))
  }

  lemma EncodedLengths(a: seq<Record>, b: seq<Record>, time: Bytes)
    requires |time| == 7 && SameShape(a, b)
    ensures Lengths(EncodeAll(a, time)) == RecordLengths(b)
  {
    hide RecordLength, Encode;
    forall i | 0 <= i < |a| ensures |EncodeAll(a, time)[i]| == RecordLength(b[i].kind, b[i].isDir)
    {
      EncodedLength(a[i], time);
    }
  }

  lemma EncodedLength(r: Record, time: Bytes)
    requires |time| == 7
    ensures |Encode(r, time)| == RecordLength(r.kind, r.isDir)
  {
  }

  /** The sizing pass predicted exactly what the writing pass emits. */
  lemma DirSizeAgrees(ly: Layout, p: Path, time: Bytes)
    requires |time| == 7 && p in ly.order && Sized(ly.sorted, ly.order, ly.sizes)
    ensures |DirBytes(ly, p, time)| == ContentLength(p, ly.sorted[p])
    ensures |PadSector(DirBytes(ly, p, time))| == ly.sizes[p]
    ensures Sectors(|DirBytes(ly, p, time)|) == ly.sizes[p] / SECTOR
  {
    hide Pack, PackedLength, EncodeAll, RecordLengths, RecordsOf, SameShape, CeilSector, Sectors, Lengths;
    var d := ly.sorted[p];
    PlacementKeepsShape(p, d, ly.sizes, ly.extents, ly.places, map[], map[], map[]);
    EncodedLengths(DirRecords(ly, p), RecordsOf(p, d, map[], map[], map[]), time);
    SizingAgrees(EncodeAll(DirRecords(ly, p), time));
    CeilIsSectors(|DirBytes(ly, p, time)|);
  }

  ghost predicate DirsPresent(img: Bytes, ly: Layout, time: Bytes, n: nat)
    requires |time| == 7 && n <= |ly.order|
  {
    forall k | 0 <= k < n :: DirPresent(img, ly, time, ly.order[k])
  }

  ghost predicate DirPresent(img: Bytes, ly: Layout, time: Bytes, p: Path)
    requires |time| == 7
  {
    p in ly.sorted && Present(img, At(ly.extents, p), PadSector(DirBytes(ly, p, time)))
  }

  /** The sector after the first `k` directories. */
  ghost function AfterDirs(ly: Layout, k: nat): nat
    requires k <= |ly.order|
  {
    FirstDir(ly.tableLen) + DirSectors(ly.order, ly.sizes, k)
  }

  method WriteDirs(out0: Bytes, ly: Layout, time: Bytes) returns (r: Option<Bytes>)
    requires |time| == 7 && Sized(ly.sorted, ly.order, ly.sizes)
    requires DirsPlaced(ly.order, ly.sizes, ly.extents, FirstDir(ly.tableLen), |ly.order|)
    requires |out0| <= AfterDirs(ly, 0) * SECTOR
    ensures var next := AfterDirs(ly, |ly.order|);
            && r.Some? && |r.value| <= next * SECTOR
            && Settled(out0, AfterDirs(ly, 0)) <= Settled(r.value, next)
            && DirsPresent(Settled(r.value, next), ly, time, |ly.order|)
  {
    hide *;
    NoDirsYet(Settled(out0, AfterDirs(ly, 0)), ly, time);
    var out := out0;
    for k := 0 to |ly.order|
      invariant |out| <= AfterDirs(ly, k) * SECTOR
      invariant Settled(out0, AfterDirs(ly, 0)) <= Settled(out, AfterDirs(ly, k))
      invariant DirsPresent(Settled(out, AfterDirs(ly, k)), ly, time, k)
    {
      var wrote := WriteDir(out, ly, time, k);
      if wrote.None? { return None; }
      out := wrote.value;
    }
    r := Some(out);
  }

  lemma NoDirsYet(img: Bytes, ly: Layout, time: Bytes)
    requires |time| == 7
    ensures DirsPresent(img, ly, time, 0)
  {
  }

  method WriteDir(out: Bytes, ly: Layout, time: Bytes, k: nat) returns (r: Option<Bytes>)
    requires |time| == 7 && Sized(ly.sorted, ly.order, ly.sizes) && k < |ly.order|
    requires DirsPlaced(ly.order, ly.sizes, ly.extents, FirstDir(ly.tableLen), |ly.order|)
    requires |out| <= AfterDirs(ly, k) * SECTOR && DirsPresent(Settled(out, AfterDirs(ly, k)), ly, time, k)
    ensures r.Some? && |r.value| <= AfterDirs(ly, k + 1) * SECTOR
    ensures Settled(out, AfterDirs(ly, k)) <= Settled(r.value, AfterDirs(ly, k + 1))
    ensures DirsPresent(Settled(r.value, AfterDirs(ly, k + 1)), ly, time, k + 1)
  {
    hide *;
    var p := ly.order[k];
    SizedAt(ly, p);
    var recs := ListRecords(p, ly.sorted[p], ly.sizes, ly.extents, ly.places);
    var buf := WriteRecords(EncodeAll(recs, time));
    BufIsDirBytes(ly, p, time, buf);
    DirSizeAgrees(ly, p, time);
    DirIsNext(ly, k);
    r := WriteAt(out, At(ly.extents, p), buf);
    OneMoreDir(Settled(out, AfterDirs(ly, k)), ly, time, k, buf);
  }

  lemma DirIsNext(ly: Layout, k: nat)
    requires k < |ly.order| && DirsPlaced(ly.order, ly.sizes, ly.extents, FirstDir(ly.tableLen), |ly.order|)
    requires Sized(ly.sorted, ly.order, ly.sizes)
    ensures At(ly.extents, ly.order[k]) == AfterDirs(ly, k)
    ensures ly.order[k] in ly.sizes && AfterDirs(ly, k + 1) == AfterDirs(ly, k) + ly.sizes[ly.order[k]] / SECTOR
  {
    SizedAt(ly, ly.order[k]);
  }

  lemma SizedAt(ly: Layout, p: Path)
    requires Sized(ly.sorted, ly.order, ly.sizes) && p in ly.order
    ensures p in ly.sorted && p in ly.sizes
  {
  }

  lemma BufIsDirBytes(ly: Layout, p: Path, time: Bytes, buf: Bytes)
    requires |time| == 7 && p in ly.sorted
    requires buf == Pack(EncodeAll(RecordsOf(p, ly.sorted[p], ly.sizes, ly.extents, ly.places), time))
    ensures buf == DirBytes(ly, p, time)
  {
  }

  lemma OneMoreDir(img: Bytes, ly: Layout, time: Bytes, k: nat, buf: Bytes)
    requires |time| == 7 && k < |ly.order| && ly.order[k] in ly.sorted && buf == DirBytes(ly, ly.order[k], time)
    requires |img| == At(ly.extents, ly.order[k]) * SECTOR && DirsPresent(img, ly, time, k)
    ensures DirsPresent(img + PadSector(buf), ly, time, k + 1)
  {
    hide DirBytes, PadSector, Present;
    var more := PadSector(buf);
    forall j | 0 <= j < k + 1 ensures DirPresent(img + more, ly, time, ly.order[j]) {
      if j < k {
        assert DirPresent(img, ly, time, ly.order[j]);
        PresentStays(img, more, At(ly.extents, ly.order[j]), PadSector(DirBytes(ly, ly.order[j], time)));
      } else {
        PresentNew(img, At(ly.extents, ly.order[k]), buf);
      }
    }
  }

  // ---------- files ----------

  ghost predicate SourceOk(inputs: seq<Input>, f: FileEntry) {
    f.id < |inputs| && inputs[f.id].source.Some? && |inputs[f.id].source.value| == f.size
  }

  ghost predicate FilePresent(img: Bytes, ly: Layout, inputs: seq<Input>, f: FileEntry) {
    SourceOk(inputs, f) && Present(img, At(ly.places, f.id), inputs[f.id].source.value)
  }

  ghost function AfterFiles(ly: Layout, k: nat): nat
    requires k <= |ly.files|
  {
    ly.catalog + 1 + FileSectors(ly.files, k)
  }

  ghost predicate FilesPresent(img: Bytes, ly: Layout, inputs: seq<Input>, n: nat)
    requires n <= |ly.files|
  {
    forall k | 0 <= k < n :: FilePresent(img, ly, inputs, ly.files[k])
  }

  /** The contents loop.  It stops at a source that fails or does not yield its declared size. */
  method WriteFiles(out0: Bytes, ly: Layout, inputs: seq<Input>) returns (r: Option<Bytes>)
    requires FilesPlaced(ly.files, ly.places, ly.catalog + 1) && |out0| <= AfterFiles(ly, 0) * SECTOR
    requires forall f | f in ly.files :: f.id < |inputs|
    ensures r.None? <==> exists k :: 0 <= k < |ly.files| && !SourceOk(inputs, ly.files[k])
    ensures r.Some? ==>
              var next := AfterFiles(ly, |ly.files|);
              && |r.value| <= next * SECTOR
              && Settled(out0, AfterFiles(ly, 0)) <= Settled(r.value, next)
              && FilesPresent(Settled(r.value, next), ly, inputs, |ly.files|)
  {
    hide *;
    NoFilesYet(Settled(out0, AfterFiles(ly, 0)), ly, inputs);
    var out := out0;
    for k := 0 to |ly.files|
      invariant |out| <= AfterFiles(ly, k) * SECTOR
      invariant forall j | 0 <= j < k :: SourceOk(inputs, ly.files[j])
      invariant Settled(out0, AfterFiles(ly, 0)) <= Settled(out, AfterFiles(ly, k))
      invariant FilesPresent(Settled(out, AfterFiles(ly, k)), ly, inputs, k)
    {
      var wrote := WriteFile(out, ly, inputs, k);
      if wrote.None? { return None; }
      out := wrote.value;
    }
    r := Some(out);
  }

  lemma NoFilesYet(img: Bytes, ly: Layout, inputs: seq<Input>)
    ensures FilesPresent(img, ly, inputs, 0)
  {
  }

  method WriteFile(out: Bytes, ly: Layout, inputs: seq<Input>, k: nat) returns (r: Option<Bytes>)
    requires FilesPlaced(ly.files, ly.places, ly.catalog + 1) && k < |ly.files| && ly.files[k].id < |inputs|
    requires |out| <= AfterFiles(ly, k) * SECTOR && FilesPresent(Settled(out, AfterFiles(ly, k)), ly, inputs, k)
    ensures r.None? <==> !SourceOk(inputs, ly.files[k])
    ensures r.Some? ==>
              && |r.value| <= AfterFiles(ly, k + 1) * SECTOR
              && Settled(out, AfterFiles(ly, k)) <= Settled(r.value, AfterFiles(ly, k + 1))
              && FilesPresent(Settled(r.value, AfterFiles(ly, k + 1)), ly, inputs, k + 1)
  {
    hide Settled, PadSector, FilesPresent, Sectors, AfterFiles, FilesPlaced, At;
    var f := ly.files[k];
    if inputs[f.id].source.None? { return None; }
    var data := inputs[f.id].source.value;
    if |data| != f.size { return None; }
    FileIsNext(ly, k);
    r := WriteAt(out, At(ly.places, f.id), data);
    OneMoreFile(Settled(out, AfterFiles(ly, k)), ly, inputs, k);
  }

  lemma FileIsNext(ly: Layout, k: nat)
    requires k < |ly.files| && FilesPlaced(ly.files, ly.places, ly.catalog + 1)
    ensures At(ly.places, ly.files[k].id) == AfterFiles(ly, k)
    ensures AfterFiles(ly, k + 1) == AfterFiles(ly, k) + Sectors(ly.files[k].size)
  {
  }

  lemma OneMoreFile(img: Bytes, ly: Layout, inputs: seq<Input>, k: nat)
    requires k < |ly.files| && SourceOk(inputs, ly.files[k]) && |img| == At(ly.places, ly.files[k].id) * SECTOR
    requires FilesPresent(img, ly, inputs, k)
    ensures FilesPresent(img + PadSector(inputs[ly.files[k].id].source.value), ly, inputs, k + 1)
  {
    hide PadSector, Present;
    var data := inputs[ly.files[k].id].source.value;
    var more := PadSector(data);
    PresentNew(img, At(ly.places, ly.files[k].id), data);
    forall j | 0 <= j < k ensures FilePresent(img + more, ly, inputs, ly.files[j]) {
      assert FilePresent(img, ly, inputs, ly.files[j]);
      PresentStays(img, more, At(ly.places, ly.files[j].id), inputs[ly.files[j].id].source.value);
    }
  }

  // ---------- the whole image ----------

  datatype Stamp = Stamp(volumeID: Bytes, time: Bytes, date: Bytes) {
    ghost predicate Valid() {
      |time| == 7 && |date| == 17
    }
  }

  ghost predicate HeadPresent(img: Bytes, ly: Layout, stamp: Stamp)
    requires stamp.Valid() && Closed(ly.order)
  {
    && Present(img, 16, Pvd(stamp.volumeID, ly, stamp.time, stamp.date)) && Present(img, 17, Brvd(ly))
    && Present(img, 18, TERMINATOR)
    && Present(img, ly.tableL, Table(true, ly, |ly.order|)) && Present(img, ly.tableM, Table(false, ly, |ly.order|))
  }

  ghost predicate ImageOf(img: Bytes, ly: Layout, inputs: seq<Input>, boot: nat, stamp: Stamp)
    requires stamp.Valid() && Closed(ly.order) && boot < |inputs|
  {
    && |img| == ly.total * SECTOR
    && HeadPresent(img, ly, stamp)
    && DirsPresent(img, ly, stamp.time, |ly.order|)
    && Present(img, ly.catalog, Catalog(ly, inputs[boot].size, At(ly.places, boot)))
    && FilesPresent(img, ly, inputs, |ly.files|)
  }

  /** Sectors 0 to 18 and the path tables. */
  method WriteHead(ly: Layout, stamp: Stamp) returns (r: Option<Bytes>)
    requires stamp.Valid() && Closed(ly.order) && ly.tableLen == TableLength(ly.order)
    requires ly.tableL == 19 && ly.tableM == 19 + Sectors(ly.tableLen)
    ensures r.Some? && |r.value| <= FirstDir(ly.tableLen) * SECTOR
    ensures HeadPresent(Settled(r.value, FirstDir(ly.tableLen)), ly, stamp)
  {
    hide Settled, PadSector, Pvd, Brvd, Table, Present, Sectors, Catalog, TableLength;
    var out: Bytes := [];
    var wrote := PadTo(out, 16);
    if wrote.None? { return None; }
    wrote := WriteDescriptors(wrote.value, ly, stamp);
    if wrote.None? { return None; }
    ghost var img := Settled(wrote.value, 19);
    assert ly.order[..|ly.order|] == ly.order;
    var l := WriteTable(true, ly);
    ghost var pvd := Pvd(stamp.volumeID, ly, stamp.time, stamp.date);
    wrote := WriteAt(wrote.value, ly.tableL, l);
    if wrote.None? { return None; }
    PresentNew(img, 19, l);
    PresentStays(img, PadSector(l), 16, pvd);
    PresentStays(img, PadSector(l), 17, Brvd(ly));
    PresentStays(img, PadSector(l), 18, TERMINATOR);
    img := img + PadSector(l);
    var m := WriteTable(false, ly);
    wrote := WriteAt(wrote.value, ly.tableM, m);
    if wrote.None? { return None; }
    PresentNew(img, ly.tableM, m);
    PresentStays(img, PadSector(m), 16, pvd);
    PresentStays(img, PadSector(m), 17, Brvd(ly));
    PresentStays(img, PadSector(m), 18, TERMINATOR);
    PresentStays(img, PadSector(m), 19, l);
    r := wrote;
  }

  method WriteDescriptors(out0: Bytes, ly: Layout, stamp: Stamp) returns (r: Option<Bytes>)
    requires stamp.Valid() && out0 == Zeros(16 * SECTOR)
    ensures r.Some? && |r.value| <= 19 * SECTOR
    ensures Present(Settled(r.value, 19), 16, Pvd(stamp.volumeID, ly, stamp.time, stamp.date))
    ensures Present(Settled(r.value, 19), 17, Brvd(ly)) && Present(Settled(r.value, 19), 18, TERMINATOR)
  {
    hide PadSector, Pvd, Brvd, Present;
    var pvd := Pvd(stamp.volumeID, ly, stamp.time, stamp.date);
    var brvd := Brvd(ly);
    r := Some(out0 + pvd + brvd + TERMINATOR);
    WholeSector(pvd);
    WholeSector(brvd);
    WholeSector(TERMINATOR);
    PresentNew(out0, 16, pvd);
    PresentStays(out0 + pvd, brvd, 16, pvd);
    PresentNew(out0 + pvd, 17, brvd);
    PresentStays(out0 + pvd + brvd, TERMINATOR, 16, pvd);
    PresentStays(out0 + pvd + brvd, TERMINATOR, 17, brvd);
    PresentNew(out0 + pvd + brvd, 18, TERMINATOR);
    assert Settled(r.value, 19) == r.value;
  }

  lemma WholeSector(b: Bytes)
    requires |b| == SECTOR
    ensures PadSector(b) == b && Sectors(|b|) == 1
  {
    assert Zeros(0) == [];
  }

  // ---------- reading it back ----------

  ghost predicate NamesUpTo(recs: seq<Record>, limit: nat) {
    forall r | r in recs && r.kind.Named? :: |r.kind.name| <= limit
  }

  ghost predicate NumbersFit(recs: seq<Record>) {
    forall r | r in recs :: r.extent < U32 && r.size < U32
  }

  ghost predicate FitsFields(recs: seq<Record>) {
    NamesUpTo(recs, 144) && NumbersFit(recs)
  }

  function EntriesOf(recs: seq<Record>): (r: seq<Entry>)
    ensures |r| == |recs| && forall i | 0 <= i < |r| :: r[i] == EntryOf(recs[i])
  {
    seq(|recs|, i requires 0 <= i < |recs| => EntryOf(recs[i]))
  }

  lemma {:induction false} AllReadBack(recs: seq<Record>, time: Bytes)
    requires |time| == 7 && FitsFields(recs)
    ensures ReadAll(EncodeAll(recs, time)) == Some(EntriesOf(recs))
    ensures forall b | b in EncodeAll(recs, time) :: SelfDescribing(b)
  {
    hide Encode, ReadRecord, RecordLength, EntryOf;
    if recs != [] {
      var front, last := recs[..|recs| - 1], recs[|recs| - 1];
      assert forall r | r in front :: r in recs;
      AllReadBack(front, time);
      assert last in recs;
      OneReadsBack(last, time);
      assert EncodeAll(recs, time)[..|recs| - 1] == EncodeAll(front, time);
      assert EntriesOf(recs) == EntriesOf(front) + [EntryOf(last)];
      assert EncodeAll(recs, time) == EncodeAll(front, time) + [Encode(last, time)];
    }
  }

  lemma OneReadsBack(r: Record, time: Bytes)
    requires |time| == 7 && r.extent < U32 && r.size < U32 && (r.kind.Named? ==> |r.kind.name| <= 144)
    ensures ReadRecord(Encode(r, time)) == Some(EntryOf(r)) && SelfDescribing(Encode(r, time))
  {
    hide RecordLength, Encode, ReadRecord;
    LengthFits(r.kind, r.isDir);
    RecordReadsBack(r, time);
    EncodedLength(r, time);
  }

  /** A record says its own length, which scanning relies on, exactly when its Rock Ridge name has at
      most 144 bytes; a longer name is written all the same, with a length that has wrapped. */
  lemma SelfDescribingIff(r: Record, time: Bytes)
    requires |time| == 7
    ensures SelfDescribing(Encode(r, time)) <==> (r.kind.Named? ==> |r.kind.name| <= 144)
  {
    hide RecordLength, Encode, Fixed;
    LengthFits(r.kind, r.isDir);
    EncodedLength(r, time);
    FirstByte(r, time);
  }

  lemma FirstByte(r: Record, time: Bytes)
    requires |time| == 7
    ensures |Encode(r, time)| > 0 && Encode(r, time)[0] == RecordLength(r.kind, r.isDir) % 256
  {
    hide Identifier, SystemUse, RecordLength;
  }

  /** A directory of the image lists exactly its records. */
  lemma DirReadsBack(img: Bytes, ly: Layout, time: Bytes, p: Path)
    requires |time| == 7 && p in ly.order && Sized(ly.sorted, ly.order, ly.sizes)
    requires DirPresent(img, ly, time, p) && FitsFields(DirRecords(ly, p))
    ensures p in ly.sizes && ListDir(img, At(ly.extents, p), ly.sizes[p]) == Some(EntriesOf(DirRecords(ly, p)))
  {
    hide Pack, EncodeAll, EntriesOf, RecordsOf, DirRecords, Scan, ReadAll, FitsFields, Sized;
    SizedAt(ly, p);
    DirSizeAgrees(ly, p, time);
    var recs := EncodeAll(DirRecords(ly, p), time);
    AllReadBack(DirRecords(ly, p), time);
    ScanFindsAll(recs, PadSector(DirBytes(ly, p, time)));
  }

  // finding a subdirectory

  lemma {:induction false} FindDirSkips(a: seq<Entry>, b: seq<Entry>, name: Name)
    requires forall e | e in a :: !(IsDirectory(e) && e.name == Some(name))
    ensures FindDir(a + b, name) == FindDir(b, name)
  {
    if a == [] {
      assert a + b == b;
    } else {
      assert a[0] in a && (a + b)[1..] == a[1..] + b;
      FindDirSkips(a[1..], b, name);
    }
  }

  lemma EntriesAppend(a: seq<Record>, b: seq<Record>)
    ensures EntriesOf(a + b) == EntriesOf(a) + EntriesOf(b)
  {
  }

  /** The entries of a directory: two without names, the subdirectories, then the files. */
  lemma EntriesSplit(p: Path, d: Dir, s: map<Path, nat>, e: map<Path, nat>, m: map<nat, nat>)
    ensures EntriesOf(RecordsOf(p, d, s, e, m))
         == EntriesOf(DotRecords(p, s, e))
             + (EntriesOf(SubdirRecords(p, d.subdirs, s, e)) + EntriesOf(FileRecords(d.files, m)))
    ensures forall x | x in EntriesOf(DotRecords(p, s, e)) :: x.name.None?
    ensures forall x | x in EntriesOf(SubdirRecords(p, d.subdirs, s, e)) :: !IsRegular(x)
    ensures forall x | x in EntriesOf(FileRecords(d.files, m)) :: !IsDirectory(x)
  {
    hide EntriesOf, SubdirRecords;
    EntriesAppend(DotRecords(p, s, e) + SubdirRecords(p, d.subdirs, s, e), FileRecords(d.files, m));
    EntriesAppend(DotRecords(p, s, e), SubdirRecords(p, d.subdirs, s, e));
    Assoc(EntriesOf(DotRecords(p, s, e)), EntriesOf(SubdirRecords(p, d.subdirs, s, e)),
          EntriesOf(FileRecords(d.files, m)));
    FilesAreFiles(d.files, m);
    DotsAndDirs(p, d.subdirs, s, e);
  }

  lemma DotsAndDirs(p: Path, names: seq<Name>, s: map<Path, nat>, e: map<Path, nat>)
    ensures forall x | x in EntriesOf(DotRecords(p, s, e)) :: x.name.None?
    ensures forall x | x in EntriesOf(SubdirRecords(p, names, s, e)) :: !IsRegular(x)
  {
  }

  lemma {:induction false} SpansAreFiles(name: Name, extent: nat, spans: seq<Span>)
    ensures forall r | r in SpanRecords(name, extent, spans) :: !r.isDir && r.kind == IsoRecord.Named(name)
  {
    if spans != [] { SpansAreFiles(name, extent, spans[1..]); }
  }

  lemma {:induction false} RecordsAreFiles(fs: seq<FileEntry>, m: map<nat, nat>)
    ensures forall r | r in FileRecords(fs, m) :: !r.isDir
  {
    hide SpansFrom, SpanRecords;
    if fs != [] {
      RecordsAreFiles(fs[..|fs| - 1], m);
      SpansAreFiles(fs[|fs| - 1].name, At(m, fs[|fs| - 1].id), SpansFrom(0, fs[|fs| - 1].size));
    }
  }

  lemma FilesAreFiles(fs: seq<FileEntry>, m: map<nat, nat>)
    ensures forall x | x in EntriesOf(FileRecords(fs, m)) :: !IsDirectory(x)
  {
    RecordsAreFiles(fs, m);
  }

  lemma {:induction false} FindAmongDirs(p: Path, names: seq<Name>, s: map<Path, nat>, e: map<Path, nat>,
                                         rest: seq<Entry>, name: Name)
    requires forall x | x in rest :: !IsDirectory(x)
    ensures FindDir(EntriesOf(SubdirRecords(p, names, s, e)) + rest, name)
         == if name in names then Some(Where(At(e, p + [name]), At(s, p + [name]))) else None
  {
    hide EntryOf, IsDirectory;
    var es := EntriesOf(SubdirRecords(p, names, s, e));
    if names == [] {
      assert es + rest == rest;
      FindDirSkips(rest, [], name);
      assert rest + [] == rest;
    } else {
      FindAmongDirs(p, names[1..], s, e, rest, name);
      assert (es + rest)[0] == EntryOf(SubdirRecords(p, names, s, e)[0]);
      SubdirSeen(SubdirRecords(p, names, s, e)[0], names[0]);
      assert es[1..] == EntriesOf(SubdirRecords(p, names[1..], s, e));
      assert (es + rest)[1..] == es[1..] + rest;
    }
  }

  lemma SubdirSeen(r: Record, name: Name)
    requires r.kind == IsoRecord.Named(name) && r.isDir
    ensures var x := EntryOf(r); IsDirectory(x) && x.name == Some(name) && x.extent == r.extent && x.size == r.size
  {
    hide Identifier;
  }

  lemma FindDirFinds(ly: Layout, p: Path, name: Name)
    requires p in ly.sorted
    ensures FindDir(EntriesOf(DirRecords(ly, p)), name)
         == if name in ly.sorted[p].subdirs then Some(Where(At(ly.extents, p + [name]), At(ly.sizes, p + [name])))
             else None
  {
    hide FindDir, EntriesOf, RecordsOf, DotRecords, SubdirRecords, FileRecords;
    var d := ly.sorted[p];
    var dots, subs := EntriesOf(DotRecords(p, ly.sizes, ly.extents)),
        EntriesOf(SubdirRecords(p, d.subdirs, ly.sizes, ly.extents));
    var files := EntriesOf(FileRecords(d.files, ly.places));
    EntriesSplit(p, d, ly.sizes, ly.extents, ly.places);
    FindDirSkips(dots, subs + files, name);
    FindAmongDirs(p, d.subdirs, ly.sizes, ly.extents, files, name);
  }

  // joining the extents of a file

  function PiecesOf(extent: nat, spans: seq<Span>): seq<Where> {
    if spans == [] then [] else [Where(extent + spans[0].off / SECTOR, spans[0].len)] + PiecesOf(extent, spans[1..])
  }

  lemma {:induction false} JoinOne(name: Name, extent: nat, spans: seq<Span>, rest: seq<Entry>, begun: seq<Where>)
    requires spans != []
    ensures JoinFiles(EntriesOf(SpanRecords(name, extent, spans)) + rest, begun)
         == [NamedFile(name, begun + PiecesOf(extent, spans))] + JoinFiles(rest, [])
    decreases |spans|
  {
    var recs := SpanRecords(name, extent, spans);
    var es := EntriesOf(recs) + rest;
    var piece := Where(extent + spans[0].off / SECTOR, spans[0].len);
    assert es[0] == EntryOf(recs[0]);
    assert es[1..] == EntriesOf(SpanRecords(name, extent, spans[1..])) + rest;
    if |spans| == 1 {
      assert EntriesOf(SpanRecords(name, extent, spans[1..])) + rest == rest;
      assert PiecesOf(extent, spans) == [piece];
    } else {
      JoinOne(name, extent, spans[1..], rest, begun + [piece]);
      assert begun + [piece] + PiecesOf(extent, spans[1..]) == begun + PiecesOf(extent, spans);
    }
  }

  /** What a reader should see of each entry. */
  function Seen(fs: seq<FileEntry>, places: map<nat, nat>): (r: seq<Named>)
    ensures |r| == |fs|
    ensures forall i | 0 <= i < |r| ::
            r[i] == NamedFile(fs[i].name, PiecesOf(At(places, fs[i].id), SpansFrom(0, fs[i].size)))
  {
    seq(|fs|, i requires 0 <= i < |fs| =>
      NamedFile(fs[i].name, PiecesOf(At(places, fs[i].id), SpansFrom(0, fs[i].size))))
  }

  lemma {:induction false} JoinAll(fs: seq<FileEntry>, places: map<nat, nat>, rest: seq<Entry>)
    ensures JoinFiles(EntriesOf(FileRecords(fs, places)) + rest, []) == Seen(fs, places) + JoinFiles(rest, [])
    decreases |fs|
  {
    hide SpansFrom, SpanRecords, JoinFiles, PiecesOf, EntriesOf;
    if fs == [] {
      NoEntries(rest);
    } else {
      var n := |fs| - 1;
      var f, front := fs[n], fs[..n];
      var spans := SpansFrom(0, f.size);
      var last := SpanRecords(f.name, At(places, f.id), spans);
      EntriesAppend(FileRecords(front, places), last);
      Assoc(EntriesOf(FileRecords(front, places)), EntriesOf(last), rest);
      JoinAll(front, places, EntriesOf(last) + rest);
      JoinOne(f.name, At(places, f.id), spans, rest, []);
      assert [] + PiecesOf(At(places, f.id), spans) == PiecesOf(At(places, f.id), spans);
      var seen := NamedFile(f.name, PiecesOf(At(places, f.id), spans));
      assert Seen(fs, places) == Seen(front, places) + [seen];
      Assoc(Seen(front, places), [seen], JoinFiles(rest, []));
    }
  }

  lemma NoEntries(rest: seq<Entry>)
    ensures EntriesOf([]) + rest == rest
  {
  }

  lemma {:induction false} JoinSkips(a: seq<Entry>, b: seq<Entry>)
    requires forall e | e in a :: !IsRegular(e) || e.name.None?
    ensures JoinFiles(a + b, []) == JoinFiles(b, [])
  {
    if a == [] {
      assert a + b == b;
    } else {
      assert a[0] in a && (a + b)[1..] == a[1..] + b;
      JoinSkips(a[1..], b);
    }
  }

  lemma JoinFinds(ly: Layout, p: Path)
    requires p in ly.sorted
    ensures JoinFiles(EntriesOf(DirRecords(ly, p)), []) == Seen(ly.sorted[p].files, ly.places)
  {
    hide EntriesOf, RecordsOf, DotRecords, SubdirRecords, FileRecords, Seen;
    var d := ly.sorted[p];
    var dots, subs := EntriesOf(DotRecords(p, ly.sizes, ly.extents)),
        EntriesOf(SubdirRecords(p, d.subdirs, ly.sizes, ly.extents));
    var files := EntriesOf(FileRecords(d.files, ly.places));
    EntriesSplit(p, d, ly.sizes, ly.extents, ly.places);
    JoinSkips(dots, subs + files);
    JoinSkips(subs, files);
    JoinAll(d.files, ly.places, []);
    assert files + [] == files;
    assert Seen(d.files, ly.places) + JoinFiles([], []) == Seen(d.files, ly.places);
  }

  lemma SectorAligned(off: nat, extent: nat)
    requires off % SECTOR == 0
    ensures (extent + off / SECTOR) * SECTOR == extent * SECTOR + off
    ensures (off + MAX_EXTENT) % SECTOR == 0
  {
  }

  /** The pieces of a file, concatenated, are the file: also when it is larger than 4 GiB. */
  lemma {:induction false} PiecesReadBack(img: Bytes, extent: nat, data: Bytes, off: nat)
    requires Present(img, extent, data) && off <= |data| && off % SECTOR == 0
    ensures ReadPieces(img, PiecesOf(extent, SpansFrom(off, |data|))) == Some(data[off..])
    decreases |data| - off
  {
    hide SpansFrom;
    SpansStep(off, |data|);
    SectorAligned(off, extent);
    var spans := SpansFrom(off, |data|);
    var len := spans[0].len;
    SliceOfSlice(img, extent * SECTOR, extent * SECTOR + |data|, off, off + len);
    assert Extent(img, extent + off / SECTOR, len) == Some(data[off..off + len]);
    if |data| - off <= MAX_EXTENT {
      assert spans[1..] == [];
      assert data[off..off + len] + [] == data[off..];
    } else {
      PiecesReadBack(img, extent, data, off + MAX_EXTENT);
      assert spans[1..] == SpansFrom(off + MAX_EXTENT, |data|);
      assert data[off..off + len] + data[off + len..] == data[off..];
    }
  }
}
