/**
 Model of cpioWriter in internal/purefs/initrdoverlay.go against a reader of the newc cpio format.
 Names are clean relative paths, as every caller passes them.
 */
module Cpio {
  import opened Basics
  import opened Codec
  import opened Seqs
  import opened Paths

  // ---------- hexadecimal fields ----------

  function HexDigit(d: nat): byte
    requires d < 16
  {
    if d < 10 then 48 + d else 55 + d
  }

  /** fmt's %0wX: at least `w` digits, more when the value needs them. */
  function Hex(v: nat, w: nat): Bytes
    decreases v, w
  {
    if v == 0 && w == 0 then [] else Hex(v / 16, if w == 0 then 0 else w - 1) + [HexDigit(v % 16)]
  }

  function Pow16(n: nat): nat {
    if n == 0 then 1 else 16 * Pow16(n - 1)
  }

  function HexValue(c: byte): Option<nat> {
    if 48 <= c <= 57 then Some((c - 48) as nat)
    else if 65 <= c <= 70 then Some((c - 55) as nat)
    else if 97 <= c <= 102 then Some((c - 87) as nat)
    else None
  }

  function Unhex(s: Bytes): Option<nat> {
    if s == [] then Some(0) else
    var front, d := Unhex(s[..|s| - 1]), HexValue(s[|s| - 1]);
    if front.None? || d.None? then None else Some(16 * front.value + d.value)
  }

  lemma {:induction false} HexReadsBack(v: nat, w: nat)
    requires v < Pow16(w)
    ensures |Hex(v, w)| == w && Unhex(Hex(v, w)) == Some(v)
    decreases w
  {
    if w > 0 {
      HexReadsBack(v / 16, w - 1);
      var h := Hex(v, w);
      assert h[..|h| - 1] == Hex(v / 16, w - 1);
    }
  }

  lemma Pow16Of8()
    ensures Pow16(8) == U32
  {
    assert Pow16(4) == 0x1_0000;
    assert Pow16(5) == 0x10_0000 && Pow16(6) == 0x100_0000 && Pow16(7) == 0x1000_0000;
  }

  // ---------- entries ----------

  datatype Entry = Entry(name: Bytes, mode: nat, body: Bytes)

  const TRAILER: Bytes := [84, 82, 65, 73, 76, 69, 82, 33, 33, 33]

  function Pad4(n: nat): (p: nat)
    ensures (n + p) % 4 == 0 && p < 4
  {
    (4 - n % 4) % 4
  }

  const ZERO: Bytes := [48, 48, 48, 48, 48, 48, 48, 48]
  const ONE: Bytes := [48, 48, 48, 48, 48, 48, 48, 49]

  /** The header: magic, ino, mode, uid, gid, nlink, mtime, size, four device numbers, name size, check. */
  function Header(ino: nat, mode: nat, size: nat, nameSize: nat): Bytes {
    [48, 55, 48, 55, 48, 49] + Hex(ino, 8) + Hex(mode, 8) + (ZERO + ZERO + ONE + ZERO) + Hex(size, 8)
      + (ZERO + ZERO + ZERO + ZERO) + Hex(nameSize, 8) + ZERO
  }

  function HeaderAndName(ino: nat, e: Entry): Bytes {
    var h := Header(ino, e.mode, |e.body|, |e.name| + 1) + e.name + [0];
    h + Zeros(Pad4(|h|))
  }

  function Encode(ino: nat, e: Entry): Bytes {
    HeaderAndName(ino, e) + (e.body + Zeros(Pad4(|e.body|)))
  }

  /** Entries numbered from 1. */
  function EncodeAll(es: seq<Entry>): Bytes {
    if es == [] then [] else EncodeAll(es[..|es| - 1]) + Encode(|es|, es[|es| - 1])
  }

  /** The values that fit the eight digits of their fields. */
  ghost predicate Fits(ino: nat, e: Entry) {
    ino < U32 && e.mode < U32 && |e.body| < U32 && |e.name| + 1 < U32
  }

  // ---------- the reader ----------

  /** An entry as a reader finds it, with its inode number, owner and link count. */
  datatype Found = Found(entry: Entry, ino: nat, uid: nat, gid: nat, links: nat)

  /** One entry from the front of the archive, and what follows it. */
  function ReadEntry(b: Bytes): Option<(Found, Bytes)> {
    if |b| < 110 || b[..6] != [48, 55, 48, 55, 48, 49] then None else
    var mode, size, nameSize := Unhex(b[14..22]), Unhex(b[54..62]), Unhex(b[94..102]);
    var ino, uid, gid, links := Unhex(b[6..14]), Unhex(b[22..30]), Unhex(b[30..38]), Unhex(b[38..46]);
    if mode.None? || size.None? || nameSize.None? || nameSize.value == 0 then None else
    if ino.None? || uid.None? || gid.None? || links.None? then None else
    var nameEnd := 110 + nameSize.value;
    var start := nameEnd + Pad4(nameEnd);
    var end := start + size.value;
    if |b| < end + Pad4(size.value) then None else
    Some((Found(Entry(b[110..nameEnd - 1], mode.value, b[start..end]), ino.value, uid.value, gid.value, links.value),
          b[end + Pad4(size.value)..]))
  }

  /** Entries up to the trailer. */
  function ReadArchive(b: Bytes): Option<seq<Found>>
    decreases |b|
  {
    match ReadEntry(b)
    case None => None
    case Some((e, rest)) =>
      if e.entry.name == TRAILER then Some([])
      else if |rest| >= |b| then None
      else match ReadArchive(rest)
        case None => None
        case Some(es) => Some([e] + es)
  }

  lemma HeaderReadsBack(ino: nat, mode: nat, size: nat, nameSize: nat)
    requires ino < U32 && mode < U32 && size < U32 && nameSize < U32
    ensures var h := Header(ino, mode, size, nameSize);
            && |h| == 110 && h[..6] == [48, 55, 48, 55, 48, 49]
            && Unhex(h[6..14]) == Some(ino) && Unhex(h[22..30]) == Some(0) && Unhex(h[30..38]) == Some(0)
            && Unhex(h[38..46]) == Some(1)
            && Unhex(h[14..22]) == Some(mode) && Unhex(h[54..62]) == Some(size) && Unhex(h[94..102]) == Some(nameSize)
  {
    hide Hex, Unhex, Pow16;
    Pow16Of8();
    HexReadsBack(ino, 8);
    HexReadsBack(mode, 8);
    HexReadsBack(size, 8);
    HexReadsBack(nameSize, 8);
    ZeroAndOne();
    HeaderSlices(Hex(ino, 8), Hex(mode, 8), Hex(size, 8), Hex(nameSize, 8));
  }

  lemma ZeroAndOne()
    ensures Unhex(ZERO) == Some(0) && Unhex(ONE) == Some(1)
  {
    hide Pow16, Unhex;
    Pow16Of8();
    HexReadsBack(0, 8);
    HexReadsBack(1, 8);
    Digits();
  }

  lemma Digits()
    ensures Hex(0, 8) == ZERO && Hex(1, 8) == ONE
  {
    ZeroDigits(7);
    ZeroDigits(8);
    assert Hex(1, 8) == Hex(0, 7) + [49];
  }

  lemma {:induction false} ZeroDigits(w: nat)
    ensures Hex(0, w) == seq(w, _ => 48)
  {
    if w > 0 { ZeroDigits(w - 1); }
  }

  lemma HeaderSlices(ino: Bytes, mode: Bytes, size: Bytes, nameSize: Bytes)
    requires |ino| == |mode| == |size| == |nameSize| == 8
    ensures var h: Bytes := [48, 55, 48, 55, 48, 49] + ino + mode + (ZERO + ZERO + ONE + ZERO) + size
              + (ZERO + ZERO + ZERO + ZERO) + nameSize + ZERO;
            && |h| == 110 && h[..6] == [48, 55, 48, 55, 48, 49]
            && h[6..14] == ino && h[22..30] == h[30..38] == ZERO && h[38..46] == ONE
            && h[14..22] == mode && h[54..62] == size && h[94..102] == nameSize
  {
  }

  lemma EntryReadsBack(ino: nat, e: Entry, rest: Bytes)
    requires Fits(ino, e)
    ensures ReadEntry(Encode(ino, e) + rest) == Some((Found(e, ino, 0, 0, 1), rest)) && |Encode(ino, e)| > 0
  {
    hide Unhex, Header;
    var h := Header(ino, e.mode, |e.body|, |e.name| + 1);
    HeaderReadsBack(ino, e.mode, |e.body|, |e.name| + 1);
    EntrySlices(h, e.name, e.body, rest);
    var b := Encode(ino, e) + rest;
    forall i, j | 0 <= i <= j <= 110 ensures b[i..j] == h[i..j] { SliceInPrefix(h, b, i, j); }
  }

  /** Where the parts of an entry sit. */
  lemma EntrySlices(h: Bytes, name: Bytes, body: Bytes, rest: Bytes)
    requires |h| == 110
    ensures var n := 110 + |name| + 1;
            var front := h + name + [0];
            var b := front + Zeros(Pad4(|front|)) + (body + Zeros(Pad4(|body|))) + rest;
            var start := n + Pad4(n);
            && h <= b && |b| >= start + |body| + Pad4(|body|)
            && b[..6] == h[..6] && b[110..n - 1] == name && b[start..start + |body|] == body
            && b[start + |body| + Pad4(|body|)..] == rest
  {
    var n := 110 + |name| + 1;
    var front := h + name + [0];
    var head := front + Zeros(Pad4(n));
    var tail := body + Zeros(Pad4(|body|));
    var b := head + tail + rest;
    assert front[110..n - 1] == name;
    SliceInPrefix(front, b, 110, n - 1);
    Middle(head, tail, rest);
    SliceOfSlice(b, |head|, |head| + |tail|, 0, |body|);
    assert tail[..|body|] == body;
  }

  /** Entries found in a row, the first with number `n`: all are root's, with one link. */
  function Numbered(es: seq<Entry>, n: nat): (r: seq<Found>)
    ensures |r| == |es| && forall i | 0 <= i < |r| :: r[i] == Found(es[i], n + i, 0, 0, 1)
  {
    seq(|es|, i requires 0 <= i < |es| => Found(es[i], n + i, 0, 0, 1))
  }

  /** The entries before the first one called like the trailer. */
  function UpToTrailer(es: seq<Entry>): (r: seq<Entry>)
    ensures |r| <= |es| && forall i | 0 <= i < |r| :: r[i] == es[i]
  {
    if es == [] || es[0].name == TRAILER then [] else [es[0]] + UpToTrailer(es[1..])
  }

  lemma {:induction false} AllUpToTrailer(es: seq<Entry>)
    ensures UpToTrailer(es) == es <==> forall e | e in es :: e.name != TRAILER
  {
    if es != [] {
      AllUpToTrailer(es[1..]);
      assert es == [es[0]] + es[1..] && es[0] in es;
    }
  }

  lemma {:induction false} ArchiveReadsFrom(es: seq<Entry>, k: nat, pad: Bytes) returns (rest: Bytes)
    requires k <= |es| && |es| + 1 < U32 && forall i | 0 <= i < |es| :: Fits(i + 1, es[i])
    ensures EncodeAll(es) + Encode(|es| + 1, Entry(TRAILER, 0, [])) + pad == EncodeAll(es[..k]) + rest
    ensures ReadArchive(rest) == Some(Numbered(UpToTrailer(es[k..]), k + 1))
    decreases |es| - k
  {
    hide Encode, ReadEntry, ReadArchive, Fits, UpToTrailer, Numbered;
    var trailer := Entry(TRAILER, 0, []);
    if k == |es| {
      assert es[..k] == es;
      rest := Encode(k + 1, trailer) + pad;
      assert Fits(k + 1, trailer) by { TrailerFits(k + 1); }
      EntryReadsBack(k + 1, trailer, pad);
      ReadsTrailer(rest, k + 1, pad);
      Assoc(EncodeAll(es), Encode(k + 1, trailer), pad);
      assert es[k..] == [];
    } else {
      var more := ArchiveReadsFrom(es, k + 1, pad);
      rest := Encode(k + 1, es[k]) + more;
      assert es[..k + 1][..k] == es[..k] && |es[..k + 1]| == k + 1;
      Assoc(EncodeAll(es[..k]), Encode(k + 1, es[k]), more);
      EntryReadsBack(k + 1, es[k], more);
      ReadsNext(rest, k + 1, es[k], more, es[k + 1..]);
      assert es[k..] == [es[k]] + es[k + 1..];
    }
  }

  lemma ReadsTrailer(b: Bytes, ino: nat, more: Bytes)
    requires ReadEntry(b) == Some((Found(Entry(TRAILER, 0, []), ino, 0, 0, 1), more))
    ensures ReadArchive(b) == Some(Numbered(UpToTrailer([]), ino))
  {
    hide ReadEntry;
  }

  lemma ReadsNext(b: Bytes, ino: nat, e: Entry, more: Bytes, es: seq<Entry>)
    requires ReadEntry(b) == Some((Found(e, ino, 0, 0, 1), more)) && |more| < |b|
    requires ReadArchive(more) == Some(Numbered(UpToTrailer(es), ino + 1))
    ensures ReadArchive(b) == Some(Numbered(UpToTrailer([e] + es), ino))
  {
    hide *;
    ArchiveStep(b, Found(e, ino, 0, 0, 1), more);
    StepUpToTrailer(e, es);
    NumberedStep(e, UpToTrailer(es), ino);
  }

  lemma NumberedStep(e: Entry, es: seq<Entry>, n: nat)
    ensures Numbered([e] + es, n) == [Found(e, n, 0, 0, 1)] + Numbered(es, n + 1) && Numbered([], n) == []
  {
  }

  lemma ArchiveStep(b: Bytes, f: Found, more: Bytes)
    requires ReadEntry(b) == Some((f, more)) && |more| < |b| && ReadArchive(more).Some?
    ensures ReadArchive(b) == Some(if f.entry.name == TRAILER then [] else [f] + ReadArchive(more).value)
  {
    hide ReadEntry;
  }

  lemma StepUpToTrailer(e: Entry, es: seq<Entry>)
    ensures UpToTrailer([e] + es) == if e.name == TRAILER then [] else [e] + UpToTrailer(es)
  {
    assert ([e] + es)[1..] == es;
  }

  lemma TrailerFits(ino: nat)
    requires ino < U32
    ensures Fits(ino, Entry(TRAILER, 0, []))
  {
  }

  /** Reading a finished archive returns the written entries, in order, up to the first one that is
      called like the trailer: all of them exactly when there is none. */
  lemma ArchiveReadsBack(es: seq<Entry>, pad: Bytes)
    requires |es| + 1 < U32 && forall i | 0 <= i < |es| :: Fits(i + 1, es[i])
    ensures ReadArchive(EncodeAll(es) + Encode(|es| + 1, Entry(TRAILER, 0, [])) + pad)
         == Some(Numbered(UpToTrailer(es), 1))
    ensures UpToTrailer(es) == es <==> forall e | e in es :: e.name != TRAILER
  {
    hide Encode, ReadArchive, UpToTrailer;
    AllUpToTrailer(es);
    var rest := ArchiveReadsFrom(es, 0, pad);
    assert es[..0] == [] && es[0..] == es;
    assert EncodeAll([]) + rest == rest;
  }

  lemma EncodeAligned(ino: nat, e: Entry)
    ensures |Encode(ino, e)| % 4 == 0
  {
    hide Header, Pad4, Zeros;
    var h := Header(ino, e.mode, |e.body|, |e.name| + 1) + e.name + [0];
    BothAligned(|h| + Pad4(|h|), |e.body| + Pad4(|e.body|));
  }

  lemma BothAligned(m: nat, n: nat)
    requires m % 4 == 0 && n % 4 == 0
    ensures (m + n) % 4 == 0
  {
  }

  // ---------- the writer ----------

  const DIR_MODE: nat := 0x41ED
  const LINK_MODE: nat := 0xA1FF

  /** An archive member by path. */
  datatype Member = Dir(path: Path) | Leaf(path: Path, mode: nat, body: Bytes)

  function EntryOf(m: Member): Entry {
    match m
    case Dir(p) => Entry(Join(p), DIR_MODE, [])
    case Leaf(p, mode, body) => Entry(Join(p), mode, body)
  }

  function EntriesOf(ms: seq<Member>): (r: seq<Entry>)
    ensures |r| == |ms| && forall i | 0 <= i < |r| :: r[i] == EntryOf(ms[i])
  {
    if ms == [] then [] else EntriesOf(ms[..|ms| - 1]) + [EntryOf(ms[|ms| - 1])]
  }

  /** Every ancestor of a member is a directory entry before it, and no directory appears twice. */
  ghost predicate Ordered(ms: seq<Member>) {
    forall j | 0 <= j < |ms| :: InPlace(ms, j)
  }

  ghost predicate InPlace(ms: seq<Member>, j: nat)
    requires j < |ms|
  {
    && (ms[j].Dir? ==> ms[j] !in ms[..j])
    && forall k | 0 < k < |ms[j].path| :: Dir(ms[j].path[..k]) in ms[..j]
  }

  /** No body or name reaches 4 GiB, and there are fewer than 2^32 entries. */
  ghost predicate Fitting(ms: seq<Member>) {
    |ms| + 1 < U32 && forall i | 0 <= i < |ms| :: Fits(i + 1, EntryOf(ms[i]))
  }

  ghost predicate NoTrailer(ms: seq<Member>) {
    forall i | 0 <= i < |ms| :: EntryOf(ms[i]).name != TRAILER
  }

  /** The directories at and above `p` that are not there yet, outermost first. */
  function Missing(dirs: set<Path>, p: Path): seq<Member> {
    if p == [] || p in dirs then [] else Missing(dirs, Parent(p)) + [Dir(p)]
  }

  class CpioWriter {
    var buf: Bytes
    var dirs: set<Path>
    var ino: nat
    /** What has been written. */
    ghost var members: seq<Member>

    ghost predicate Valid()
      reads this
    {
      && ino == |members| && buf == EncodeAll(EntriesOf(members)) && |buf| % 4 == 0
      && Ordered(members) && forall p :: p in dirs <==> Dir(p) in members
    }

    constructor ()
      ensures Valid() && members == []
    {
      buf, dirs, ino, members := [], {}, 0, [];
    }

    /** header, and the body with its padding: one entry at a 4-aligned position. */
    method Emit(e: Entry)
      requires |buf| % 4 == 0
      modifies this`buf, this`ino
      ensures ino == old(ino) + 1 && buf == old(buf) + Encode(ino, e) && |buf| % 4 == 0
    {
      hide Header, Encode, HeaderAndName;
      ino := ino + 1;
      buf := buf + Header(ino, e.mode, |e.body|, |e.name| + 1);
      buf := buf + e.name + [0];
      PadBuf();
      buf := buf + e.body;
      PadBuf();
      Emitted(old(buf), ino, e);
      EncodeAligned(ino, e);
    }

    /** pad4's loop. */
    method PadBuf()
      modifies this`buf
      ensures buf == old(buf) + Zeros(Pad4(|old(buf)|))
    {
      ghost var n := 0;
      assert buf == old(buf) + Zeros(0);
      while |buf| % 4 != 0
        invariant 0 <= n <= Pad4(|old(buf)|) && buf == old(buf) + Zeros(n)
        decreases Pad4(|old(buf)|) - n
      {
        assert Zeros(n) + [0] == Zeros(n + 1);
        buf, n := buf + [0], n + 1;
      }
    }

    /** One member, written after its ancestors. */
    method Append(m: Member)
      requires Valid() && (m.Dir? ==> m.path !in dirs) && forall k | 0 < k < |m.path| :: m.path[..k] in dirs
      modifies this
      ensures Valid() && members == old(members) + [m]
      ensures dirs == if m.Dir? then old(dirs) + {m.path} else old(dirs)
    {
      hide EncodeAll, Ordered, Encode, EntryOf, EntriesOf;
      OrderedSnoc(members, m);
      EncodeSnoc(members, m);
      Emit(EntryOf(m));
      if m.Dir? { dirs := dirs + {m.path}; }
      members := members + [m];
    }

    /** mkdirAll. */
    method MkdirAll(p: Path)
      requires Valid()
      modifies this
      ensures Valid() && members == old(members) + Missing(old(dirs), p)
      ensures old(dirs) <= dirs && (p != [] ==> p in dirs) && forall q | q in dirs && q !in old(dirs) :: q <= p
      decreases |p|
    {
      hide EncodeAll, Ordered;
      if p == [] || p in dirs { return; }
      MkdirAll(p[..|p| - 1]);
      Ancestors(this, p);
      Append(Dir(p));
    }

    method File(p: Path, mode: bv32, body: Bytes)
      requires Valid() && p != []
      modifies this
      ensures Valid() && members == old(members) + Missing(old(dirs), Parent(p))
              + [Leaf(p, (mode | 0x8000) as nat, body)]
      ensures mode < 0x1000 ==> (mode | 0x8000) as nat == 8 * 4096 + mode as nat
    {
      Put(p, (mode | 0x8000) as nat, body);
    }

    method Symlink(p: Path, target: Bytes)
      requires Valid() && p != []
      modifies this
      ensures Valid() && members == old(members) + Missing(old(dirs), Parent(p))
              + [Leaf(p, 10 * 4096 + 7 * 64 + 7 * 8 + 7, target)]
    {
      Put(p, LINK_MODE, target);
    }

    /** What file and symlink share: the parents, then the entry. */
    method Put(p: Path, mode: nat, body: Bytes)
      requires Valid() && p != []
      modifies this
      ensures Valid() && members == old(members) + Missing(old(dirs), Parent(p)) + [Leaf(p, mode, body)]
    {
      hide EncodeAll, Ordered;
      MkdirAll(p[..|p| - 1]);
      Ancestors(this, p);
      Append(Leaf(p, mode, body));
    }

    /** finish: the trailer, then zeros to a multiple of 512.  A reader of the result finds the
        written entries, in order, up to the first that is called like the trailer. */
    method Finish() returns (b: Bytes)
      requires Valid()
      modifies this`buf, this`ino
      ensures |b| % 512 == 0
      ensures Fitting(members) ==> ReadsAs(b, members)
    {
      hide EncodeAll, Encode, ReadArchive, Ordered, Fitting, NoTrailer, UpToTrailer, ReadsAs;
      Emit(Entry(TRAILER, 0, []));
      ghost var whole := buf;
      PadTo512();
      b := buf;
      if Fitting(members) {
        FinishedReads(members, b[|whole|..]);
        assert b == whole + b[|whole|..];
      }
    }

    method PadTo512()
      modifies this`buf
      ensures old(buf) <= buf && |buf| % 512 == 0
    {
      ghost var left := (512 - |buf| % 512) % 512;
      while |buf| % 512 != 0
        invariant old(buf) <= buf && left >= 0 && (|buf| + left) % 512 == 0
        decreases left
      {
        buf, left := buf + [0], left - 1;
      }
    }
  }

  /** What a reader of a finished archive finds: the members' entries, numbered from 1, up to the first
      that is called like the trailer, by path; a directory has mode 0o40755 and no body. */
  ghost predicate ReadsAs(b: Bytes, ms: seq<Member>) {
    var es := UpToTrailer(EntriesOf(ms));
    && ReadArchive(b) == Some(Numbered(es, 1)) && (es == EntriesOf(ms) <==> NoTrailer(ms))
    && forall i | 0 <= i < |es| ::
         && es[i].name == Join(ms[i].path)
         && (if ms[i].Dir? then es[i].mode == 4 * 4096 + 7 * 64 + 5 * 8 + 5 && es[i].body == []
             else es[i].mode == ms[i].mode && es[i].body == ms[i].body)
  }

  lemma FinishedReads(ms: seq<Member>, pad: Bytes)
    requires Fitting(ms)
    ensures ReadsAs(EncodeAll(EntriesOf(ms)) + Encode(|ms| + 1, Entry(TRAILER, 0, [])) + pad, ms)
  {
    hide *;
    FittingEntries(ms);
    ArchiveReadsBack(EntriesOf(ms), pad);
    NoneIsTrailer(ms);
    DirsRead(EncodeAll(EntriesOf(ms)) + Encode(|ms| + 1, Entry(TRAILER, 0, [])) + pad, ms);
  }

  lemma FittingEntries(ms: seq<Member>)
    requires Fitting(ms)
    ensures |ms| + 1 < U32 && forall i | 0 <= i < |EntriesOf(ms)| :: Fits(i + 1, EntriesOf(ms)[i])
  {
    hide Fits, EntryOf;
  }

  lemma DirsRead(b: Bytes, ms: seq<Member>)
    requires ReadArchive(b) == Some(Numbered(UpToTrailer(EntriesOf(ms)), 1))
    requires UpToTrailer(EntriesOf(ms)) == EntriesOf(ms) <==> NoTrailer(ms)
    ensures ReadsAs(b, ms)
  {
    hide ReadArchive, Numbered, UpToTrailer, NoTrailer, Join;
  }

  lemma NoneIsTrailer(ms: seq<Member>)
    ensures NoTrailer(ms) <==> forall e | e in EntriesOf(ms) :: e.name != TRAILER
  {
    hide EntryOf;
    var es := EntriesOf(ms);
    if NoTrailer(ms) {
      forall e | e in es ensures e.name != TRAILER {
        var i :| 0 <= i < |es| && es[i] == e;
        assert EntryOf(ms[i]).name != TRAILER;
      }
    } else {
      var i :| 0 <= i < |ms| && EntryOf(ms[i]).name == TRAILER;
      assert es[i] in es;
    }
  }

  /** Once the parent is listed, so are all ancestors. */
  lemma Ancestors(w: CpioWriter, p: Path)
    requires w.Valid() && p != [] && (|p| > 1 ==> p[..|p| - 1] in w.dirs)
    ensures forall k | 0 < k < |p| :: p[..k] in w.dirs
  {
    hide EncodeAll, Ordered;
    DirAncestors(w.members, p);
  }

  /** Padding counted from the start of the archive is padding counted from the entry. */
  lemma PadShift(m: nat, n: nat)
    requires m % 4 == 0
    ensures Pad4(m + n) == Pad4(n) && (m + n + Pad4(n)) % 4 == 0
  {
  }

  lemma Emitted(buf: Bytes, ino: nat, e: Entry)
    requires |buf| % 4 == 0
    ensures var h := Header(ino, e.mode, |e.body|, |e.name| + 1);
            var a := buf + h + e.name + [0];
            var b := a + Zeros(Pad4(|a|)) + e.body;
            b + Zeros(Pad4(|b|)) == buf + Encode(ino, e)
    ensures var h := Header(ino, e.mode, |e.body|, |e.name| + 1); buf + h + (e.name + [0]) == buf + h + e.name + [0]
  {
    hide Header, Pad4;
    var n := Header(ino, e.mode, |e.body|, |e.name| + 1) + e.name + [0];
    PadShift(|buf|, |n|);
    PadShift(|buf| + |n| + Pad4(|n|), |e.body|);
    Regroup(buf, n, Zeros(Pad4(|n|)), e.body, Zeros(Pad4(|e.body|)));
    assert buf + Header(ino, e.mode, |e.body|, |e.name| + 1) + e.name + [0] == buf + n;
  }

  lemma Regroup(buf: Bytes, n: Bytes, z: Bytes, body: Bytes, y: Bytes)
    ensures buf + n + z + body + y == buf + (n + z + (body + y))
  {
  }

  lemma OrderedSnoc(ms: seq<Member>, m: Member)
    requires Ordered(ms) && (m.Dir? ==> m !in ms) && forall k | 0 < k < |m.path| :: Dir(m.path[..k]) in ms
    ensures Ordered(ms + [m])
  {
    var all := ms + [m];
    assert all[..|ms|] == ms;
    forall j | 0 <= j < |all| ensures InPlace(all, j) {
      if j < |ms| { assert InPlace(ms, j) && all[..j] == ms[..j] && all[j] == ms[j]; }
    }
  }

  lemma EncodeSnoc(ms: seq<Member>, m: Member)
    ensures EncodeAll(EntriesOf(ms + [m])) == EncodeAll(EntriesOf(ms)) + Encode(|ms| + 1, EntryOf(m))
  {
    hide Encode, EntryOf;
    assert (ms + [m])[..|ms|] == ms;
    var es := EntriesOf(ms) + [EntryOf(m)];
    assert EntriesOf(ms + [m]) == es && es[..|ms|] == EntriesOf(ms);
  }

  /** The ancestors of a listed directory are listed. */
  lemma Listed(ms: seq<Member>, p: Path, k: nat)
    requires Ordered(ms) && Dir(p) in ms && 0 < k <= |p|
    ensures Dir(p[..k]) in ms
  {
    var j :| 0 <= j < |ms| && ms[j] == Dir(p);
    assert InPlace(ms, j);
    if k == |p| { assert p[..k] == p; } else { assert Dir(p[..k]) in ms[..j]; }
  }

  lemma DirAncestors(ms: seq<Member>, p: Path)
    requires Ordered(ms) && p != [] && (|p| > 1 ==> Dir(p[..|p| - 1]) in ms)
    ensures forall k | 0 < k < |p| :: Dir(p[..k]) in ms
  {
    forall k | 0 < k < |p| ensures Dir(p[..k]) in ms {
      Listed(ms, p[..|p| - 1], k);
      assert p[..|p| - 1][..k] == p[..k];
    }
  }

  /** Two files, the first called TRAILER!!!: a reader of the finished archive finds neither. */
  method TrailerHidesAll() returns (w: CpioWriter, b: Bytes)
    ensures w.members == [Leaf([TRAILER], 0x8000, []), Leaf([[97]], 0x8000, [])]
    ensures ReadArchive(b) == Some([])
  {
    hide ReadArchive, EncodeAll, Ordered;
    w := new CpioWriter();
    w.File([TRAILER], 0, []);
    w.File([[97]], 0, []);
    b := w.Finish();
    assert EntriesOf(w.members)[0] == Entry(TRAILER, 0x8000, []);
  }
}
