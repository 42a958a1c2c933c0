/**
 Model of the second half of WriteErofs in internal/purefs/erofs.go: payloads, block layout, the
 emitted bytes, and a reader of the image as their specification.
 */
module ErofsImage {
  import opened Basics
  import opened Codec
  import opened Seqs
  import opened SortNames
  import opened Dirents
  import opened ErofsTree

  const SUPER: nat := 1024
  const SLOT: nat := 32
  const MAGIC: nat := 0xe0f5e1e2

  function BlocksFor(n: nat): nat {
    (n + BLOCK - 1) / BLOCK
  }

  // ---------- directory entry lists ----------

  function FileType(t: NodeType): byte {
    match t
    case File => 1
    case Dir => 2
    case Char => 3
    case Block => 4
    case Fifo => 5
    case Symlink => 7
    case Hardlink => 0
  }

  /** The entry a directory row has under a name, "." and ".." included. */
  function EntryNamed(t: seq<Inode>, i: nat, name: Name): Dirent
    requires i < |t| && ChildrenInRange(t) && (name == DOT || name == DOTDOT || name in t[i].children)
  {
    if name == DOT then Dirent(DOT, i, 2)
    else if name == DOTDOT then Dirent(DOTDOT, t[i].parent, 2)
    else Dirent(name, t[i].children[name], FileType(t[t[i].children[name]].node.typ))
  }

  /** The sorted entry list of a directory row. */
  ghost predicate IsListing(t: seq<Inode>, i: nat, list: seq<Dirent>)
    requires i < |t| && ChildrenInRange(t)
  {
    && Sorted(NamesIn(list))
    && (forall name :: name in NamesIn(list) <==> name == DOT || name == DOTDOT || name in t[i].children)
    && (forall e | e in list :: IsEntry(t, i, e))
  }

  ghost predicate IsEntry(t: seq<Inode>, i: nat, e: Dirent)
    requires i < |t| && ChildrenInRange(t)
  {
    (e.name == DOT || e.name == DOTDOT || e.name in t[i].children) && e == EntryNamed(t, i, e.name)
  }

  function NamesIn(list: seq<Dirent>): (r: seq<Name>)
    ensures |r| == |list| && forall k | 0 <= k < |r| :: r[k] == list[k].name
  {
    if list == [] then [] else [list[0].name] + NamesIn(list[1..])
  }

  /** The names a directory row lists, in order. */
  ghost function ListedNames(r: Inode): (names: seq<Name>)
    ensures Sorted(names) && forall x :: x in names <==> x == DOT || x == DOTDOT || x in r.children
  {
    SortedNames(r.children.Keys + {DOT, DOTDOT})
  }

  /** The one listing of a directory row. */
  ghost function ListingOf(t: seq<Inode>, i: nat): (list: seq<Dirent>)
    requires i < |t| && ChildrenInRange(t)
    ensures |list| == |ListedNames(t[i])|
    ensures forall k | 0 <= k < |list| :: IsNamed(t, i, ListedNames(t[i])[k], list[k])
  {
    var names := ListedNames(t[i]);
    assert forall k | 0 <= k < |names| :: names[k] in names;
    seq(|names|, k requires 0 <= k < |names| => EntryNamed(t, i, names[k]))
  }

  ghost predicate IsNamed(t: seq<Inode>, i: nat, name: Name, e: Dirent)
    requires i < |t| && ChildrenInRange(t)
  {
    (name == DOT || name == DOTDOT || name in t[i].children) && e == EntryNamed(t, i, name)
  }

  lemma ListingIs(t: seq<Inode>, i: nat)
    requires i < |t| && ChildrenInRange(t)
    ensures IsListing(t, i, ListingOf(t, i)) && NamesIn(ListingOf(t, i)) == ListedNames(t[i])
  {
    hide ListingOf, ChildrenInRange, FileType;
    var list, names := ListingOf(t, i), ListedNames(t[i]);
    forall k | 0 <= k < |list| ensures list[k].name == names[k] && IsEntry(t, i, list[k]) {
      assert IsNamed(t, i, names[k], list[k]);
      NewEntry(t, i, names[k]);
    }
    assert NamesIn(list) == names;
  }

  method Listing(t: seq<Inode>, i: nat) returns (list: seq<Dirent>)
    requires i < |t| && ChildrenInRange(t)
    ensures list == ListingOf(t, i)
  {
    hide ChildrenInRange, FileType, SortedNames, ListingOf;
    var names := SortSet(t[i].children.Keys + {DOT, DOTDOT});
    list := [];
    for k := 0 to |names|
      invariant |list| == k && forall m | 0 <= m < k :: IsNamed(t, i, names[m], list[m])
    {
      assert names[k] in names;
      list := list + [EntryNamed(t, i, names[k])];
    }
    forall k | 0 <= k < |list| ensures list[k] == ListingOf(t, i)[k] {
      assert IsNamed(t, i, names[k], list[k]) && IsNamed(t, i, ListedNames(t[i])[k], ListingOf(t, i)[k]);
    }
  }

  lemma NewEntry(t: seq<Inode>, i: nat, name: Name)
    requires i < |t| && ChildrenInRange(t) && (name == DOT || name == DOTDOT || name in t[i].children)
    ensures IsEntry(t, i, EntryNamed(t, i, name)) && EntryNamed(t, i, name).name == name
  {
  }

  /** The reader's scan of a directory for one name. */
  function Find(list: seq<Dirent>, name: Name): Option<nat> {
    if list == [] then None else if list[0].name == name then Some(list[0].nid) else Find(list[1..], name)
  }

  lemma {:induction false} FindHit(list: seq<Dirent>, name: Name)
    ensures if name in NamesIn(list) then exists e :: e in list && e.name == name && Find(list, name) == Some(e.nid)
            else Find(list, name) == None
  {
    if list != [] {
      if list[0].name == name {
        assert list[0] in list && NamesIn(list)[0] == name;
      } else {
        FindHit(list[1..], name);
      }
    }
  }

  lemma FindInListing(t: seq<Inode>, i: nat, list: seq<Dirent>, name: Name)
    requires i < |t| && ChildrenInRange(t) && IsListing(t, i, list) && name != DOT && name != DOTDOT
    ensures Find(list, name) == if name in t[i].children then Some(t[i].children[name]) else None
  {
    FindHit(list, name);
  }

  // ---------- payloads ----------

  /** What follows an inode: its exact size, and the bytes written for it. */
  datatype Payload = Payload(size: nat, body: Bytes)

  /** Directory bytes are written padded to whole blocks while their size is exact; a file's and a
      symlink's bytes are exactly their size. */
  ghost predicate PayloadOk(p: Payload) {
    && p.size <= |p.body| < p.size + BLOCK
    && (|p.body| == p.size || |p.body| % BLOCK == 0)
  }

  function Chunk(p: Payload): (b: Bytes)
  {
    if p.size == 0 then [] else p.body + Zeros((BLOCK - |p.body| % BLOCK) % BLOCK)
  }

  lemma ChunkLength(p: Payload)
    requires PayloadOk(p)
    ensures |Chunk(p)| == BLOCK * BlocksFor(p.size)
    ensures p.size <= |Chunk(p)| && Chunk(p)[..p.size] == p.body[..p.size]
  {
    hide BlocksFor;
    NoBlocks();
    BlocksNeeded(|p.body|, p.size);
  }

  /** Rounding up a length that is the size, or the whole blocks the size needs. */
  lemma BlocksNeeded(b: nat, size: nat)
    requires size <= b < size + BLOCK && (b == size || b % BLOCK == 0)
    ensures b + (BLOCK - b % BLOCK) % BLOCK == BLOCK * BlocksFor(size)
  {
    var q, r := b / BLOCK, b % BLOCK;
    assert b == BLOCK * q + r;
    if r == 0 {
      assert BLOCK * q <= size + BLOCK - 1 < BLOCK * (q + 1);
      Quotient(size + BLOCK - 1, q);
    } else {
      Quotient(size + BLOCK - 1, q + 1);
    }
  }

  lemma Quotient(n: nat, q: nat)
    requires BLOCK * q <= n < BLOCK * (q + 1)
    ensures n / BLOCK == q
  {
  }

  // ---------- the reader of an image ----------

  datatype Stat = Stat(mode: nat, nlink: nat, size: nat, raw: nat, ino: nat, uid: nat, gid: nat)

  /** The file type in the upper bits of a mode, S_IFMT. */
  function TypeOf(mode: nat): Option<NodeType> {
    match mode / 4096
    case 1 => Some(Fifo)
    case 2 => Some(Char)
    case 4 => Some(Dir)
    case 6 => Some(NodeType.Block)
    case 8 => Some(File)
    case 10 => Some(Symlink)
    case _ => None
  }

  /** The file type a directory entry announces. */
  function DirentType(ft: byte): Option<NodeType> {
    match ft
    case 1 => Some(File)
    case 2 => Some(Dir)
    case 3 => Some(Char)
    case 4 => Some(NodeType.Block)
    case 5 => Some(Fifo)
    case 7 => Some(Symlink)
    case _ => None
  }

  /** The inode `nid`, found through the superblock's meta block address: a compact one, its data flat
      and uncompressed, without xattrs. */
  function StatAt(img: Bytes, nid: nat): Option<Stat> {
    if |img| < SUPER + 128 then None else
    var off := Field(img, SUPER + 40, 4) * BLOCK + nid * SLOT;
    if |img| < off + SLOT || Field(img, off, 4) != 0 then None
    else Some(StatOf(img[off..off + SLOT]))
  }

  function StatOf(s: Bytes): Stat
    requires |s| == SLOT
  {
    Stat(Field(s, 4, 2), Field(s, 6, 2), Field(s, 8, 4), Field(s, 16, 4), Field(s, 20, 4),
         Field(s, 24, 2), Field(s, 26, 2))
  }

  /** The bytes of a flat inode: `size` bytes from its block address on. */
  function BodyOf(img: Bytes, st: Stat): Option<Bytes> {
    if st.size == 0 then Some([])
    else if |img| < st.raw * BLOCK + st.size then None
    else Some(img[st.raw * BLOCK..st.raw * BLOCK + st.size])
  }

  /** The nid a name has in directory `nid`. */
  function FindAt(img: Bytes, nid: nat, name: Name): Option<nat> {
    match StatAt(img, nid)
    case None => None
    case Some(st) =>
      if TypeOf(st.mode) != Some(Dir) || BodyOf(img, st).None? then None else
      var list := DecodeDir(BodyOf(img, st).value);
      if list.None? then None else Find(list.value, name)
  }

  /** Resolving a path through the emitted directories, from the superblock's root nid. */
  function ReadPath(img: Bytes, p: Path): Option<nat>
    decreases |p|
  {
    if p == [] then (if |img| < SUPER + 128 then None else Some(Field(img, SUPER + 14, 2))) else
    match ReadPath(img, Parent(p))
    case None => None
    case Some(d) => FindAt(img, d, p[|p| - 1])
  }

  // ---------- the emitted bytes ----------

  function ModeOf(n: Node): nat {
    match n.typ
    case Dir => n.mode % 4096 + 0x4000
    case File => n.mode % 4096 + 0x8000
    case Symlink => 0xA1FF
    case Char => n.mode % 4096 + 0x2000
    case Block => n.mode % 4096 + 0x6000
    case Fifo => n.mode % 4096 + 0x1000
    case Hardlink => n.mode % 4096
  }

  /** The kernel's new_encode_dev. */
  function Rdev(n: Node): bv32 {
    (n.devmajor << 8) | (n.devminor & 0xff) | ((n.devminor & !0xff) << 12)
  }

  function RawOf(n: Node, addr: nat): nat {
    if n.typ == Char || n.typ == Block then Rdev(n) as nat else addr % U32
  }

  function Slot(r: Inode, nid: nat, size: nat, addr: nat): (b: Bytes)
    ensures |b| == SLOT
  {
    Zeros(4) + LE(ModeOf(r.node), 2) + LE(r.nlink % 0x1_0000, 2) + LE(size, 4) + Zeros(4) + LE(RawOf(r.node, addr), 4)
      + LE((nid + 1) % U32, 4) + LE(r.node.uid % 0x1_0000, 2) + LE(r.node.gid % 0x1_0000, 2) + Zeros(4)
  }

  /** The superblock's block: "tunaos-live" is the volume name. */
  function SuperBlock(n: nat, total: nat, buildTime: nat): (b: Bytes)
    ensures |b| == BLOCK
  {
    Zeros(SUPER) + LE(MAGIC, 4) + Zeros(8) + [12, 0] + LE(0, 2) + LE(n, 8) + LE(buildTime, 8) + Zeros(4)
      + LE(total % U32, 4) + LE(1, 4) + Zeros(20) + [116, 117, 110, 97, 111, 115, 45, 108, 105, 118, 101] + Zeros(13)
      + [12] + Zeros(2983)
  }

  lemma SlotReadsBack(r: Inode, nid: nat, size: nat, addr: nat)
    requires size < U32
    ensures Field(Slot(r, nid, size, addr), 0, 4) == 0
    ensures StatOf(Slot(r, nid, size, addr))
         == Stat(ModeOf(r.node), r.nlink % 0x1_0000, size, RawOf(r.node, addr), (nid + 1) % U32,
             r.node.uid % 0x1_0000, r.node.gid % 0x1_0000)
  {
    hide LE, UnLE, Pow256;
    Widths();
    var s := Slot(r, nid, size, addr);
    UnLEofLE(ModeOf(r.node), 2);
    UnLEofLE(r.nlink % 0x1_0000, 2);
    UnLEofLE(size, 4);
    UnLEofLE(RawOf(r.node, addr), 4);
    UnLEofLE((nid + 1) % U32, 4);
    UnLEofLE(r.node.uid % 0x1_0000, 2);
    UnLEofLE(r.node.gid % 0x1_0000, 2);
    NoFormat();
    assert s[0..4] == Zeros(4);
    assert s[4..6] == LE(ModeOf(r.node), 2);
    assert s[6..8] == LE(r.nlink % 0x1_0000, 2);
    assert s[8..12] == LE(size, 4);
    assert s[16..20] == LE(RawOf(r.node, addr), 4);
    assert s[20..24] == LE((nid + 1) % U32, 4);
    assert s[24..26] == LE(r.node.uid % 0x1_0000, 2);
    assert s[26..28] == LE(r.node.gid % 0x1_0000, 2);
  }

  lemma NoFormat()
    ensures UnLE(Zeros(4)) == 0
  {
    assert Zeros(4) == [0, 0, 0, 0];
    assert UnLE([0]) == 0 && UnLE([0, 0]) == 0 && UnLE([0, 0, 0]) == 0;
  }

  /** Where a reader starts: the root nid and the inode table's address. */
  lemma SuperReadsBack(n: nat, total: nat, buildTime: nat, img: Bytes)
    requires SuperBlock(n, total, buildTime) <= img
    ensures Field(img, SUPER + 14, 2) == 0 && Field(img, SUPER + 40, 4) == 1
  {
    hide LE, UnLE, Pow256;
    Widths();
    var s := SuperBlock(n, total, buildTime);
    UnLEofLE(0, 2);
    UnLEofLE(1, 4);
    assert s[SUPER + 14..SUPER + 16] == LE(0, 2);
    assert s[SUPER + 40..SUPER + 44] == LE(1, 4);
    SliceInPrefix(s, img, SUPER + 14, SUPER + 16);
    SliceInPrefix(s, img, SUPER + 40, SUPER + 44);
  }

  /** Magic, block size, inode count and block count. */
  lemma SuperCounts(n: nat, total: nat, buildTime: nat, img: Bytes)
    requires SuperBlock(n, total, buildTime) <= img && n < 0x1_0000_0000_0000_0000
    ensures Field(img, SUPER, 4) == MAGIC && img[SUPER + 12] == 12 && img[SUPER + 88] == 12
    ensures buildTime < 0x1_0000_0000_0000_0000 ==> Field(img, SUPER + 24, 8) == buildTime
    ensures Field(img, SUPER + 16, 8) == n && Field(img, SUPER + 36, 4) == total % U32
  {
    hide LE, UnLE, Pow256;
    Widths();
    var s := SuperBlock(n, total, buildTime);
    UnLEofLE(MAGIC, 4);
    UnLEofLE(total % U32, 4);
    UnLEofLE(n, 8);
    if buildTime < 0x1_0000_0000_0000_0000 { UnLEofLE(buildTime, 8); }
    assert s[SUPER..SUPER + 4] == LE(MAGIC, 4) && s[SUPER + 12] == 12 && s[SUPER + 88] == 12;
    assert s[SUPER + 24..SUPER + 32] == LE(buildTime, 8);
    assert s[SUPER + 16..SUPER + 24] == LE(n, 8);
    assert s[SUPER + 36..SUPER + 40] == LE(total % U32, 4);
    SliceInPrefix(s, img, SUPER, SUPER + 4);
    SliceInPrefix(s, img, SUPER + 16, SUPER + 24);
    SliceInPrefix(s, img, SUPER + 24, SUPER + 32);
    SliceInPrefix(s, img, SUPER + 36, SUPER + 40);
  }

  /** The device number of a node survives when it fits the kernel's 12-bit major, 20-bit minor. */
  lemma RdevReadsBack(n: Node)
    requires n.devmajor < 0x1000 && n.devminor < 0x10_0000
    ensures (Rdev(n) >> 8) & 0xfff == n.devmajor
    ensures (Rdev(n) & 0xff) | ((Rdev(n) >> 12) & 0xfff00) == n.devminor
  {
  }

  lemma {:induction false} FlatSlots(ss: seq<Bytes>)
    requires forall s | s in ss :: |s| == SLOT
    ensures |Flat(ss)| == SLOT * |ss|
  {
    if ss != [] {
      var front := ss[..|ss| - 1];
      assert forall s | s in front :: s in ss;
      FlatSlots(front);
    }
  }

  /** Blocks taken by the first `i` payloads. */
  function BlocksBefore(sizes: seq<nat>, i: nat): nat
    requires i <= |sizes|
  {
    if i == 0 then 0 else BlocksBefore(sizes, i - 1) + BlocksFor(sizes[i - 1])
  }

  function Sizes(ps: seq<Payload>): (r: seq<nat>)
    ensures |r| == |ps|
  {
    seq(|ps|, k requires 0 <= k < |ps| => ps[k].size)
  }

  function MetaBlocks(n: nat): nat {
    BlocksFor(n * SLOT)
  }

  /** Block address of payload `i`: block 0, the inode blocks, then the payloads in nid order. */
  function AddrOf(sizes: seq<nat>, i: nat): nat
    requires i <= |sizes|
  {
    1 + MetaBlocks(|sizes|) + BlocksBefore(sizes, i)
  }

  lemma NoBlocks()
    ensures BlocksFor(0) == 0
  {
  }

  method Layout(sizes: seq<nat>) returns (addrs: seq<nat>, total: nat)
    ensures |addrs| == |sizes| && total == AddrOf(sizes, |sizes|)
    ensures forall i | 0 <= i < |sizes| :: addrs[i] == if sizes[i] > 0 then AddrOf(sizes, i) else 0
  {
    hide BlocksFor, MetaBlocks;
    NoBlocks();
    var next := 1 + MetaBlocks(|sizes|);
    addrs := [];
    for i := 0 to |sizes|
      invariant |addrs| == i && next == AddrOf(sizes, i)
      invariant forall j | 0 <= j < i :: addrs[j] == if sizes[j] > 0 then AddrOf(sizes, j) else 0
    {
      if sizes[i] > 0 {
        addrs := addrs + [next];
        next := next + BlocksFor(sizes[i]);
      } else {
        addrs := addrs + [0];
      }
    }
    total := next;
  }

  ghost function SlotsOf(t: seq<Inode>, sizes: seq<nat>, addrs: seq<nat>, n: nat): (r: seq<Bytes>)
    requires n <= |t| == |sizes| == |addrs|
    ensures |r| == n && forall i | 0 <= i < n :: r[i] == Slot(t[i], i, sizes[i], addrs[i])
  {
    seq(n, i requires 0 <= i < n => Slot(t[i], i, sizes[i], addrs[i]))
  }

  lemma SlotsSnoc(t: seq<Inode>, sizes: seq<nat>, addrs: seq<nat>, n: nat)
    requires n < |t| == |sizes| == |addrs|
    ensures SlotsOf(t, sizes, addrs, n + 1) == SlotsOf(t, sizes, addrs, n) + [Slot(t[n], n, sizes[n], addrs[n])]
    ensures Flat(SlotsOf(t, sizes, addrs, n + 1)) == Flat(SlotsOf(t, sizes, addrs, n))
            + Slot(t[n], n, sizes[n], addrs[n])
    ensures |Flat(SlotsOf(t, sizes, addrs, n))| == SLOT * n
  {
    hide Slot, Flat;
    FlatSnoc(SlotsOf(t, sizes, addrs, n), Slot(t[n], n, sizes[n], addrs[n]));
    FlatSlots(SlotsOf(t, sizes, addrs, n));
  }

  lemma SlotsFit(n: nat)
    ensures SLOT * n <= MetaBlocks(n) * BLOCK < SLOT * n + BLOCK
  {
  }

  lemma AllZero(b: Bytes)
    requires forall i | 0 <= i < |b| :: b[i] == 0
    ensures b == Zeros(|b|)
  {
  }

  lemma HeadStarts(t: seq<Inode>, sizes: seq<nat>, addrs: seq<nat>, total: nat, buildTime: nat, room: nat, head: Bytes)
    requires |t| == |sizes| == |addrs|
    requires head == Replaced(Zeros(BLOCK + room), 0, SuperBlock(|t|, total, buildTime))
    ensures head == SuperBlock(|t|, total, buildTime) + Flat(SlotsOf(t, sizes, addrs, 0)) + Zeros(room - SLOT * 0)
  {
    hide SuperBlock, Flat;
    FlatNothing<byte>();
    assert SlotsOf(t, sizes, addrs, 0) == [];
    assert Zeros(BLOCK + room)[BLOCK..] == Zeros(room);
  }

  /** One slot over the first zeros. */
  lemma SlotPut(sup: Bytes, slots: Bytes, slot: Bytes, room: nat)
    requires |slot| <= room
    ensures var head, off := sup + slots + Zeros(room), |sup| + |slots|;
            Replaced(head, off, slot) == sup + (slots + slot) + Zeros(room - |slot|)
  {
    var head, off := sup + slots + Zeros(room), |sup| + |slots|;
    assert head[..off] == sup + slots && head[off + |slot|..] == Zeros(room - |slot|);
  }

  /** Superblock and inode table.  It refuses a size that a compact inode cannot hold. */
  method EmitHead(t: seq<Inode>, sizes: seq<nat>, addrs: seq<nat>, total: nat, buildTime: nat)
    returns (r: Option<Bytes>)
    requires |t| == |sizes| == |addrs|
    ensures r.None? <==> exists i :: 0 <= i < |sizes| && sizes[i] >= U32
    ensures r.Some? ==>
              && |r.value| == (1 + MetaBlocks(|t|)) * BLOCK
              && SuperBlock(|t|, total, buildTime) + Flat(SlotsOf(t, sizes, addrs, |t|)) <= r.value
  {
    hide SuperBlock, Slot, Flat, SlotsOf, MetaBlocks, Zeros, Replaced;
    SlotsFit(|t|);
    var room := MetaBlocks(|t|) * BLOCK;
    var head := new byte[BLOCK + room](_ => 0);
    AllZero(head[..]);
    PutBytes(head, 0, SuperBlock(|t|, total, buildTime));
    HeadStarts(t, sizes, addrs, total, buildTime, room, head[..]);
    for i := 0 to |t|
      invariant forall j | 0 <= j < i :: sizes[j] < U32
      invariant head[..] == SuperBlock(|t|, total, buildTime) + Flat(SlotsOf(t, sizes, addrs, i))
                + Zeros(room - SLOT * i)
    {
      if sizes[i] >= U32 { return None; }
      SlotsSnoc(t, sizes, addrs, i);
      ghost var sup, slots := SuperBlock(|t|, total, buildTime), Flat(SlotsOf(t, sizes, addrs, i));
      ghost var slot := Slot(t[i], i, sizes[i], addrs[i]);
      SlotPut(sup, slots, slot, room - SLOT * i);
      PutBytes(head, BLOCK + SLOT * i, Slot(t[i], i, sizes[i], addrs[i]));
    }
    r := Some(head[..]);
  }

  // ---------- sizes and payloads ----------

  /** The size of an inode and the bytes known before streaming; a file's come from the store. */
  ghost predicate SizedFor(t: seq<Inode>, i: nat, p: Payload)
    requires i < |t| && ChildrenInRange(t)
  {
    match t[i].node.typ
    case Dir => HoldsList(ListingOf(t, i), p.body, p.size)
    case File => p == Payload(t[i].node.size, [])
    case Symlink => p == Payload(|t[i].node.target|, t[i].node.target)
    case _ => p == Payload(0, [])
  }

  /** The exact size of an inode's payload. */
  ghost function SizeOf(t: seq<Inode>, i: nat): nat
    requires i < |t| && ChildrenInRange(t)
  {
    match t[i].node.typ
    case Dir => PackedSize(ListingOf(t, i))
    case File => t[i].node.size
    case Symlink => |t[i].node.target|
    case _ => 0
  }

  ghost function AllSizes(t: seq<Inode>): (r: seq<nat>)
    requires ChildrenInRange(t)
    ensures |r| == |t| && forall i | 0 <= i < |t| :: r[i] == SizeOf(t, i)
  {
    seq(|t|, i requires 0 <= i < |t| => SizeOf(t, i))
  }

  lemma SizedIsExact(t: seq<Inode>, i: nat, p: Payload)
    requires i < |t| && ChildrenInRange(t) && SizedFor(t, i, p)
    ensures p.size == SizeOf(t, i)
  {
    hide ChildrenInRange, PackedSize, ListingOf, DecodeDir;
  }

  type Store = map<Bytes, Bytes>

  /** What is streamed for an inode. */
  ghost predicate StreamedFor(t: seq<Inode>, i: nat, store: Store, sized: Payload, p: Payload)
    requires i < |t|
  {
    if t[i].node.typ == File && sized.size > 0
    then t[i].node.ref in store && p == Payload(sized.size, store[t[i].node.ref]) && |p.body| == p.size
    else p == sized
  }

  ghost predicate LongName(t: seq<Inode>, i: nat)
    requires i < |t|
  {
    t[i].node.typ == Dir && exists name :: name in t[i].children && 12 + |name| > BLOCK
  }

  lemma LongNameInListing(t: seq<Inode>, i: nat, list: seq<Dirent>)
    requires i < |t| && ChildrenInRange(t) && IsListing(t, i, list) && t[i].node.typ == Dir
    ensures NamesFit(list) <==> !LongName(t, i)
  {
    var names := NamesIn(list);
    if !NamesFit(list) {
      var k :| 0 <= k < |list| && 12 + |list[k].name| > BLOCK;
      assert names[k] in names;
    }
    if LongName(t, i) {
      var name :| name in t[i].children && 12 + |name| > BLOCK;
      assert name in names;
      var k :| 0 <= k < |names| && names[k] == name;
      assert list[k].name == name;
    }
  }

  method SizePayload(t: seq<Inode>, i: nat) returns (r: Option<Payload>)
    requires i < |t| && ChildrenInRange(t)
    ensures r.None? <==> LongName(t, i)
    ensures r.Some? ==> SizedFor(t, i, r.value)
  {
    hide ChildrenInRange, HoldsList, IsListing, NamesFit, ListingOf;
    match t[i].node.typ {
      case Dir =>
        var list := Listing(t, i);
        ListingIs(t, i);
        LongNameInListing(t, i, list);
        var packed := PackDirents(list);
        if packed.None? { return None; }
        r := Some(Payload(packed.value.1, packed.value.0));
      case File =>
        r := Some(Payload(t[i].node.size, []));
      case Symlink =>
        r := Some(Payload(|t[i].node.target|, t[i].node.target));
      case _ =>
        r := Some(Payload(0, []));
    }
  }

  method SizePayloads(t: seq<Inode>) returns (r: Option<seq<Payload>>)
    requires ChildrenInRange(t)
    ensures r.None? <==> exists i :: 0 <= i < |t| && LongName(t, i)
    ensures r.Some? ==> |r.value| == |t| && forall i | 0 <= i < |t| :: SizedFor(t, i, r.value[i])
  {
    hide ChildrenInRange, SizedFor, LongName;
    var ps := [];
    for i := 0 to |t|
      invariant |ps| == i
      invariant forall j | 0 <= j < i :: SizedFor(t, j, ps[j]) && !LongName(t, j)
    {
      var p := SizePayload(t, i);
      if p.None? { return None; }
      ps := ps + [p.value];
    }
    r := Some(ps);
  }

  // ---------- streaming ----------

  ghost function ChunksOf(ps: seq<Payload>): (r: seq<Bytes>)
    ensures |r| == |ps| && forall i | 0 <= i < |r| :: r[i] == Chunk(ps[i])
  {
    seq(|ps|, i requires 0 <= i < |ps| => Chunk(ps[i]))
  }

  lemma ChunksSnoc(ps: seq<Payload>, p: Payload)
    ensures Flat(ChunksOf(ps + [p])) == Flat(ChunksOf(ps)) + Chunk(p)
  {
    hide Chunk, Flat;
    FlatSnoc(ChunksOf(ps), Chunk(p));
    assert ChunksOf(ps + [p]) == ChunksOf(ps) + [Chunk(p)];
  }

  /** The part of `ps` before `i` occupies exactly the blocks the layout gave it. */
  lemma {:induction false} StreamPosition(ps: seq<Payload>, i: nat)
    requires i <= |ps| && forall p | p in ps :: PayloadOk(p)
    ensures |Flat(ChunksOf(ps)[..i])| == BLOCK * BlocksBefore(Sizes(ps), i)
  {
    hide Chunk, PayloadOk, BlocksFor;
    var cs := ChunksOf(ps);
    if i == 0 {
      assert cs[..0] == [];
    } else {
      StreamPosition(ps, i - 1);
      assert cs[..i] == cs[..i - 1] + [cs[i - 1]];
      FlatSnoc(cs[..i - 1], cs[i - 1]);
      assert ps[i - 1] in ps;
      ChunkLength(ps[i - 1]);
    }
  }

  lemma NothingStreamed()
    ensures Flat(ChunksOf([])) == []
  {
    FlatNothing<byte>();
    assert ChunksOf([]) == [];
  }

  /** Streams the data blocks in nid order.  A blob that is missing or whose length differs from the
      declared size stops the writer; empty files are never opened. */
  method EmitData(t: seq<Inode>, sized: seq<Payload>, store: Store) returns (r: Option<Bytes>, ghost ps: seq<Payload>)
    requires |sized| == |t|
    ensures r.None? <==> exists i :: 0 <= i < |t| && BadBlob(t, i, sized[i], store)
    ensures r.Some? ==>
              && |ps| == |t| && r.value == Flat(ChunksOf(ps))
              && forall i | 0 <= i < |t| :: StreamedFor(t, i, store, sized[i], ps[i])
  {
    hide Flat, Chunk, ChunksOf;
    var out: Bytes := [];
    ps := [];
    NothingStreamed();
    for i := 0 to |t|
      invariant |ps| == i && out == Flat(ChunksOf(ps))
      invariant forall j | 0 <= j < i :: StreamedFor(t, j, store, sized[j], ps[j]) && !BadBlob(t, j, sized[j], store)
    {
      var body := sized[i].body;
      if t[i].node.typ == File && sized[i].size > 0 {
        if t[i].node.ref !in store { return None, ps; }
        body := store[t[i].node.ref];
        if |body| != sized[i].size { return None, ps; }
      }
      ghost var p := Payload(sized[i].size, body);
      ChunksSnoc(ps, p);
      ps := ps + [p];
      out := out + EmitOne(sized[i].size, body);
    }
    r := Some(out);
  }

  ghost predicate BadBlob(t: seq<Inode>, i: nat, sized: Payload, store: Store)
    requires i < |t|
  {
    t[i].node.typ == File && sized.size > 0 && (t[i].node.ref !in store || |store[t[i].node.ref]| != sized.size)
  }

  /** One inode's bytes and its padding; nothing for an empty one. */
  function EmitOne(size: nat, body: Bytes): (b: Bytes)
    ensures b == Chunk(Payload(size, body))
  {
    if size == 0 then [] else
    var rem := |body| % BLOCK;
    if rem == 0 then body + Zeros(0) else body + Zeros(BLOCK - rem)
  }

  // ---------- reading the image back ----------

  /** The image is the head the layout describes followed by the streamed payloads. */
  ghost predicate ImageOf(img: Bytes, t: seq<Inode>, ps: seq<Payload>, addrs: seq<nat>, total: nat, buildTime: nat) {
    && |t| == |ps| == |addrs|
    && (forall p | p in ps :: PayloadOk(p) && p.size < U32)
    && (forall i | 0 <= i < |t| :: addrs[i] == if ps[i].size > 0 then AddrOf(Sizes(ps), i) else 0)
    && exists head: Bytes ::
         && |head| == (1 + MetaBlocks(|t|)) * BLOCK
         && SuperBlock(|t|, total, buildTime) + Flat(SlotsOf(t, Sizes(ps), addrs, |t|)) <= head
         && img == head + Flat(ChunksOf(ps))
  }

  lemma SlotInFlat(slots: seq<Bytes>, i: nat)
    requires (forall s | s in slots :: |s| == SLOT) && i < |slots|
    ensures SLOT * i + SLOT <= |Flat(slots)| && Flat(slots)[SLOT * i..SLOT * i + SLOT] == slots[i]
  {
    hide Flat;
    FlatAt(slots, i);
    forall s | s in slots[..i] ensures |s| == SLOT { assert s in slots; }
    FlatSlots(slots[..i]);
    assert slots[i] in slots;
  }

  lemma SlotFound(head: Bytes, sup: Bytes, flat: Bytes, i: nat)
    requires |sup| == BLOCK && SLOT * i + SLOT <= |flat| && sup + flat <= head
    ensures BLOCK + SLOT * i + SLOT <= |head|
    ensures head[BLOCK + SLOT * i..BLOCK + SLOT * i + SLOT] == flat[SLOT * i..SLOT * i + SLOT]
  {
    SliceInSuffix(sup, flat, SLOT * i, SLOT * i + SLOT);
    SliceInPrefix(sup + flat, head, BLOCK + SLOT * i, BLOCK + SLOT * i + SLOT);
  }

  lemma StatFound(img: Bytes, t: seq<Inode>, ps: seq<Payload>, addrs: seq<nat>, total: nat, buildTime: nat, i: nat)
    requires ImageOf(img, t, ps, addrs, total, buildTime) && i < |t|
    ensures StatAt(img, i) == Some(Stat(ModeOf(t[i].node), t[i].nlink % 0x1_0000, ps[i].size,
                                        RawOf(t[i].node, addrs[i]), (i + 1) % U32,
                                        t[i].node.uid % 0x1_0000, t[i].node.gid % 0x1_0000))
    ensures ReadPath(img, []) == Some(0)
  {
    hide SuperBlock, Slot, Flat, StatOf, StatAt, Field, ChunksOf, MetaBlocks, PayloadOk, AddrOf;
    var head: Bytes :| && |head| == (1 + MetaBlocks(|t|)) * BLOCK
         && SuperBlock(|t|, total, buildTime) + Flat(SlotsOf(t, Sizes(ps), addrs, |t|)) <= head
         && img == head + Flat(ChunksOf(ps));
    var sup, slots := SuperBlock(|t|, total, buildTime), SlotsOf(t, Sizes(ps), addrs, |t|);
    SlotInFlat(slots, i);
    SlotFound(head, sup, Flat(slots), i);
    assert sup <= img;
    SuperReadsBack(|t|, total, buildTime, img);
    SliceInPrefix(head, img, BLOCK + SLOT * i, BLOCK + SLOT * i + SLOT);
    assert ps[i] in ps;
    SlotReadsBack(t[i], i, ps[i].size, addrs[i]);
    StatIs(img, i);
  }

  lemma StatIs(img: Bytes, i: nat)
    requires |img| >= BLOCK + SLOT * i + SLOT && Field(img, SUPER + 40, 4) == 1
    requires Field(img[BLOCK + SLOT * i..BLOCK + SLOT * i + SLOT], 0, 4) == 0
    ensures StatAt(img, i) == Some(StatOf(img[BLOCK + SLOT * i..BLOCK + SLOT * i + SLOT]))
  {
    hide StatOf, UnLE;
    var off := BLOCK + SLOT * i;
    assert img[off..off + SLOT][0..4] == img[off..off + 4];
  }

  lemma BodyFound(img: Bytes, t: seq<Inode>, ps: seq<Payload>, addrs: seq<nat>, total: nat, buildTime: nat, i: nat)
    requires ImageOf(img, t, ps, addrs, total, buildTime) && i < |t| && ps[i].size > 0
    ensures |img| == BLOCK * AddrOf(Sizes(ps), |t|)
    ensures AddrOf(Sizes(ps), i) * BLOCK + ps[i].size <= |img|
    ensures img[AddrOf(Sizes(ps), i) * BLOCK..AddrOf(Sizes(ps), i) * BLOCK + ps[i].size] == ps[i].body[..ps[i].size]
  {
    hide SuperBlock, Slot, Flat, MetaBlocks, BlocksFor, Chunk, PayloadOk, SlotsOf, BlocksBefore, ChunksOf;
    var head: Bytes :| && |head| == (1 + MetaBlocks(|t|)) * BLOCK
         && SuperBlock(|t|, total, buildTime) + Flat(SlotsOf(t, Sizes(ps), addrs, |t|)) <= head
         && img == head + Flat(ChunksOf(ps));
    assert forall p | p in ps :: PayloadOk(p);
    StreamPosition(ps, i);
    StreamPosition(ps, |t|);
    ChunkCount(ps);
    assert ChunksOf(ps)[..|t|] == ChunksOf(ps);
    PayloadInStream(head, ps, i);
    AddrBytes(MetaBlocks(|t|), BlocksBefore(Sizes(ps), i));
    AddrBytes(MetaBlocks(|t|), BlocksBefore(Sizes(ps), |t|));
  }

  lemma AddrBytes(m: nat, b: nat)
    ensures (1 + m) * BLOCK + BLOCK * b == (1 + m + b) * BLOCK == BLOCK * (1 + m + b)
  {
  }

  lemma PayloadInStream(head: Bytes, ps: seq<Payload>, i: nat)
    requires i < |ps| && forall p | p in ps :: PayloadOk(p)
    ensures i < |ChunksOf(ps)| && PayloadOk(ps[i])
    ensures var img, a := head + Flat(ChunksOf(ps)), |head| + |Flat(ChunksOf(ps)[..i])|;
            a + ps[i].size <= |img| && img[a..a + ps[i].size] == ps[i].body[..ps[i].size]
  {
    hide Flat, Chunk;
    var cs := ChunksOf(ps);
    FlatAt(cs, i);
    assert ps[i] in ps;
    ChunkLength(ps[i]);
    var o, n := |Flat(cs[..i])|, ps[i].size;
    SliceInSuffix(head, Flat(cs), o, o + n);
    SliceOfSlice(Flat(cs), o, o + |cs[i]|, 0, n);
  }

  ghost predicate PlainPath(p: Path) {
    DOT !in p && DOTDOT !in p
  }

  /** A row has an inode of its own, and a directory above it. */
  ghost predicate RowFits(t: seq<Inode>, i: nat)
    requires i < |t|
  {
    t[i].node.typ != Hardlink && t[i].parent < |t| && t[t[i].parent].node.typ == Dir
  }

  ghost predicate Readable(img: Bytes, t: seq<Inode>, sized: seq<Payload>, ps: seq<Payload>, addrs: seq<nat>,
                           total: nat, buildTime: nat, store: Store)
  {
    && ImageOf(img, t, ps, addrs, total, buildTime) && ChildrenInRange(t) && |sized| == |ps| == |t| &&
        |img| <= U32 * BLOCK
    && (forall i | 0 <= i < |t| ::
          RowFits(t, i) && SizedFor(t, i, sized[i]) && StreamedFor(t, i, store, sized[i], ps[i]))
    && (forall i, name | 0 <= i < |t| && name in t[i].children :: ValidName(name))
  }

  /** Addresses of an image under 2^32 blocks fit their field. */
  lemma AddrFits(img: Bytes, t: seq<Inode>, ps: seq<Payload>, addrs: seq<nat>, total: nat, buildTime: nat, i: nat)
    requires ImageOf(img, t, ps, addrs, total, buildTime) && i < |t| && ps[i].size > 0 && |img| <= U32 * BLOCK
    ensures |addrs| == |t| && addrs[i] == AddrOf(Sizes(ps), i) < U32
  {
    hide AddrOf, SuperBlock, SlotsOf, ChunksOf, Flat, MetaBlocks;
    BodyFound(img, t, ps, addrs, total, buildTime, i);
  }

  lemma NidsFit(img: Bytes, t: seq<Inode>, ps: seq<Payload>, addrs: seq<nat>, total: nat, buildTime: nat)
    requires ImageOf(img, t, ps, addrs, total, buildTime) && |img| <= U32 * BLOCK
    ensures |t| < 0x1_0000_0000_0000_0000
  {
    hide AddrOf, SuperBlock, SlotsOf, ChunksOf, Flat, PayloadOk;
    SlotsFit(|t|);
  }

  lemma ListingEncodable(t: seq<Inode>, i: nat, list: seq<Dirent>)
    requires i < |t| < 0x1_0000_0000_0000_0000 && ChildrenInRange(t) && IsListing(t, i, list) && t[i].parent < |t|
    requires forall name | name in t[i].children :: ValidName(name)
    ensures Encodable(list)
  {
    forall e | e in list ensures 0 !in e.name && e.nid < 0x1_0000_0000_0000_0000 { assert IsEntry(t, i, e); }
  }

  /** The bytes of directory `i` decode to its listing: sorted, with "." and "..". */
  ghost predicate DirListed(img: Bytes, t: seq<Inode>, i: nat)
    requires i < |t| && ChildrenInRange(t)
  {
    var st := StatAt(img, i);
    && st.Some? && TypeOf(st.value.mode) == Some(Dir) && BodyOf(img, st.value).Some?
    && DecodeDir(BodyOf(img, st.value).value) == Some(ListingOf(t, i))
  }

  lemma DirectoryListed(img: Bytes, t: seq<Inode>, sized: seq<Payload>, ps: seq<Payload>, addrs: seq<nat>,
                        total: nat, buildTime: nat, store: Store, i: nat)
    requires Readable(img, t, sized, ps, addrs, total, buildTime, store) && i < |t| && t[i].node.typ == Dir
    ensures DirListed(img, t, i)
  {
    hide ImageOf, SizedFor, StreamedFor, ListingOf, ChildrenInRange, DecodeDir, AddrOf, ValidName, StatAt,
      BodyOf, ModeOf, RawOf;
    NidsFit(img, t, ps, addrs, total, buildTime);
    assert SizedFor(t, i, sized[i]) && StreamedFor(t, i, store, sized[i], ps[i]);
    DirPayload(t, i, store, sized[i], ps[i]);
    StatFound(img, t, ps, addrs, total, buildTime, i);
    AddrFits(img, t, ps, addrs, total, buildTime, i);
    BodyFound(img, t, ps, addrs, total, buildTime, i);
    DirStat(t[i].node, addrs[i]);
    BodyIs(img, StatAt(img, i).value);
  }

  lemma DirPayload(t: seq<Inode>, i: nat, store: Store, sized: Payload, p: Payload)
    requires i < |t| < 0x1_0000_0000_0000_0000 && ChildrenInRange(t) && t[i].node.typ == Dir && t[i].parent < |t|
    requires (forall name | name in t[i].children :: ValidName(name))
    requires SizedFor(t, i, sized) && StreamedFor(t, i, store, sized, p)
    ensures 0 < p.size <= |p.body| && DecodeDir(p.body[..p.size]) == Some(ListingOf(t, i))
  {
    hide ListingOf, ChildrenInRange, DecodeDir, HoldsList, IsListing, Encodable, ValidName;
    ListingIs(t, i);
    ListingEncodable(t, i, ListingOf(t, i));
    ListingDecodes(t, i, ListingOf(t, i), p);
  }

  lemma DirStat(n: Node, addr: nat)
    requires n.typ == Dir && addr < U32
    ensures TypeOf(ModeOf(n)) == Some(Dir) && RawOf(n, addr) == addr
  {
  }

  lemma BodyIs(img: Bytes, st: Stat)
    requires st.size > 0 && st.raw * BLOCK + st.size <= |img|
    ensures BodyOf(img, st) == Some(img[st.raw * BLOCK..st.raw * BLOCK + st.size])
  {
  }

  /** Every entry of a listing announces the type of the inode it names. */
  ghost predicate EntriesTyped(img: Bytes, list: seq<Dirent>) {
    forall e | e in list ::
      StatAt(img, e.nid).Some? && DirentType(e.ft).Some? && DirentType(e.ft) == TypeOf(StatAt(img, e.nid).value.mode)
  }

  lemma ListingTyped(img: Bytes, t: seq<Inode>, sized: seq<Payload>, ps: seq<Payload>, addrs: seq<nat>,
                     total: nat, buildTime: nat, store: Store, i: nat)
    requires Readable(img, t, sized, ps, addrs, total, buildTime, store) && i < |t| && t[i].node.typ == Dir
    ensures EntriesTyped(img, ListingOf(t, i))
  {
    hide ImageOf, IsListing, ListingOf, DescribesNode, SizedFor, StreamedFor, ValidName, StatAt, TypeOf;
    ListingIs(t, i);
    forall e | e in ListingOf(t, i)
      ensures StatAt(img, e.nid).Some? && DirentType(e.ft).Some?
      ensures DirentType(e.ft) == TypeOf(StatAt(img, e.nid).value.mode)
    {
      ListedEntry(t, i, e);
      NodeReadsBack(img, t, sized, ps, addrs, total, buildTime, store, e.nid);
      DescribedType(t[e.nid].node, store, img, StatAt(img, e.nid).value);
    }
  }

  lemma ListedEntry(t: seq<Inode>, i: nat, e: Dirent)
    requires i < |t| && ChildrenInRange(t) && e in ListingOf(t, i) && t[i].node.typ == Dir
    requires forall j | 0 <= j < |t| :: RowFits(t, j)
    ensures e.nid < |t| && DirentType(e.ft) == Some(t[e.nid].node.typ)
  {
    hide ListingOf, RowFits, IsEntry, ChildrenInRange;
    ListingIs(t, i);
    assert IsEntry(t, i, e) && RowFits(t, i);
    EntryInRange(t, i, e);
    EntryType(t, i, e);
  }

  lemma EntryInRange(t: seq<Inode>, i: nat, e: Dirent)
    requires i < |t| && ChildrenInRange(t) && IsEntry(t, i, e) && RowFits(t, i)
    ensures e.nid < |t|
  {
  }

  lemma EntryType(t: seq<Inode>, i: nat, e: Dirent)
    requires i < |t| && ChildrenInRange(t) && t[i].node.typ == Dir && IsEntry(t, i, e)
    requires e.nid < |t| && RowFits(t, i) && RowFits(t, e.nid)
    ensures DirentType(e.ft) == Some(t[e.nid].node.typ)
  {
    hide ChildrenInRange;
  }

  lemma DescribedType(n: Node, store: Store, img: Bytes, st: Stat)
    requires DescribesNode(n, store, img, st)
    ensures TypeOf(st.mode) == Some(n.typ)
  {
  }

  /** "." names the directory itself and ".." its parent. */
  lemma DotsReadBack(img: Bytes, t: seq<Inode>, sized: seq<Payload>, ps: seq<Payload>, addrs: seq<nat>,
                     total: nat, buildTime: nat, store: Store, i: nat)
    requires Readable(img, t, sized, ps, addrs, total, buildTime, store) && i < |t| && t[i].node.typ == Dir
    ensures FindAt(img, i, DOT) == Some(i) && FindAt(img, i, DOTDOT) == Some(t[i].parent)
  {
    hide ImageOf, ListingOf, ChildrenInRange, DecodeDir, SizedFor, StreamedFor, StatAt, BodyOf;
    DirectoryListed(img, t, sized, ps, addrs, total, buildTime, store, i);
    ListingIs(t, i);
    FindHit(ListingOf(t, i), DOT);
    FindHit(ListingOf(t, i), DOTDOT);
  }

  /** A directory of the image answers for exactly its row's entries. */
  lemma DirectoryReadsBack(img: Bytes, t: seq<Inode>, sized: seq<Payload>, ps: seq<Payload>, addrs: seq<nat>,
                           total: nat, buildTime: nat, store: Store, i: nat, name: Name)
    requires Readable(img, t, sized, ps, addrs, total, buildTime, store) && i < |t| && name != DOT && name != DOTDOT
    requires t[i].node.typ == Dir
    ensures FindAt(img, i, name) == if name in t[i].children then Some(t[i].children[name]) else None
  {
    hide ImageOf, IsListing, ListingOf, ChildrenInRange, DecodeDir, SizedFor, StreamedFor, StatAt, BodyOf;
    DirectoryListed(img, t, sized, ps, addrs, total, buildTime, store, i);
    ListingIs(t, i);
    FindInListing(t, i, ListingOf(t, i), name);
  }

  lemma ListingDecodes(t: seq<Inode>, i: nat, list: seq<Dirent>, p: Payload)
    requires i < |t| && ChildrenInRange(t) && IsListing(t, i, list) && HoldsList(list, p.body, p.size) &&
             Encodable(list)
    ensures 0 < p.size <= |p.body| && DecodeDir(p.body[..p.size]) == Some(list)
  {
    assert DOT in NamesIn(list);
    assert list != [];
  }

  lemma LeafReadsBack(img: Bytes, t: seq<Inode>, sized: seq<Payload>, ps: seq<Payload>, addrs: seq<nat>, total: nat,
                      buildTime: nat, store: Store, i: nat, name: Name)
    requires Readable(img, t, sized, ps, addrs, total, buildTime, store) && i < |t| && t[i].node.typ != Dir
    ensures FindAt(img, i, name) == None
  {
    hide ImageOf, SizedFor, StreamedFor, ChildrenInRange, DecodeDir, Rdev;
    StatFound(img, t, ps, addrs, total, buildTime, i);
  }

  /** Resolving a path in the bytes is following entries in the table. */
  lemma {:induction false} ReadPathWalks(img: Bytes, t: seq<Inode>, sized: seq<Payload>, ps: seq<Payload>,
                                         addrs: seq<nat>, total: nat, buildTime: nat, store: Store, p: Path)
    requires Readable(img, t, sized, ps, addrs, total, buildTime, store) && PlainPath(p) && |t| > 0
    requires forall i | 0 <= i < |t| && t[i].node.typ != Dir :: t[i].children == map[]
    ensures ReadPath(img, p) == Walk(t, p)
    ensures Walk(t, p).Some? ==> Walk(t, p).value < |t|
    decreases |p|
  {
    hide ImageOf, SizedFor, StreamedFor, FindAt;
    if p == [] {
      StatFound(img, t, ps, addrs, total, buildTime, 0);
    } else {
      var q, name := Parent(p), p[|p| - 1];
      ReadPathWalks(img, t, sized, ps, addrs, total, buildTime, store, q);
      assert name in p;
      var d := Walk(t, q);
      if d.Some? {
        if t[d.value].node.typ == Dir {
          DirectoryReadsBack(img, t, sized, ps, addrs, total, buildTime, store, d.value, name);
        } else {
          LeafReadsBack(img, t, sized, ps, addrs, total, buildTime, store, d.value, name);
        }
      }
    }
  }

  // ---------- the theorem about WriteErofs ----------

  /** What a reader of the image finds at `p`: nothing where the tree gives no identity, otherwise
      the identity's inode with its type, mode, owner, and contents. */
  ghost predicate FaithfulAt(root: Node, store: Store, img: Bytes, at: Index, p: Path) {
    match Identity(root, p)
    case None => ReadPath(img, p) == None
    case Some(q) =>
      && q in at && ReadPath(img, p) == Some(at[q]) && StatAt(img, at[q]).Some?
      && DescribesNode(Resolve(root, q).value, store, img, StatAt(img, at[q]).value)
      && (Resolve(root, q).value.typ == Dir ==> DotsAt(img, at, q))
  }

  /** The directory's "." is itself, its ".." the directory above; the root is above itself. */
  ghost predicate DotsAt(img: Bytes, at: Index, q: Path) {
    var up := if q == [] then [] else Parent(q);
    q in at && up in at && FindAt(img, at[q], DOT) == Some(at[q]) && FindAt(img, at[q], DOTDOT) == Some(at[up])
  }

  ghost predicate DescribesNode(n: Node, store: Store, img: Bytes, st: Stat) {
    && TypeOf(st.mode) == Some(n.typ) && st.mode % 4096 == (if n.typ == Symlink then 0x1FF else n.mode % 4096)
    && st.uid == n.uid % 0x1_0000 && st.gid == n.gid % 0x1_0000
    && (n.typ == File ==> st.size == n.size && (n.size > 0 ==> n.ref in store && BodyOf(img, st) == Some(store[n.ref])))
    && (n.typ == Symlink ==> BodyOf(img, st) == Some(n.target))
    && (n.typ == Char || n.typ == Block ==> st.raw == Rdev(n) as nat)
    && (n.typ == Char || n.typ == Block || n.typ == Fifo ==> st.size == 0)
  }

  lemma ModeReadsBack(n: Node)
    requires n.typ != Hardlink
    ensures TypeOf(ModeOf(n)) == Some(n.typ)
    ensures ModeOf(n) % 4096 == if n.typ == Symlink then 0x1FF else n.mode % 4096
  {
  }

  lemma NodeReadsBack(img: Bytes, t: seq<Inode>, sized: seq<Payload>, ps: seq<Payload>, addrs: seq<nat>, total: nat,
                      buildTime: nat, store: Store, i: nat)
    requires Readable(img, t, sized, ps, addrs, total, buildTime, store) && i < |t|
    ensures StatAt(img, i).Some? && StatAt(img, i).value.nlink == t[i].nlink % 0x1_0000
    ensures StatAt(img, i).value.ino == (i + 1) % U32
    ensures DescribesNode(t[i].node, store, img, StatAt(img, i).value)
  {
    hide ImageOf, ChildrenInRange, DecodeDir, AddrOf, Rdev, StatAt, HoldsList, ListingOf, ValidName, ModeOf, TypeOf;
    assert RowFits(t, i);
    ModeReadsBack(t[i].node);
    assert SizedFor(t, i, sized[i]) && StreamedFor(t, i, store, sized[i], ps[i]);
    StatFound(img, t, ps, addrs, total, buildTime, i);
    if ps[i].size > 0 {
      AddrFits(img, t, ps, addrs, total, buildTime, i);
      BodyFound(img, t, ps, addrs, total, buildTime, i);
      assert t[i].node.typ != Dir ==> ps[i].body[..ps[i].size] == ps[i].body;
    }
  }

  lemma SizedIsOk(t: seq<Inode>, i: nat, store: Store, sized: Payload, p: Payload)
    requires i < |t| && ChildrenInRange(t) && SizedFor(t, i, sized) && StreamedFor(t, i, store, sized, p)
    ensures PayloadOk(p) && p.size == sized.size
  {
    hide ChildrenInRange, ListingOf, DecodeDir, PackedSize;
  }

  lemma FinishedTableReads(root: Node, t: seq<Inode>, at: Index, pathOf: seq<Path>)
    requires ValidTree(root) && root.typ == Dir && Finished(root, t, at, pathOf)
    ensures ChildrenInRange(t)
    ensures forall i | 0 <= i < |t| :: RowFits(t, i)
    ensures forall i | 0 <= i < |t| && t[i].node.typ != Dir :: t[i].children == map[]
    ensures forall i, name | 0 <= i < |t| && name in t[i].children :: ValidName(name)
  {
    hide CountOk, Identity, Mirrored, Linked, RowNode;
    forall i | 0 <= i < |t|
      ensures RowFits(t, i)
      ensures t[i].node.typ != Dir ==> t[i].children == map[]
      ensures forall name | name in t[i].children :: ValidName(name) && t[i].children[name] < |t|
    {
      assert Linked(root, t[i], at, pathOf[i]) && RowNode(root, t[i], pathOf[i]);
      if t[i].node.typ != Dir { LeafHasNoEntries(root, t[i], at, pathOf[i]); }
      RowNotLink(root, t[i], pathOf[i]);
      ParentIsDir(root, t, at, pathOf, i);
      forall name | name in t[i].children ensures ValidName(name) && t[i].children[name] < |t| {
        EntryIsValid(root, t[i], at, pathOf[i], name);
      }
    }
  }

  lemma RowNotLink(root: Node, r: Inode, p: Path)
    requires RowNode(root, r, p)
    ensures r.node.typ != Hardlink
  {
    hide Resolve;
  }

  lemma AboveIsDir(root: Node, r: Inode, above: Inode, p: Path)
    requires root.typ == Dir && RowNode(root, r, p) && RowNode(root, above, if p == [] then [] else Parent(p))
    ensures above.node.typ == Dir
  {
    if p != [] {
      ResolveSnoc(root, Parent(p), Last(p));
      assert Parent(p) + [Last(p)] == p;
    }
  }

  lemma ParentIsDir(root: Node, t: seq<Inode>, at: Index, pathOf: seq<Path>, i: nat)
    requires root.typ == Dir && Finished(root, t, at, pathOf) && i < |t|
    ensures t[i].parent < |t| && t[t[i].parent].node.typ == Dir
  {
    hide Identity, CountOk, Linked, RowNode, Resolve;
    var p := pathOf[i];
    assert RowNode(root, t[i], p) && Linked(root, t[i], at, p);
    assert at[pathOf[0]] == 0;
    RowAbove(root, t[i], at, p);
    var up := if p == [] then [] else Parent(p);
    assert RowNode(root, t[at[up]], pathOf[at[up]]);
    AboveIsDir(root, t[i], t[at[up]], p);
  }

  lemma EntryIsValid(root: Node, r: Inode, at: Index, p: Path, name: Name)
    requires ValidTree(root) && Linked(root, r, at, p) && name in r.children
    ensures ValidName(name) && exists q :: q in at && at[q] == r.children[name]
  {
    hide ValidName;
    assert NamesIdentity(root, at, p + [name], r.children[name]);
    ResolveValid(root, p + [name]);
    assert (p + [name])[|p|] == name;
  }

  /** Everything a reader can learn from a finished image. */
  lemma ImageIsFaithful(root: Node, store: Store, img: Bytes, t: seq<Inode>, at: Index, pathOf: seq<Path>,
                        sized: seq<Payload>, ps: seq<Payload>, addrs: seq<nat>, total: nat, buildTime: nat, p: Path)
    requires ValidTree(root) && root.typ == Dir && Finished(root, t, at, pathOf) && PlainPath(p)
    requires Readable(img, t, sized, ps, addrs, total, buildTime, store)
    ensures FaithfulAt(root, store, img, at, p)
  {
    hide Finished, Readable, ValidTree, Identity, ReadPath, StatAt, DescribesNode, Resolve, PlainPath, Linked;
    FinishedTableReads(root, t, at, pathOf);
    FinishedNonEmpty(root, t, at, pathOf);
    ReadPathWalks(img, t, sized, ps, addrs, total, buildTime, store, p);
    WalkFindsIdentity(root, t, at, pathOf, p);
    var id := Identity(root, p);
    if id.Some? {
      FinishedRow(root, t, at, pathOf, id.value);
      NodeReadsBack(img, t, sized, ps, addrs, total, buildTime, store, at[id.value]);
      if t[at[id.value]].node.typ == Dir {
        DotsReadBack(img, t, sized, ps, addrs, total, buildTime, store, at[id.value]);
        RowAbove(root, t[at[id.value]], at, id.value);
      }
    }
  }

  lemma RowAbove(root: Node, r: Inode, at: Index, q: Path)
    requires Linked(root, r, at, q) && [] in at && at[[]] == 0
    ensures var up := if q == [] then [] else Parent(q); up in at && r.parent == at[up]
  {
    hide Identity;
  }

  lemma FinishedNonEmpty(root: Node, t: seq<Inode>, at: Index, pathOf: seq<Path>)
    requires Finished(root, t, at, pathOf)
    ensures |t| > 0
  {
  }

  lemma SizesStreamed(t: seq<Inode>, store: Store, sized: seq<Payload>, ps: seq<Payload>)
    requires ChildrenInRange(t) && |t| == |sized| == |ps|
    requires forall i | 0 <= i < |t| :: SizedFor(t, i, sized[i]) && StreamedFor(t, i, store, sized[i], ps[i])
    ensures Sizes(ps) == Sizes(sized) && forall p | p in ps :: PayloadOk(p)
  {
    hide ChildrenInRange, SizedFor, StreamedFor, PayloadOk;
    forall i | 0 <= i < |t| ensures PayloadOk(ps[i]) && ps[i].size == sized[i].size {
      SizedIsOk(t, i, store, sized[i], ps[i]);
    }
  }

  lemma ImageAssembled(head: Bytes, t: seq<Inode>, ps: seq<Payload>, addrs: seq<nat>, total: nat, buildTime: nat)
    requires |t| == |ps| == |addrs| && (forall p | p in ps :: PayloadOk(p))
    requires forall i | 0 <= i < |t| :: Sizes(ps)[i] < U32
    requires forall i | 0 <= i < |t| :: addrs[i] == if Sizes(ps)[i] > 0 then AddrOf(Sizes(ps), i) else 0
    requires total == AddrOf(Sizes(ps), |t|) && |head| == (1 + MetaBlocks(|t|)) * BLOCK
    requires SuperBlock(|t|, total, buildTime) + Flat(SlotsOf(t, Sizes(ps), addrs, |t|)) <= head
    ensures ImageOf(head + Flat(ChunksOf(ps)), t, ps, addrs, total, buildTime)
    ensures |head + Flat(ChunksOf(ps))| == total * BLOCK
  {
    hide SuperBlock, SlotsOf, Flat, ChunksOf, MetaBlocks, PayloadOk, BlocksFor;
    StreamPosition(ps, |t|);
    assert ChunksOf(ps)[..|ps|] == ChunksOf(ps) by { ChunkCount(ps); }
    forall p | p in ps ensures p.size < U32 {
      var i :| 0 <= i < |ps| && ps[i] == p;
      assert Sizes(ps)[i] < U32;
    }
  }

  lemma ChunkCount(ps: seq<Payload>)
    ensures |ChunksOf(ps)| == |ps|
  {
  }

  /** A name that fits no directory block, a payload too large for a compact inode, or a file whose
      blob is missing or of another length than declared. */
  ghost predicate Refused(t: seq<Inode>, i: nat, store: Store)
    requires i < |t| && ChildrenInRange(t)
  {
    LongName(t, i) || SizeOf(t, i) >= U32 || BadFile(t[i].node, store)
  }

  ghost predicate BadFile(n: Node, store: Store) {
    n.typ == File && n.size > 0 && (n.ref !in store || |store[n.ref]| != n.size)
  }

  lemma RefusedIs(t: seq<Inode>, i: nat, store: Store, p: Payload)
    requires i < |t| && ChildrenInRange(t) && SizedFor(t, i, p) && !LongName(t, i)
    ensures Refused(t, i, store) <==> p.size >= U32 || BadBlob(t, i, p, store)
  {
    hide ChildrenInRange, LongName, HoldsList, ListingOf, SizeOf;
    SizedIsExact(t, i, p);
  }

  lemma LongIsRefused(t: seq<Inode>, store: Store)
    requires ChildrenInRange(t) && exists i :: 0 <= i < |t| && LongName(t, i)
    ensures exists i :: 0 <= i < |t| && Refused(t, i, store)
  {
    hide ChildrenInRange, LongName;
    var i :| 0 <= i < |t| && LongName(t, i);
    assert Refused(t, i, store);
  }

  /** Pass 2 of WriteErofs on a finished table.  It fails exactly for an inode that is refused. */
  method EmitImage(t: seq<Inode>, store: Store, buildTime: nat)
    returns (r: Option<Bytes>, ghost sized: seq<Payload>, ghost ps: seq<Payload>, ghost addrs: seq<nat>,
        ghost total: nat)
    requires ChildrenInRange(t)
    ensures r.None? <==> exists i :: 0 <= i < |t| && Refused(t, i, store)
    ensures r.Some? ==> total == AddrOf(AllSizes(t), |t|) && |r.value| == total * BLOCK
    ensures r.Some? ==>
              && ImageOf(r.value, t, ps, addrs, total, buildTime) && |sized| == |ps| == |t|
              && forall i | 0 <= i < |t| :: SizedFor(t, i, sized[i]) && StreamedFor(t, i, store, sized[i], ps[i])
  {
    hide ChildrenInRange, SizedFor, StreamedFor, PayloadOk, BadBlob, LongName, ImageOf, SuperBlock, SlotsOf, ChunksOf,
      AddrOf, Refused, SizeOf;
    sized, ps, addrs, total := [], [], [], 0;
    var payloads := SizePayloads(t);
    if payloads.None? {
      LongIsRefused(t, store);
      return None, sized, ps, addrs, total;
    }
    sized := payloads.value;
    forall i | 0 <= i < |t|
      ensures Refused(t, i, store) <==> sized[i].size >= U32 || BadBlob(t, i, sized[i], store)
      ensures sized[i].size == SizeOf(t, i)
    {
      RefusedIs(t, i, store, sized[i]);
      SizedIsExact(t, i, sized[i]);
    }
    var sizes := Sizes(payloads.value);
    assert sizes == AllSizes(t);
    var placed, blocks := Layout(sizes);
    addrs, total := placed, blocks;
    var head := EmitHead(t, sizes, placed, blocks, buildTime);
    if head.None? {
      var i :| 0 <= i < |sizes| && sizes[i] >= U32;
      assert Refused(t, i, store);
      return None, sized, ps, addrs, total;
    }
    var data;
    data, ps := EmitData(t, payloads.value, store);
    if data.None? {
      ghost var i :| 0 <= i < |t| && BadBlob(t, i, sized[i], store);
      assert Refused(t, i, store);
      return None, sized, ps, addrs, total;
    }
    SizesStreamed(t, store, sized, ps);
    ImageAssembled(head.value, t, ps, addrs, total, buildTime);
    r := Some(head.value + data.value);
  }

  /** In the bytes, two paths lead to one inode exactly when they have one identity: hardlinks share,
      nothing else does. */
  lemma InodesShared(root: Node, store: Store, img: Bytes, t: seq<Inode>, at: Index, pathOf: seq<Path>, p: Path,
                     q: Path)
    requires Finished(root, t, at, pathOf) && FaithfulAt(root, store, img, at, p) && FaithfulAt(root, store, img, at, q)
    requires Identity(root, p).Some? && Identity(root, q).Some?
    ensures ReadPath(img, p) == ReadPath(img, q) <==> Identity(root, p) == Identity(root, q)
  {
    hide Identity, ReadPath, Linked, CountOk, DescribesNode;
    var a, b := Identity(root, p).value, Identity(root, q).value;
    assert a in at && b in at && pathOf[at[a]] == a && pathOf[at[b]] == b;
  }

  /** WriteErofs.  It fails exactly when some inode is refused.  Otherwise the image is as long as its
      layout says, every inode's link count is the number of entries naming it, and (up to 2^32
      blocks) every path without "." or ".." components reads back from the bytes as the source tree
      says and every directory decodes to its sorted listing. */
  method WriteErofs(root: Node, store: Store, buildTime: nat)
    returns (r: Option<Bytes>, ghost t: seq<Inode>, ghost at: Index)
    requires ValidTree(root) && root.typ == Dir
    ensures ChildrenInRange(t) && exists pathOf :: Finished(root, t, at, pathOf)
    ensures r.None? <==> exists i :: 0 <= i < |t| && Refused(t, i, store)
    ensures r.Some? ==> |r.value| == AddrOf(AllSizes(t), |t|) * BLOCK
    ensures r.Some? && |r.value| <= U32 * BLOCK ==>
              forall p | PlainPath(p) :: ReadPath(r.value, p).Some? <==> Identity(root, p).Some?
    ensures r.Some? && |r.value| <= U32 * BLOCK ==>
              && (forall p | PlainPath(p) :: FaithfulAt(root, store, r.value, at, p))
              && (forall i | 0 <= i < |t| ::
                    && StatAt(r.value, i).Some? && StatAt(r.value, i).value.nlink == t[i].nlink % 0x1_0000
                    && StatAt(r.value, i).value.ino == (i + 1) % U32)
              && (forall i | 0 <= i < |t| && t[i].node.typ == Dir ::
                    && IsListing(t, i, ListingOf(t, i)) && DirListed(r.value, t, i)
                    && EntriesTyped(r.value, ListingOf(t, i)))
    ensures r.Some? && |r.value| < U32 * BLOCK ==>
              && Field(r.value, SUPER, 4) == MAGIC && Field(r.value, SUPER + 16, 8) == |t|
              && Field(r.value, SUPER + 36, 4) * BLOCK == |r.value|
              && r.value[SUPER + 12] == 12 && r.value[SUPER + 88] == 12
              && (buildTime < 0x1_0000_0000_0000_0000 ==> Field(r.value, SUPER + 24, 8) == buildTime)
  {
    hide Finished, ValidTree, FaithfulAt, StatAt, ChildrenInRange, ImageOf, SizedFor, StreamedFor, ValidName, Refused,
      AddrOf, AllSizes, IsListing, DirListed, ListingOf, ReadPath, Identity, EntriesTyped;
    var table, at', pathOf := BuildTable(root);
    t, at := table, at';
    FinishedTableReads(root, t, at, pathOf);
    ghost var sized, ps, addrs, total;
    r, sized, ps, addrs, total := EmitImage(table, store, buildTime);
    if r.Some? && |r.value| <= U32 * BLOCK {
      ghost var img := r.value;
      ImageCounts(img, t, ps, addrs, total, buildTime);
      assert Readable(img, t, sized, ps, addrs, total, buildTime, store);
      forall p | PlainPath(p) ensures FaithfulAt(root, store, img, at, p) {
        ImageIsFaithful(root, store, img, t, at, pathOf, sized, ps, addrs, total, buildTime, p);
      }
      forall p | PlainPath(p) ensures ReadPath(img, p).Some? <==> Identity(root, p).Some? {
        FaithfulResolves(root, store, img, at, p);
      }
      forall i | 0 <= i < |t|
        ensures StatAt(img, i).Some? && StatAt(img, i).value.nlink == t[i].nlink % 0x1_0000
        ensures StatAt(img, i).value.ino == (i + 1) % U32
      {
        NodeReadsBack(img, t, sized, ps, addrs, total, buildTime, store, i);
      }
      forall i | 0 <= i < |t| && t[i].node.typ == Dir
        ensures IsListing(t, i, ListingOf(t, i)) && DirListed(img, t, i) && EntriesTyped(img, ListingOf(t, i))
      {
        ListingIs(t, i);
        ListingTyped(img, t, sized, ps, addrs, total, buildTime, store, i);
        DirectoryListed(img, t, sized, ps, addrs, total, buildTime, store, i);
      }
    }
  }

  lemma FaithfulResolves(root: Node, store: Store, img: Bytes, at: Index, p: Path)
    requires FaithfulAt(root, store, img, at, p)
    ensures ReadPath(img, p).Some? <==> Identity(root, p).Some?
  {
    hide ReadPath, Identity, DescribesNode, StatAt;
  }

  lemma ImageCounts(img: Bytes, t: seq<Inode>, ps: seq<Payload>, addrs: seq<nat>, total: nat, buildTime: nat)
    requires ImageOf(img, t, ps, addrs, total, buildTime) && |img| == total * BLOCK && total <= U32
    ensures Field(img, SUPER, 4) == MAGIC && Field(img, SUPER + 16, 8) == |t| &&
            Field(img, SUPER + 36, 4) == total % U32
    ensures img[SUPER + 12] == 12 && img[SUPER + 88] == 12
    ensures buildTime < 0x1_0000_0000_0000_0000 ==> Field(img, SUPER + 24, 8) == buildTime
  {
    hide SuperBlock, AddrOf, SlotsOf, MetaBlocks, Field, ChunksOf, Flat;
    NidsFit(img, t, ps, addrs, total, buildTime);
    var head: Bytes :| SuperBlock(|t|, total, buildTime) + Flat(SlotsOf(t, Sizes(ps), addrs, |t|)) <= head &&
        img == head + Flat(ChunksOf(ps));
    SuperCounts(|t|, total, buildTime, img);
  }

  // ---------- a link that is lost ----------

  /** The rows of the table of CHAIN: the directory and the file. */
  lemma ChainMirrored(p: Path)
    requires Mirrored(CHAIN, p)
    ensures p == [] || p == [[97]]
  {
    if p != [] {
      var n := CHAIN.children[p[0]];
      assert Resolve(n, p[1..]).Some? && p == [p[0]] + p[1..];
      assert p[1..] == [] by { LeafHasNothing(n, p[1..]); }
    }
  }

  lemma LeafHasNothing(n: Node, p: Path)
    requires n.typ != Dir && Resolve(n, p).Some?
    ensures p == []
  {
  }

  lemma ChainRow(t: seq<Inode>, at: Index, pathOf: seq<Path>, i: nat)
    requires Finished(CHAIN, t, at, pathOf) && i < |t|
    ensures |pathOf| == |t| && (pathOf[i] == [] || pathOf[i] == [[97]])
    ensures t[i].node == CHAIN || t[i].node == PLAIN
    ensures forall name | name in t[i].children :: name in {[97], [98], [99]}
  {
    hide Identity, CountOk, Resolve, Linked;
    var p := pathOf[i];
    assert RowNode(CHAIN, t[i], p) && Linked(CHAIN, t[i], at, p);
    ChainMirrored(p);
    ChainNodes();
    if p == [] {
      forall name | name in t[i].children ensures name in {[97], [98], [99]} { ChainEntry(t[i], at, name); }
    } else {
      LeafHasNoEntries(CHAIN, t[i], at, p);
    }
  }

  lemma ChainNodes()
    ensures Resolve(CHAIN, []) == Some(CHAIN) && Resolve(CHAIN, [[97]]) == Some(PLAIN) && PLAIN.typ == File
  {
  }

  lemma ChainEntry(r: Inode, at: Index, name: Name)
    requires Linked(CHAIN, r, at, []) && name in r.children
    ensures name in {[97], [98], [99]}
  {
    assert NamesIdentity(CHAIN, at, [] + [name], r.children[name]);
    assert Resolve(CHAIN, [] + [name]).Some? && ([] + [name])[0] == name;
  }

  /** Nothing in it is refused, and its layout is a few blocks. */
  lemma ChainFits(t: seq<Inode>, at: Index, pathOf: seq<Path>, store: Store)
    requires Finished(CHAIN, t, at, pathOf) && ChildrenInRange(t)
    ensures (forall i | 0 <= i < |t| :: !Refused(t, i, store)) && AddrOf(AllSizes(t), |t|) <= 12
  {
    hide Finished, ChildrenInRange, ListingOf, PackedSize, AddrOf, MetaBlocks;
    RowPathsDistinct(CHAIN, t, at, pathOf);
    forall p | p in pathOf ensures p in {[], [[97]]} {
      var i :| 0 <= i < |pathOf| && pathOf[i] == p;
      ChainRow(t, at, pathOf, i);
    }
    DistinctFits(pathOf, {[], [[97]]});
    forall i | 0 <= i < |t| ensures !Refused(t, i, store) && SizeOf(t, i) <= 5 * BLOCK {
      ChainRow(t, at, pathOf, i);
      ChainSize(t, i);
    }
    FewBlocks(AllSizes(t), |t|);
  }

  lemma ChainSize(t: seq<Inode>, i: nat)
    requires i < |t| && ChildrenInRange(t) && (t[i].node == CHAIN || t[i].node == PLAIN)
    requires forall name | name in t[i].children :: name in {[97], [98], [99]}
    ensures SizeOf(t, i) <= 5 * BLOCK && !LongName(t, i)
  {
    hide ChildrenInRange, ListingOf, PackedSize, ListedNames;
    var list, names := ListingOf(t, i), ListedNames(t[i]);
    SortedIsDistinct(names);
    DistinctFits(names, {DOT, DOTDOT, [97], [98], [99]});
    PackedSizeBound(list);
  }

  lemma SortedIsDistinct(names: seq<Name>)
    requires Sorted(names)
    ensures Distinct(names)
  {
    forall i, j | 0 <= i < j < |names| ensures names[i] != names[j] {
      LessTotal(names[i], names[i]);
      assert Less(names[i], names[j]);
    }
  }

  lemma FewBlocks(sizes: seq<nat>, n: nat)
    requires n == |sizes| <= 2 && forall i | 0 <= i < n :: sizes[i] <= 5 * BLOCK
    ensures AddrOf(sizes, n) <= 12
  {
    hide BlocksFor;
    FewMore(sizes, n);
    AtMost(n * SLOT, 1);
  }

  lemma {:induction false} FewMore(sizes: seq<nat>, i: nat)
    requires i <= |sizes| && forall k | 0 <= k < |sizes| :: sizes[k] <= 5 * BLOCK
    ensures BlocksBefore(sizes, i) <= 5 * i
  {
    hide BlocksFor;
    if i > 0 {
      FewMore(sizes, i - 1);
      AtMost(sizes[i - 1], 5);
    }
  }

  lemma AtMost(n: nat, k: nat)
    requires n <= k * BLOCK
    ensures BlocksFor(n) <= k
  {
  }

  /** In the image of a file, a hardlink to it and a hardlink to that link, the last one is missing. */
  method LinkToLinkIsLost(store: Store, buildTime: nat) returns (r: Option<Bytes>)
    ensures r.Some?
    ensures ReadPath(r.value, [[98]]) != None && ReadPath(r.value, [[98]]) == ReadPath(r.value, [[97]])
    ensures ReadPath(r.value, [[99]]) == None
  {
    hide ReadPath, StatAt, DescribesNode, Identity, ValidTree, Finished, ChildrenInRange, Refused, AddrOf, AllSizes;
    ghost var t, at;
    ChainIsDropped();
    ChainNodes();
    MirroredIdentity(CHAIN, [[97]]);
    r, t, at := WriteErofs(CHAIN, store, buildTime);
    ghost var pathOf :| Finished(CHAIN, t, at, pathOf);
    ChainFits(t, at, pathOf, store);
    assert FaithfulAt(CHAIN, store, r.value, at, [[97]]) && FaithfulAt(CHAIN, store, r.value, at, [[98]]);
    assert FaithfulAt(CHAIN, store, r.value, at, [[99]]);
  }
}
