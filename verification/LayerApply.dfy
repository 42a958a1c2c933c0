/**
 Model of OCI layer application in internal/oci/unpack.go: applyEntry, dirOf and Lookup on a rootfs
 tree changed in place, against a backward scan over the stream of tar entries.

 A node's identity is its path: layer application never puts one node in two places.
 */
module LayerApply {
  import opened Basics
  import opened Paths

  datatype Kind = Dir | Reg | Symlink | Link | Char | Block | Fifo | Other

  /** A tar header, with the ref and size its body got in the blob store (None when Put failed). */
  datatype Header = Header(name: Bytes, kind: Kind, mode: int, uid: int, gid: int, linkname: Bytes,
                           devmajor: int, devminor: int, xattrs: map<Bytes, Bytes>, stored: Option<(Bytes, nat)>)

  datatype Node = Node(kind: Kind, mode: int, uid: int, gid: int, ref: Bytes, size: nat, target: Bytes,
                       devmajor: int, devminor: int, xattrs: map<Bytes, Bytes>)

  type Tree = map<Path, Node>

  /** The mode of a directory that no entry described. */
  const DIR_MODE := 0x1ED

  const NEW_DIR := Node(Dir, DIR_MODE, 0, 0, [], 0, [], 0, 0, map[])

  const WH: Bytes := [46, 119, 104, 46]
  const OPAQUE: Name := WH + WH + [46, 111, 112, 113]

  function Get(t: Tree, p: Path): Option<Node> {
    if p in t then Some(t[p]) else None
  }

  predicate IsDir(o: Option<Node>) {
    o.Some? && o.value.kind == Dir
  }

  // ---------- what one entry does to one path ----------

  /** Whatever an entry means for a path, it can be told from the entry alone. */
  datatype Verdict =
    | Pass                    // the path keeps what it had
    | Gone                    // nothing is there any more
    | Set(node: Node)         // the entry's own node
    | Describe(node: Node)    // a directory entry: it keeps an existing directory's contents
    | Imply                   // a parent of the entry: a directory, made if need be

  /** strings.TrimPrefix(name, ".wh."). */
  function Hidden(name: Name): Name
    requires WH <= name
  {
    name[|WH|..]
  }

  /** The node an entry puts at its own path. */
  function NodeOf(h: Header): Node {
    var n := Node(h.kind, h.mode, h.uid, h.gid, [], 0, [], 0, 0, h.xattrs);
    match h.kind
    case Reg => if h.stored.Some? then n.(ref := h.stored.value.0, size := h.stored.value.1) else n
    case Symlink => n.(target := h.linkname)
    case Link => n.(target := Join(SplitClean(h.linkname)))
    case Char | Block => n.(devmajor := h.devmajor, devminor := h.devminor)
    case _ => n
  }

  function Judge(parts: Path, h: Header, p: Path): Verdict {
    if parts == [] then (if p == [] && h.kind == Dir then Describe(NodeOf(h).(xattrs := map[])) else Pass)
    else
      var parent, name := Parent(parts), Last(parts);
      if p != [] && p < parts then Imply
      else if name == OPAQUE then (if parent < p then Gone else Pass)
      else if WH <= name then (if parent + [Hidden(name)] <= p then Gone else Pass)
      else if h.kind == Other then Pass
      else if p == parts then (if h.kind == Dir then Describe(NodeOf(h)) else Set(NodeOf(h)))
      else if parts < p && h.kind != Dir then Gone
      else Pass
  }

  /** A directory entry over what was there: an existing directory keeps its attributes' xattrs when
      the entry has none. */
  function Described(n: Node, before: Option<Node>): Node {
    if IsDir(before) then
      before.value.(mode := n.mode, uid := n.uid, gid := n.gid,
                    xattrs := if n.xattrs == map[] then before.value.xattrs else n.xattrs)
    else n
  }

  function Effect(v: Verdict, before: Option<Node>): Option<Node> {
    match v
    case Pass => before
    case Gone => None
    case Set(n) => Some(n)
    case Describe(n) => Some(Described(n, before))
    case Imply => if IsDir(before) then before else Some(NEW_DIR)
  }

  /** What the filter drops before anything else. */
  predicate Skipped(h: Header, skip: Bytes -> bool) {
    h.kind == Reg && skip(TrimSlashes(h.name))
  }

  function TrimSlashes(s: Bytes): Bytes {
    TrimRight(TrimLeft(s))
  }

  function TrimLeft(s: Bytes): Bytes {
    if s != [] && s[0] == SLASH then TrimLeft(s[1..]) else s
  }

  function TrimRight(s: Bytes): Bytes {
    if s != [] && s[|s| - 1] == SLASH then TrimRight(s[..|s| - 1]) else s
  }

  function VerdictOn(h: Header, skip: Bytes -> bool, p: Path): Verdict {
    if Skipped(h, skip) then Pass else Judge(SplitClean(h.name), h, p)
  }

  /** The specification: scanning the entries backwards for the latest one that says something. */
  function Shown(hs: seq<Header>, skip: Bytes -> bool, p: Path): Option<Node> {
    if hs == [] then (if p == [] then Some(NEW_DIR) else None)
    else
      var v, earlier := VerdictOn(hs[|hs| - 1], skip, p), hs[..|hs| - 1];
      match v
      case Gone => None
      case Set(n) => Some(n)
      case _ => Effect(v, Shown(earlier, skip, p))
  }

  // ---------- the tree ----------

  ghost predicate PathOk(t: Tree, p: Path) {
    PlainParts(p) && (p != [] ==> IsDir(Get(t, Parent(p))))
  }

  /** Only directories have anything below them, and every name is plain. */
  ghost predicate Valid(t: Tree) {
    IsDir(Get(t, [])) && forall p {:trigger PathOk(t, p)} | p in t :: PathOk(t, p)
  }

  function Without(t: Tree, p: Path): Tree {
    map q | q in t && !(p <= q) :: t[q]
  }

  function WithoutBelow(t: Tree, p: Path): Tree {
    map q | q in t && !(p < q) :: t[q]
  }

  lemma {:induction false} AncestorsAreDirs(t: Tree, p: Path, k: nat)
    requires Valid(t) && p in t && k < |p|
    ensures IsDir(Get(t, p[..k]))
    decreases |p|
  {
    assert PathOk(t, p);
    var q := Parent(p);
    assert q in t;
    if k < |q| {
      AncestorsAreDirs(t, q, k);
      assert q[..k] == p[..k];
    }
  }

  lemma NothingBelowLeaf(t: Tree, p: Path)
    requires Valid(t) && !IsDir(Get(t, p))
    ensures forall q | q in t :: !(p < q)
  {
    forall q | q in t ensures !(p < q) {
      if p < q {
        assert q[..|p|] == p;
        AncestorsAreDirs(t, q, |p|);
      }
    }
  }

  lemma RemovedValid(t: Tree, p: Path)
    requires Valid(t)
    ensures Valid(WithoutBelow(t, p)) && (p != [] ==> Valid(Without(t, p)))
  {
    forall q | q in WithoutBelow(t, p) ensures PathOk(WithoutBelow(t, p), q) {
      assert PathOk(t, q);
      assert q != [] && p < Parent(q) ==> p < q;
    }
    if p != [] {
      forall q | q in Without(t, p) ensures PathOk(Without(t, p), q) {
        assert PathOk(t, q);
        assert q != [] && p <= Parent(q) ==> p <= q;
      }
      assert !(p <= []);
    }
  }

  /** Putting a node under an existing directory. */
  lemma PutValid(t: Tree, p: Path, n: Node)
    requires Valid(t) && p != [] && PlainParts(p) && IsDir(Get(t, Parent(p)))
    requires n.kind == Dir || forall q | q in t :: !(p < q)
    ensures Valid(t[p := n])
  {
    var t' := t[p := n];
    forall q | q in t' ensures PathOk(t', q) {
      if q != p {
        assert PathOk(t, q);
        if q != [] && Parent(q) == p { assert p < q; }
      }
    }
  }

  class RootFs {
    var nodes: Tree

    constructor ()
      ensures nodes == map[[] := NEW_DIR] && Valid(nodes)
    {
      nodes := map[[] := NEW_DIR];
      new;
      assert PathOk(nodes, []);
    }

    /** dirOf: the parents of `parts`, made or replaced as needed. */
    method DirOf(parts: Path)
      requires Valid(nodes) && parts != [] && PlainParts(parts)
      modifies this
      ensures Valid(nodes) && IsDir(Get(nodes, Parent(parts)))
      ensures forall p :: Get(nodes, p) == Effect(if p != [] && p < parts then Imply else Pass, Get(old(nodes), p))
    {
      hide Valid;
      var i := 1;
      assert parts[..0] == [];
      assert IsDir(Get(nodes, [])) by { RootIsDir(nodes); }
      while i < |parts|
        invariant 1 <= i <= |parts| && Valid(nodes) && IsDir(Get(nodes, parts[..i - 1]))
        invariant forall p ::
                    Get(nodes, p) == Effect(if p != [] && p < parts[..i] then Imply else Pass, Get(old(nodes), p))
      {
        var cur := parts[..i];
        assert Parent(cur) == parts[..i - 1] && Parent(parts[..i + 1]) == cur;
        assert forall p: Path {:trigger Get(nodes, p)} :: p < parts[..i + 1] <==> p < cur || p == cur;
        if !IsDir(Get(nodes, cur)) {
          NothingBelowLeaf(nodes, cur);
          PlainPrefix(parts, i);
          PutValid(nodes, cur, NEW_DIR);
          assert WithoutBelow(nodes, cur) == nodes;
          nodes := WithoutBelow(nodes, cur)[cur := NEW_DIR];
        }
        i := i + 1;
      }
      assert parts[..|parts|] == parts;
    }

    /** The directory case of applyEntry's switch. */
    method ApplyDir(parts: Path, h: Header)
      requires Valid(nodes) && parts != [] && PlainParts(parts) && IsDir(Get(nodes, Parent(parts))) && h.kind == Dir
      modifies this
      ensures Valid(nodes)
      ensures forall p :: Get(nodes, p) == Effect(if p == parts then Describe(NodeOf(h)) else Pass, Get(old(nodes), p))
    {
      hide Valid;
      var node := NodeOf(h);
      if IsDir(Get(nodes, parts)) {
        var existing := nodes[parts];
        existing := existing.(mode := h.mode, uid := h.uid, gid := h.gid);
        if node.xattrs != map[] { existing := existing.(xattrs := node.xattrs); }
        PutValid(nodes, parts, existing);
        nodes := nodes[parts := existing];
      } else {
        NothingBelowLeaf(nodes, parts);
        PutValid(nodes, parts, node);
        assert WithoutBelow(nodes, parts) == nodes;
        nodes := WithoutBelow(nodes, parts)[parts := node];
      }
    }

    /** The other cases: the node replaces whatever was there, with everything below it. */
    method ApplyLeaf(parts: Path, h: Header)
      requires Valid(nodes) && parts != [] && PlainParts(parts) && IsDir(Get(nodes, Parent(parts))) && h.kind != Dir
      modifies this
      ensures Valid(nodes)
      ensures forall p :: Get(nodes, p) == if p == parts then Some(NodeOf(h)) else if parts < p then None
              else Get(old(nodes), p)
    {
      hide Valid;
      RemovedValid(nodes, parts);
      nodes := WithoutBelow(nodes, parts);
      assert !(parts < Parent(parts));
      PutValid(nodes, parts, NodeOf(h));
      nodes := nodes[parts := NodeOf(h)];
    }

    /** applyEntry; false when the blob store refused a file's body. */
    method ApplyEntry(h: Header, skip: Bytes -> bool) returns (ok: bool)
      requires Valid(nodes)
      modifies this
      ensures Valid(nodes)
      ensures ok <==> !RefusedBody(h, skip)
      ensures ok ==> forall p :: Get(nodes, p) == Effect(VerdictOn(h, skip, p), Get(old(nodes), p))
    {
      hide Valid, SplitClean, NodeOf;
      if h.kind == Reg && skip(TrimSlashes(h.name)) { return true; }
      var parts := SplitClean(h.name);
      SplitCleanPlain(h.name);
      if parts == [] {
        if h.kind == Dir { DescribeRoot(h); }
        return true;
      }
      DirOf(parts);
      ghost var implied := nodes;
      var parent, name := Parent(parts), Last(parts);
      if name == OPAQUE {
        RemovedValid(nodes, parent);
        nodes := WithoutBelow(nodes, parent);
        OpaqueIs(parts, h, old(nodes), implied, nodes);
        return true;
      }
      if WH <= name {
        RemovedValid(nodes, parent + [Hidden(name)]);
        nodes := Without(nodes, parent + [Hidden(name)]);
        WhiteoutIs(parts, h, old(nodes), implied, nodes);
        return true;
      }
      match h.kind {
        case Dir => ApplyDir(parts, h);
        case Reg =>
          if h.stored.None? { return false; }
          ApplyLeaf(parts, h);
        case Other =>
        case _ => ApplyLeaf(parts, h);
      }
      NodeIs(parts, h, old(nodes), implied, nodes);
      return true;
    }

    /** The root's own entry. */
    method DescribeRoot(h: Header)
      requires Valid(nodes) && h.kind == Dir
      modifies this
      ensures Valid(nodes)
      ensures forall p :: Get(nodes, p) == Effect(Judge([], h, p), Get(old(nodes), p))
    {
      var root := nodes[[]];
      nodes := nodes[[] := root.(mode := h.mode, uid := h.uid, gid := h.gid)];
      forall p | p in nodes ensures PathOk(nodes, p) { assert PathOk(old(nodes), p); }
    }

    /** Applying a stream of entries, on top of what earlier ones left, shows at every path what the
        backward scan says. */
    method ApplyAll(ghost earlier: seq<Header>, hs: seq<Header>, skip: Bytes -> bool) returns (ok: bool)
      requires Valid(nodes) && forall p :: Get(nodes, p) == Shown(earlier, skip, p)
      modifies this
      ensures Valid(nodes)
      ensures ok <==> forall h | h in hs :: !RefusedBody(h, skip)
      ensures ok ==> (forall p :: Get(nodes, p) == Shown(earlier + hs, skip, p)) && AsTold(nodes, earlier + hs, skip)
    {
      hide Valid, VerdictOn, RefusedBody, AsTold;
      assert earlier + hs[..0] == earlier;
      for i := 0 to |hs|
        invariant Valid(nodes)
        invariant forall h | h in hs[..i] :: !RefusedBody(h, skip)
        invariant forall p :: Get(nodes, p) == Shown(earlier + hs[..i], skip, p)
      {
        ghost var before := nodes;
        ok := ApplyEntry(hs[i], skip);
        if !ok { return; }
        assert (earlier + hs[..i + 1])[..|earlier| + i] == earlier + hs[..i];
        forall p ensures Get(nodes, p) == Shown(earlier + hs[..i + 1], skip, p) {
          assert Get(before, p) == Shown(earlier + hs[..i], skip, p);
        }
      }
      assert hs[..|hs|] == hs;
      ScanIsAsTold(nodes, earlier + hs, skip);
      return true;
    }

    /** Lookup: the node at a cleaned path, without following links. */
    method Lookup(s: Bytes) returns (r: Option<Node>)
      requires Valid(nodes)
      ensures r == Get(nodes, SplitClean(s))
    {
      hide Valid, SplitClean;
      var parts := SplitClean(s);
      var cur := Some(nodes[[]]) by { RootIsDir(nodes); }
      assert parts[..0] == [];
      for i := 0 to |parts|
        invariant cur == Get(nodes, parts[..i])
      {
        if cur.None? || cur.value.kind != Dir {
          NoDescent(nodes, parts, i);
          return None;
        }
        cur := Get(nodes, parts[..i + 1]);
      }
      assert parts[..|parts|] == parts;
      return cur;
    }
  }

  /** The one failure of applyEntry: a file whose body the store could not take. */
  ghost predicate RefusedBody(h: Header, skip: Bytes -> bool) {
    && !Skipped(h, skip) && h.kind == Reg && h.stored.None?
    && SplitClean(h.name) != [] && !(WH <= Last(SplitClean(h.name)))
  }

  lemma RootIsDir(t: Tree)
    requires Valid(t)
    ensures [] in t && IsDir(Get(t, []))
  {
  }

  lemma PlainPrefix(p: Path, k: nat)
    requires PlainParts(p) && k <= |p|
    ensures PlainParts(p[..k])
  {
  }

  lemma NoDescent(t: Tree, p: Path, k: nat)
    requires Valid(t) && k < |p| && !IsDir(Get(t, p[..k]))
    ensures Get(t, p) == None
  {
    if p in t { AncestorsAreDirs(t, p, k); }
  }

  lemma OpaqueIs(parts: Path, h: Header, t: Tree, implied: Tree, t': Tree)
    requires parts != [] && Last(parts) == OPAQUE && t' == WithoutBelow(implied, Parent(parts))
    requires forall p :: Get(implied, p) == Effect(if p != [] && p < parts then Imply else Pass, Get(t, p))
    ensures forall p :: Get(t', p) == Effect(Judge(parts, h, p), Get(t, p))
  {
    forall p ensures Get(t', p) == Effect(Judge(parts, h, p), Get(t, p)) {
      assert p < parts ==> p <= Parent(parts);
    }
  }

  lemma WhiteoutIs(parts: Path, h: Header, t: Tree, implied: Tree, t': Tree)
    requires parts != [] && WH <= Last(parts) && Last(parts) != OPAQUE
    requires t' == Without(implied, Parent(parts) + [Hidden(Last(parts))])
    requires forall p :: Get(implied, p) == Effect(if p != [] && p < parts then Imply else Pass, Get(t, p))
    ensures forall p :: Get(t', p) == Effect(Judge(parts, h, p), Get(t, p))
  {
    var gone := Parent(parts) + [Hidden(Last(parts))];
    forall p ensures Get(t', p) == Effect(Judge(parts, h, p), Get(t, p)) {
      if p < parts { assert |p| < |gone|; }
    }
  }

  lemma NodeIs(parts: Path, h: Header, t: Tree, implied: Tree, t': Tree)
    requires parts != [] && !(WH <= Last(parts))
    requires forall p :: Get(implied, p) == Effect(if p != [] && p < parts then Imply else Pass, Get(t, p))
    requires if h.kind == Dir then
               forall p :: Get(t', p) == Effect(if p == parts then Describe(NodeOf(h)) else Pass, Get(implied, p))
             else if h.kind == Other then t' == implied
             else forall p :: Get(t', p) == if p == parts then Some(NodeOf(h)) else if parts < p then None
                 else Get(implied, p)
    ensures forall p :: Get(t', p) == Effect(Judge(parts, h, p), Get(t, p))
  {
    hide NodeOf;
    assert WH <= OPAQUE;
    forall p ensures Get(t', p) == Effect(Judge(parts, h, p), Get(t, p)) {
      assert Get(implied, p) == Effect(if p != [] && p < parts then Imply else Pass, Get(t, p));
      if p < parts { assert p != parts && !(parts < p); }
    }
  }

  // ---------- what the scan says, entry by entry ----------

  /** A path shows exactly what the latest entry that does not pass over it says: nothing, that
      entry's node, or a directory; and with no such entry only the root exists. */
  lemma {:induction false} LatestDecides(hs: seq<Header>, skip: Bytes -> bool, p: Path, k: nat)
    requires k <= |hs| && forall j | k <= j < |hs| :: VerdictOn(hs[j], skip, p) == Pass
    ensures k == 0 ==> Shown(hs, skip, p) == if p == [] then Some(NEW_DIR) else None
    ensures k > 0 ==>
              match VerdictOn(hs[k - 1], skip, p)
              case Pass => true
              case Gone => Shown(hs, skip, p) == None
              case Set(n) => Shown(hs, skip, p) == Some(n)
              case Describe(n) => Shown(hs, skip, p) == Some(Described(n, Shown(hs[..k - 1], skip, p)))
              case Imply => IsDir(Shown(hs, skip, p))
    decreases |hs|
  {
    hide VerdictOn;
    if k < |hs| {
      var front := hs[..|hs| - 1];
      forall j | k <= j < |front| ensures VerdictOn(front[j], skip, p) == Pass { assert front[j] == hs[j]; }
      LatestDecides(front, skip, p, k);
      assert k > 0 ==> front[k - 1] == hs[k - 1] && front[..k - 1] == hs[..k - 1];
    }
  }

  /** A non-directory is shown exactly where some entry set it and every later entry passes over it. */
  lemma {:induction false} LeafShownIff(hs: seq<Header>, skip: Bytes -> bool, p: Path, n: Node)
    requires n.kind != Dir
    ensures Shown(hs, skip, p) == Some(n) <==>
              exists i :: 0 <= i < |hs| && VerdictOn(hs[i], skip, p) == Set(n) &&
                          forall j | i < j < |hs| :: VerdictOn(hs[j], skip, p) == Pass
  {
    hide VerdictOn;
    if i :| 0 <= i < |hs| && VerdictOn(hs[i], skip, p) == Set(n) && forall j | i < j < |hs| ::
        VerdictOn(hs[j], skip, p) == Pass {
      LatestDecides(hs, skip, p, i + 1);
    }
    if Shown(hs, skip, p) == Some(n) { SetSomewhere(hs, skip, p, n); }
  }

  lemma DescribesDir(h: Header, skip: Bytes -> bool, p: Path)
    ensures VerdictOn(h, skip, p).Describe? ==> VerdictOn(h, skip, p).node.kind == Dir
    ensures VerdictOn(h, skip, p).Set? ==> VerdictOn(h, skip, p).node.kind != Dir
  {
    hide SplitClean;
  }

  lemma {:induction false} SetSomewhere(hs: seq<Header>, skip: Bytes -> bool, p: Path, n: Node)
    requires n.kind != Dir && Shown(hs, skip, p) == Some(n)
    ensures exists i :: 0 <= i < |hs| && VerdictOn(hs[i], skip, p) == Set(n) &&
                        forall j | i < j < |hs| :: VerdictOn(hs[j], skip, p) == Pass
  {
    hide VerdictOn;
    var front, last := hs[..|hs| - 1], hs[|hs| - 1];
    DescribesDir(last, skip, p);
    if VerdictOn(last, skip, p) == Pass {
      SetSomewhere(front, skip, p, n);
      var i :| 0 <= i < |front| && VerdictOn(front[i], skip, p) == Set(n) &&
               forall j | i < j < |front| :: VerdictOn(front[j], skip, p) == Pass;
      assert hs[i] == front[i];
      forall j | i < j < |hs| ensures VerdictOn(hs[j], skip, p) == Pass {
        if j < |front| { assert hs[j] == front[j]; }
      }
    } else {
      assert VerdictOn(hs[|hs| - 1], skip, p) == Set(n);
    }
  }

  // ---------- what the scan says, field by field ----------

  /** Entry `i` names `p`, is no marker, and every later entry passes over `p`. */
  ghost predicate Final(hs: seq<Header>, skip: Bytes -> bool, i: nat, p: Path)
    requires i < |hs|
  {
    && p != [] && SplitClean(hs[i].name) == p && !([46, 119, 104, 46] <= Last(p)) && hs[i].kind != Other
    && !Skipped(hs[i], skip) && forall j | i < j < |hs| :: VerdictOn(hs[j], skip, p) == Pass
  }

  /** The node has the header's attributes: a file the ref and size its body was stored under, a
      symlink its target as it stands, a hardlink the cleaned target without a leading slash, a device
      its numbers.  An entry without xattrs leaves those of a directory that was there. */
  ghost predicate Carries(n: Node, h: Header, before: Option<Node>) {
    && n.kind == h.kind && n.mode == h.mode && n.uid == h.uid && n.gid == h.gid
    && n.xattrs == (if h.kind == Dir && h.xattrs == map[] && IsDir(before) then before.value.xattrs else h.xattrs)
    && (h.kind == Reg && h.stored.Some? ==> n.ref == h.stored.value.0 && n.size == h.stored.value.1)
    && (h.kind == Symlink ==> n.target == h.linkname)
    && (h.kind == Link ==> n.target == Join(SplitClean(h.linkname)) && (n.target != [] ==> n.target[0] != SLASH))
    && (h.kind == Char || h.kind == Block ==> n.devmajor == h.devmajor && n.devminor == h.devminor)
  }

  /** Every path that an entry has the last word on carries what that entry says. */
  ghost predicate AsTold(t: Tree, hs: seq<Header>, skip: Bytes -> bool) {
    forall i, p | 0 <= i < |hs| && Final(hs, skip, i, p) ::
      p in t && Carries(t[p], hs[i], Shown(hs[..i], skip, p))
  }

  lemma FinalCarries(hs: seq<Header>, skip: Bytes -> bool, i: nat, p: Path)
    requires i < |hs| && Final(hs, skip, i, p)
    ensures Shown(hs, skip, p).Some? && Carries(Shown(hs, skip, p).value, hs[i], Shown(hs[..i], skip, p))
  {
    hide SplitClean, Shown, Skipped;
    assert WH <= OPAQUE;
    LatestDecides(hs, skip, p, i + 1);
    if hs[i].kind == Link { LinkTarget(hs[i].linkname); }
  }

  lemma LinkTarget(linkname: Bytes)
    ensures var target := Join(SplitClean(linkname));
            target != [] ==> target[0] != SLASH
  {
    hide SplitClean;
    SplitCleanPlain(linkname);
    if SplitClean(linkname) != [] { assert SplitClean(linkname)[0] in SplitClean(linkname); }
  }

  lemma ScanIsAsTold(t: Tree, hs: seq<Header>, skip: Bytes -> bool)
    requires forall p :: Get(t, p) == Shown(hs, skip, p)
    ensures AsTold(t, hs, skip)
  {
    hide Final, Carries, Shown;
    forall i, p | 0 <= i < |hs| && Final(hs, skip, i, p)
      ensures p in t && Carries(t[p], hs[i], Shown(hs[..i], skip, p))
    {
      FinalCarries(hs, skip, i, p);
      assert Get(t, p) == Shown(hs, skip, p);
    }
  }

  /** An entry ".wh.x" takes away x and what is below it, ".wh..wh..opq" everything below its
      directory, until a later entry says otherwise. */
  lemma MarkersHide(hs: seq<Header>, skip: Bytes -> bool, i: nat, parent: Path, name: Name, p: Path)
    requires i < |hs| && !Skipped(hs[i], skip) && forall j | i < j < |hs| :: VerdictOn(hs[j], skip, p) == Pass
    requires SplitClean(hs[i].name) == parent + [[46, 119, 104, 46] + name]
    ensures name != [46, 119, 104, 46, 46, 111, 112, 113] && parent + [name] <= p ==> Shown(hs, skip, p) == None
    ensures name == [46, 119, 104, 46, 46, 111, 112, 113] && parent < p ==> Shown(hs, skip, p) == None
  {
    hide SplitClean, Shown, Skipped;
    var parts, marker := SplitClean(hs[i].name), WH + name;
    assert Parent(parts) == parent && Last(parts) == marker && Hidden(marker) == name;
    assert marker == OPAQUE <==> name == [46, 119, 104, 46, 46, 111, 112, 113] by {
      assert OPAQUE == WH + [46, 119, 104, 46, 46, 111, 112, 113] && OPAQUE[|WH|..] == OPAQUE[4..];
    }
    LatestDecides(hs, skip, p, i + 1);
    if parent + [name] <= p || parent < p {
      assert p != [] && !(p < parts);
      assert VerdictOn(hs[i], skip, p) == Judge(parts, hs[i], p);
    }
  }

  /** An entry for the root itself sets its mode and owner. */
  lemma RootDescribed(hs: seq<Header>, skip: Bytes -> bool, i: nat)
    requires i < |hs| && SplitClean(hs[i].name) == [] && hs[i].kind == Dir
    requires forall j | i < j < |hs| :: VerdictOn(hs[j], skip, []) == Pass
    ensures var root := Shown(hs, skip, []);
            IsDir(root) && root.value.mode == hs[i].mode && root.value.uid == hs[i].uid && root.value.gid == hs[i].gid
  {
    hide SplitClean, Shown;
    LatestDecides(hs, skip, [], i + 1);
  }

  /** A directory that no entry described has mode 0o755 and belongs to root. */
  lemma ImpliedDirectory(hs: seq<Header>, skip: Bytes -> bool, i: nat, p: Path)
    requires i < |hs| && !Skipped(hs[i], skip) && p != [] && p < SplitClean(hs[i].name)
    requires forall j | i < j < |hs| :: VerdictOn(hs[j], skip, p) == Pass
    ensures var before, after := Shown(hs[..i], skip, p), Shown(hs, skip, p);
            && IsDir(after) && (IsDir(before) ==> after == before)
            && (!IsDir(before) ==> after.value.mode == 7 * 64 + 5 * 8 + 5 && after.value.uid == after.value.gid == 0
                                   && after.value.xattrs == map[])
  {
    hide SplitClean, Skipped, VerdictOn;
    assert VerdictOn(hs[i], skip, p) == Imply by { ImpliesParents(hs[i], skip, p); }
    PassedOver(hs, skip, p, i + 1);
    assert hs[..i + 1][..i] == hs[..i];
  }

  lemma ImpliesParents(h: Header, skip: Bytes -> bool, p: Path)
    requires !Skipped(h, skip) && p != [] && p < SplitClean(h.name)
    ensures VerdictOn(h, skip, p) == Imply
  {
    hide SplitClean, Skipped;
  }

  lemma {:induction false} PassedOver(hs: seq<Header>, skip: Bytes -> bool, p: Path, k: nat)
    requires k <= |hs| && forall j | k <= j < |hs| :: VerdictOn(hs[j], skip, p) == Pass
    ensures Shown(hs, skip, p) == Shown(hs[..k], skip, p)
    decreases |hs|
  {
    hide VerdictOn;
    if k < |hs| {
      var front := hs[..|hs| - 1];
      forall j | k <= j < |front| ensures VerdictOn(front[j], skip, p) == Pass { assert front[j] == hs[j]; }
      PassedOver(front, skip, p, k);
      assert front[..k] == hs[..k];
    } else {
      assert hs[..k] == hs;
    }
  }

  /** The filter sees a name without the slashes around it. */
  lemma {:induction false} Trimmed(s: Bytes) returns (i: nat, j: nat)
    ensures i <= j <= |s| && TrimSlashes(s) == s[i..j]
    ensures (forall k | 0 <= k < i || j <= k < |s| :: s[k] == SLASH)
    ensures i < j ==> s[i] != SLASH && s[j - 1] != SLASH
  {
    i := TrimmedLeft(s);
    var n := TrimmedRight(s[i..]);
    j := i + n;
    forall k | j <= k < |s| ensures s[k] == SLASH { assert s[i..][k - i] == SLASH; }
  }

  lemma {:induction false} TrimmedLeft(s: Bytes) returns (i: nat)
    ensures i <= |s| && TrimLeft(s) == s[i..] && (forall k | 0 <= k < i :: s[k] == SLASH)
    ensures i < |s| ==> s[i] != SLASH
  {
    i := 0;
    if s != [] && s[0] == SLASH {
      var n := TrimmedLeft(s[1..]);
      i := n + 1;
      forall k | 0 < k < i ensures s[k] == SLASH { assert s[1..][k - 1] == SLASH; }
    }
  }

  lemma {:induction false} TrimmedRight(s: Bytes) returns (j: nat)
    ensures j <= |s| && TrimRight(s) == s[..j] && (forall k | j <= k < |s| :: s[k] == SLASH)
    ensures j > 0 ==> s[j - 1] != SLASH
  {
    j := |s|;
    if s != [] && s[|s| - 1] == SLASH { j := TrimmedRight(s[..|s| - 1]); }
  }
}
