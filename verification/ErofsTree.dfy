/**
 Model of the first half of WriteErofs in internal/purefs/erofs.go: mirroring a rootfs tree into
 an inode table, resolving hardlinks, and counting links.  An inode's nid is its index in the
 table, and references between inodes are nids.
 */
module ErofsTree {
  import opened Basics
  import opened Codec
  import opened Seqs
  import opened SortNames
  import opened Paths

  datatype NodeType = Dir | File | Symlink | Hardlink | Char | Block | Fifo

  datatype Node = Node(typ: NodeType, mode: nat, uid: nat, gid: nat, size: nat, ref: Bytes, target: Bytes,
                       devmajor: bv32, devminor: bv32, children: map<Name, Node>)

  /** What layer application guarantees of every name in a tree. */
  predicate ValidName(n: Name) {
    Plain(n) && 0 !in n
  }

  ghost predicate ValidTree(n: Node) {
    forall name | name in n.children :: ValidName(name) && ValidTree(n.children[name])
  }

  /** The node at a path, without following links. */
  function Resolve(n: Node, p: Path): Option<Node>
    decreases |p|
  {
    if p == [] then Some(n)
    else if n.typ != Dir || p[0] !in n.children then None
    else Resolve(n.children[p[0]], p[1..])
  }

  lemma {:induction false} ResolveSnoc(n: Node, p: Path, name: Name)
    ensures Resolve(n, p + [name]) ==
            match Resolve(n, p)
            case None => None
            case Some(d) => if d.typ == Dir && name in d.children then Some(d.children[name]) else None
    decreases |p|
  {
    if p == [] {
      assert (p + [name])[1..] == [];
    } else if n.typ == Dir && p[0] in n.children {
      ResolveSnoc(n.children[p[0]], p[1..], name);
      assert (p + [name])[1..] == p[1..] + [name];
    }
  }

  lemma {:induction false} ResolveValid(n: Node, p: Path)
    requires ValidTree(n) && Resolve(n, p).Some?
    ensures ValidTree(Resolve(n, p).value) && forall c | c in p :: ValidName(c)
    decreases |p|
  {
    if p != [] {
      ResolveValid(n.children[p[0]], p[1..]);
      assert p == [p[0]] + p[1..];
    }
  }

  // ---------- path keys ----------

  ghost predicate ValidPath(p: Path) {
    forall c | c in p :: ValidName(c)
  }

  /** path.Join of different paths gives different keys. */
  lemma KeyInjective(p: Path, q: Path)
    requires ValidPath(p) && ValidPath(q) && Join(p) == Join(q)
    ensures p == q
  {
    CleanJoin(p);
    CleanJoin(q);
  }

  // ---------- what each path of the image is meant to be ----------

  ghost predicate Mirrored(root: Node, p: Path) {
    Resolve(root, p).Some? && Resolve(root, p).value.typ != Hardlink
  }

  /** `t` is a target a hardlink with this target string can share. */
  ghost predicate LinksTo(root: Node, target: Bytes, t: Path) {
    Join(t) == target && Mirrored(root, t) && Resolve(root, t).value.typ != Dir
  }

  /** The path whose inode the entry at `p` names: itself, or the target of a hardlink that
      resolves.  A hardlink to a directory, to nothing, or to another hardlink is absent. */
  ghost function Identity(root: Node, p: Path): (r: Option<Path>)
    ensures r.Some? ==> Mirrored(root, r.value)
  {
    match Resolve(root, p)
    case None => None
    case Some(n) =>
      if n.typ != Hardlink then Some(p)
      else if exists t :: LinksTo(root, n.target, t) then (var t :| LinksTo(root, n.target, t); Some(t))
      else None
  }

  lemma IdentityOfLink(root: Node, p: Path, t: Path)
    requires ValidTree(root) && Resolve(root, p).Some? && Resolve(root, p).value.typ == Hardlink
    requires LinksTo(root, Resolve(root, p).value.target, t)
    ensures Identity(root, p) == Some(t)
  {
    var u := Identity(root, p).value;
    ResolveValid(root, t);
    ResolveValid(root, u);
    KeyInjective(t, u);
  }

  // ---------- the inode table ----------

  datatype Inode = Inode(node: Node, parent: nat, children: map<Name, nat>, nlink: nat)

  /** Nids by path, the ghost twin of byPath. */
  type Index = map<Path, nat>

  /** Paths and nids correspond, and the string-keyed map agrees. */
  ghost predicate Indexed(root: Node, t: seq<Inode>, byPath: map<Bytes, nat>, at: Index, pathOf: seq<Path>) {
    && |pathOf| == |t|
    && (forall i | 0 <= i < |t| :: pathOf[i] in at && at[pathOf[i]] == i && RowNode(root, t[i], pathOf[i]))
    && (forall p | p in at :: at[p] < |t| && pathOf[at[p]] == p)
    && (forall p | p in at :: Join(p) in byPath && byPath[Join(p)] == at[p])
    && (forall k | k in byPath :: byPath[k] < |t| && Join(pathOf[byPath[k]]) == k)
  }

  ghost predicate RowNode(root: Node, r: Inode, p: Path) {
    Mirrored(root, p) && Resolve(root, p) == Some(r.node)
  }

  ghost predicate Grows(at: Index, at': Index) {
    forall p | p in at :: p in at' && at'[p] == at[p]
  }

  /** The row of the inode mirrored at `p` names its parent and exactly its mirrored children. */
  ghost predicate RowOk(root: Node, r: Inode, at: Index, p: Path) {
    && (forall name | name in r.children :: p + [name] in at && r.children[name] == at[p + [name]])
    && (forall name | Mirrored(root, p + [name]) :: name in r.children)
    && (p != [] ==> Parent(p) in at && r.parent == at[Parent(p)])
    && (p == [] ==> r.parent == 0)
    && r.nlink == 0
  }

  lemma MirroredChild(root: Node, p: Path, name: Name)
    requires Resolve(root, p).Some?
    ensures var d := Resolve(root, p).value;
            Mirrored(root, p + [name]) <==> d.typ == Dir && name in d.children && d.children[name].typ != Hardlink
    ensures Mirrored(root, p + [name]) ==> Resolve(root, p + [name]) == Some(Resolve(root, p).value.children[name])
  {
    ResolveSnoc(root, p, name);
  }

  lemma FreshKey(root: Node, t: seq<Inode>, byPath: map<Bytes, nat>, at: Index, pathOf: seq<Path>, p: Path)
    requires ValidTree(root) && Indexed(root, t, byPath, at, pathOf) && p !in at && Mirrored(root, p)
    ensures Join(p) !in byPath
  {
    hide Join;
    if Join(p) in byPath {
      var q := pathOf[byPath[Join(p)]];
      ResolveValid(root, p);
      ResolveValid(root, q);
      KeyInjective(p, q);
    }
  }

  /** A new row at the end of the table. */
  lemma AppendRow(root: Node, t: seq<Inode>, byPath: map<Bytes, nat>, at: Index, pathOf: seq<Path>, r: Inode, p: Path)
    requires ValidTree(root) && Indexed(root, t, byPath, at, pathOf) && p !in at && RowNode(root, r, p)
    ensures Indexed(root, t + [r], byPath[Join(p) := |t|], at[p := |t|], pathOf + [p])
  {
    hide Join, ValidTree, Resolve;
    FreshKey(root, t, byPath, at, pathOf, p);
  }

  /** Changing a row's children or link count, but not its node, keeps the index. */
  lemma UpdateRow(root: Node, t: seq<Inode>, byPath: map<Bytes, nat>, at: Index, pathOf: seq<Path>, i: nat, r: Inode)
    requires Indexed(root, t, byPath, at, pathOf) && i < |t| && r.node == t[i].node
    ensures Indexed(root, t[i := r], byPath, at, pathOf)
  {
  }

  lemma RowStays(root: Node, r: Inode, at: Index, at': Index, p: Path)
    requires RowOk(root, r, at, p) && Grows(at, at')
    ensures RowOk(root, r, at', p)
  {
  }

  lemma {:induction false} ResolvePrefix(n: Node, p: Path, k: nat)
    requires Resolve(n, p).Some? && k <= |p|
    ensures Resolve(n, p[..k]).Some?
  {
    if k > 0 {
      ResolvePrefix(n.children[p[0]], p[1..], k - 1);
      assert p[..k][1..] == p[1..][..k - 1];
    }
  }

  lemma TowardsBelow(path: Path, p: Path)
    requires path < p
    ensures path + [p[|path|]] <= p && p[..|path| + 1] == path + [p[|path|]]
  {
  }

  lemma SortedDistinct(s: seq<Name>, k: nat)
    requires Sorted(s) && k < |s|
    ensures s[k] !in s[..k]
  {
    LessTotal(s[k], s[k]);
  }

  /** Every mirrored path at or below `path` has its inode. */
  ghost predicate Covers(root: Node, at: Index, path: Path) {
    forall p | path <= p && Mirrored(root, p) :: p in at
  }

  ghost predicate RowsOk(root: Node, t: seq<Inode>, at: Index, pathOf: seq<Path>, from: nat) {
    |pathOf| == |t| && forall i | from <= i < |t| :: RowOk(root, t[i], at, pathOf[i])
  }

  lemma RowsStay(root: Node, t: seq<Inode>, at: Index, pathOf: seq<Path>, from: nat,
                 t': seq<Inode>, at': Index, pathOf': seq<Path>)
    requires RowsOk(root, t, at, pathOf, from) && t <= t' && pathOf <= pathOf' && Grows(at, at')
    requires RowsOk(root, t', at', pathOf', |t|)
    ensures RowsOk(root, t', at', pathOf', from)
  {
    forall i | from <= i < |t'| ensures RowOk(root, t'[i], at', pathOf'[i]) {
      if i < |t| { RowStays(root, t[i], at, at', pathOf[i]); }
    }
  }

  /** mirror's loop: the row of the directory `path` holds the children in `done`. */
  ghost predicate Filling(root: Node, at: Index, path: Path, r: Inode, done: set<Name>) {
    && (forall p | p in at && path < p :: p[|path|] in done)
    && (forall x | x in done :: Covers(root, at, path + [x]))
    && (forall x | x in r.children :: x in done && path + [x] in at && r.children[x] == at[path + [x]])
    && (forall x | x in done && Mirrored(root, path + [x]) :: x in r.children)
  }

  lemma StartFilling(root: Node, at: Index, path: Path, r: Inode)
    requires r.children == map[] && forall p | p in at :: !(path < p)
    ensures Filling(root, at, path, r, {})
  {
  }

  /** Nothing is mirrored at or below a hardlink. */
  lemma CoversLink(root: Node, at: Index, path: Path)
    requires Resolve(root, path).Some? && Resolve(root, path).value.typ == Hardlink
    ensures Covers(root, at, path)
  {
    forall p | path <= p ensures !Mirrored(root, p) {
      if p != path {
        TowardsBelow(path, p);
        ResolveSnoc(root, path, p[|path|]);
        if Resolve(root, p).Some? { ResolvePrefix(root, p, |path| + 1); }
      }
    }
  }

  lemma FillOne(root: Node, at: Index, at': Index, path: Path, r: Inode, r': Inode, done: set<Name>, name: Name)
    requires Filling(root, at, path, r, done) && Grows(at, at') && Covers(root, at', path + [name])
    requires forall p | p in at' && p !in at :: path + [name] <= p
    requires if Mirrored(root, path + [name])
             then path + [name] in at' && r' == r.(children := r.children[name := at'[path + [name]]])
             else r' == r
    ensures Filling(root, at', path, r', done + {name})
  {
    forall x | x in done ensures Covers(root, at', path + [x]) { assert Covers(root, at, path + [x]); }
    forall p | p in at' && path < p ensures p[|path|] in done + {name} {
      if p !in at { assert p[|path|] == (path + [name])[|path|]; }
    }
  }

  lemma Filled(root: Node, at: Index, path: Path, r: Inode, done: set<Name>)
    requires Filling(root, at, path, r, done) && path in at && Resolve(root, path) == Some(r.node)
    requires r.node.typ == Dir ==> done == r.node.children.Keys
    requires path != [] ==> Parent(path) in at && at[Parent(path)] == r.parent
    requires (path == [] ==> r.parent == 0) && r.nlink == 0
    ensures Covers(root, at, path) && RowOk(root, r, at, path)
  {
    forall name | Mirrored(root, path + [name]) ensures name in done && name in r.children {
      MirroredChild(root, path, name);
    }
    forall p | path <= p && Mirrored(root, p) ensures p in at {
      if p != path {
        TowardsBelow(path, p);
        ResolvePrefix(root, p, |path| + 1);
        ResolveSnoc(root, path, p[|path|]);
        assert Covers(root, at, path + [p[|path|]]);
      }
    }
  }

  // ---------- hardlinks ----------

  /** The row of directory `p` after linkHard has visited the names in `done`. */
  ghost predicate PartlyLinked(root: Node, r: Inode, at: Index, p: Path, done: set<Name>) {
    && (forall name | name in r.children :: NamesIdentity(root, at, p + [name], r.children[name]))
    && (forall name | Mirrored(root, p + [name]) :: name in r.children)
    && (forall name | name in done && Identity(root, p + [name]).Some? :: name in r.children)
  }

  ghost predicate NamesIdentity(root: Node, at: Index, p: Path, nid: nat) {
    var id := Identity(root, p);
    id.Some? && id.value in at && nid == at[id.value]
  }

  /** A finished row: its entries are exactly the identities of the paths below it. */
  ghost predicate Linked(root: Node, r: Inode, at: Index, p: Path) {
    && (forall name | name in r.children :: NamesIdentity(root, at, p + [name], r.children[name]))
    && (forall name | Identity(root, p + [name]).Some? :: name in r.children)
    && (p != [] ==> Parent(p) in at && r.parent == at[Parent(p)])
    && (p == [] ==> r.parent == 0)
  }

  lemma IndexMirrored(root: Node, t: seq<Inode>, byPath: map<Bytes, nat>, at: Index, pathOf: seq<Path>)
    requires Indexed(root, t, byPath, at, pathOf)
    ensures forall q | q in at :: Mirrored(root, q)
  {
    forall q | q in at ensures Mirrored(root, q) { assert RowNode(root, t[at[q]], pathOf[at[q]]); }
  }

  lemma StartLinking(root: Node, r: Inode, at: Index, p: Path)
    requires RowOk(root, r, at, p) && RowNode(root, r, p) && forall q | q in at :: Mirrored(root, q)
    ensures PartlyLinked(root, r, at, p, {})
    ensures r.node.typ != Dir ==> Linked(root, r, at, p)
  {
    if r.node.typ != Dir {
      forall name ensures Identity(root, p + [name]).None? { ResolveSnoc(root, p, name); }
    }
  }

  lemma FinishLinking(root: Node, r: Inode, at: Index, p: Path, done: set<Name>)
    requires PartlyLinked(root, r, at, p, done) && RowNode(root, r, p)
    requires p != [] ==> Parent(p) in at && r.parent == at[Parent(p)]
    requires p == [] ==> r.parent == 0
    requires r.node.typ == Dir && done == r.node.children.Keys
    ensures Linked(root, r, at, p)
  {
    forall name | Identity(root, p + [name]).Some? ensures name in done { ResolveSnoc(root, p, name); }
  }

  lemma LinkOne(root: Node, r: Inode, r': Inode, at: Index, p: Path, done: set<Name>, name: Name)
    requires PartlyLinked(root, r, at, p, done)
    requires var id := Identity(root, p + [name]);
             if id.Some? && !Mirrored(root, p + [name])
             then id.value in at && r' == r.(children := r.children[name := at[id.value]])
             else r' == r
    ensures PartlyLinked(root, r', at, p, done + {name})
  {
  }

  /** Rows at and below `path` are finished ... */
  ghost predicate LinkedUnder(root: Node, t: seq<Inode>, at: Index, pathOf: seq<Path>, path: Path) {
    |pathOf| == |t| && forall i | 0 <= i < |t| && path <= pathOf[i] :: Linked(root, t[i], at, pathOf[i])
  }

  /** ... or still as mirror left them. */
  ghost predicate PlainUnder(root: Node, t: seq<Inode>, at: Index, pathOf: seq<Path>, path: Path) {
    |pathOf| == |t| && forall i | 0 <= i < |t| && path <= pathOf[i] :: RowOk(root, t[i], at, pathOf[i])
  }

  /** linkHard changes only child maps, and only at and below `path`. */
  ghost predicate LinksOnly(t: seq<Inode>, t': seq<Inode>, pathOf: seq<Path>, path: Path) {
    && |t'| == |t| == |pathOf|
    && forall i | 0 <= i < |t| ::
         && t'[i].node == t[i].node && t'[i].parent == t[i].parent && t'[i].nlink == t[i].nlink
         && (!(path <= pathOf[i]) ==> t'[i] == t[i])
  }

  /** linkHard's loop over the directory `path`: children in `done` are visited, the others are not. */
  ghost predicate Linking(root: Node, t: seq<Inode>, at: Index, pathOf: seq<Path>, path: Path, done: set<Name>) {
    && |pathOf| == |t| && path in at && at[path] < |t|
    && PartlyLinked(root, t[at[path]], at, path, done)
    && (forall x | x in done :: LinkedUnder(root, t, at, pathOf, path + [x]))
    && (forall x | x !in done :: PlainUnder(root, t, at, pathOf, path + [x]))
  }

  lemma LinkingStarts(root: Node, t: seq<Inode>, byPath: map<Bytes, nat>, at: Index, pathOf: seq<Path>, path: Path)
    requires Indexed(root, t, byPath, at, pathOf) && path in at && PlainUnder(root, t, at, pathOf, path)
    ensures Linking(root, t, at, pathOf, path, {})
  {
    IndexMirrored(root, t, byPath, at, pathOf);
    StartLinking(root, t[at[path]], at, path);
    forall x ensures PlainUnder(root, t, at, pathOf, path + [x]) {
      forall i | 0 <= i < |t| && path + [x] <= pathOf[i] ensures RowOk(root, t[i], at, pathOf[i]) {
        assert path <= pathOf[i];
      }
    }
  }

  lemma LinkingEnds(root: Node, t: seq<Inode>, byPath: map<Bytes, nat>, at: Index, pathOf: seq<Path>, path: Path,
                    done: set<Name>)
    requires Indexed(root, t, byPath, at, pathOf) && path in at && Linking(root, t, at, pathOf, path, done)
    requires var r := t[at[path]];
             && r.node.typ == Dir && done == r.node.children.Keys
             && (path != [] ==> Parent(path) in at && r.parent == at[Parent(path)])
             && (path == [] ==> r.parent == 0)
    ensures LinkedUnder(root, t, at, pathOf, path)
  {
    FinishLinking(root, t[at[path]], at, path, done);
    forall i | 0 <= i < |t| && path <= pathOf[i] ensures Linked(root, t[i], at, pathOf[i]) {
      if pathOf[i] != path {
        var x := pathOf[i][|path|];
        TowardsBelow(path, pathOf[i]);
        ResolvePrefix(root, pathOf[i], |path| + 1);
        ResolveSnoc(root, path, x);
        assert LinkedUnder(root, t, at, pathOf, path + [x]);
      }
    }
  }

  /** Visiting one child: its subtree is finished, and its own entry is in the directory's row. */
  lemma LinkingStep(root: Node, t: seq<Inode>, t': seq<Inode>, byPath: map<Bytes, nat>, at: Index, pathOf: seq<Path>,
                    path: Path, done: set<Name>, name: Name)
    requires Indexed(root, t, byPath, at, pathOf) && Linking(root, t, at, pathOf, path, done)
    requires |t'| == |t| && PartlyLinked(root, t'[at[path]], at, path, done + {name})
    requires LinkedUnder(root, t', at, pathOf, path + [name])
    requires forall i | 0 <= i < |t| && i != at[path] && !(path + [name] <= pathOf[i]) :: t'[i] == t[i]
    ensures Linking(root, t', at, pathOf, path, done + {name})
  {
    hide Linked, RowOk, PartlyLinked, RowNode, Join;
    forall x | x in done && x != name ensures LinkedUnder(root, t', at, pathOf, path + [x]) {
      forall i | 0 <= i < |t| && path + [x] <= pathOf[i] ensures Linked(root, t'[i], at, pathOf[i]) {
        Elsewhere(path, x, name, pathOf[i]);
        assert pathOf[at[path]] == path;
        assert LinkedUnder(root, t, at, pathOf, path + [x]);
      }
    }
    forall x | x !in done + {name} ensures PlainUnder(root, t', at, pathOf, path + [x]) {
      forall i | 0 <= i < |t| && path + [x] <= pathOf[i] ensures RowOk(root, t'[i], at, pathOf[i]) {
        Elsewhere(path, x, name, pathOf[i]);
        assert pathOf[at[path]] == path;
        assert PlainUnder(root, t, at, pathOf, path + [x]);
      }
    }
  }

  lemma Elsewhere(path: Path, x: Name, name: Name, p: Path)
    requires x != name && path + [x] <= p
    ensures !(path + [name] <= p) && p != path
  {
    assert (path + [x])[|path|] == x && (path + [name])[|path|] == name;
    assert p[|path|] == x;
  }

  /** The hop loop of linkHard, as written: it would follow hardlinks if the map held any. */
  function Follow(t: seq<Inode>, byPath: map<Bytes, nat>, target: Bytes, hops: nat): Option<nat>
    requires forall k | k in byPath :: byPath[k] < |t|
    decreases hops
  {
    if hops == 0 || target !in byPath then None
    else
      var i := byPath[target];
      if t[i].node.typ == Dir then None
      else if t[i].node.typ != Hardlink then Some(i)
      else Follow(t, byPath, t[i].node.target, hops - 1)
  }

  method FollowLinks(t: seq<Inode>, byPath: map<Bytes, nat>, target: Bytes) returns (r: Option<nat>)
    requires forall k | k in byPath :: byPath[k] < |t|
    ensures r == Follow(t, byPath, target, 8)
  {
    var targetPath := target;
    for hops := 0 to 8
      invariant Follow(t, byPath, target, 8) == Follow(t, byPath, targetPath, 8 - hops)
    {
      if targetPath !in byPath { return None; }
      var i := byPath[targetPath];
      if t[i].node.typ != Hardlink {
        return if t[i].node.typ == Dir then None else Some(i);
      }
      targetPath := t[i].node.target;
    }
    return None;
  }

  /** The map holds no hardlink, so the first hop decides: a link shares the inode of a mirrored
      non-directory target, and a link to a directory, a link or nothing is dropped. */
  lemma FollowDecides(root: Node, t: seq<Inode>, byPath: map<Bytes, nat>, at: Index, pathOf: seq<Path>, p: Path)
    requires ValidTree(root) && Indexed(root, t, byPath, at, pathOf) && Covers(root, at, [])
    requires Resolve(root, p).Some? && Resolve(root, p).value.typ == Hardlink
    ensures var r := Follow(t, byPath, Resolve(root, p).value.target, 8);
            var id := Identity(root, p);
            if r.Some? then id.Some? && id.value in at && at[id.value] == r.value else id.None?
  {
    var target := Resolve(root, p).value.target;
    if target !in byPath {
      NoTarget(root, t, byPath, at, pathOf, target);
    } else {
      var q := pathOf[byPath[target]];
      assert RowNode(root, t[byPath[target]], q);
      if t[byPath[target]].node.typ == Dir {
        OnlyTarget(root, target, q);
      } else {
        IdentityOfLink(root, p, q);
      }
    }
  }

  const PLAIN := Node(File, 0, 0, 0, 0, [], [], 0, 0, map[])

  /** A file "a", a hardlink "b" to it, and a hardlink "c" to the link. */
  const CHAIN := PLAIN.(typ := Dir, children := map[[97] := PLAIN, [98] := PLAIN.(typ := Hardlink, target := [97]),
                                                    [99] := PLAIN.(typ := Hardlink, target := [98])])

  /** The link shares the file's inode, and the link to the link is absent from the image. */
  lemma ChainIsDropped()
    ensures ValidTree(CHAIN) && Identity(CHAIN, [[98]]) == Some([[97]]) && Identity(CHAIN, [[99]]) == None
  {
    var b := CHAIN.children[[98]];
    assert Resolve(CHAIN, [[98]]) == Some(b) && Resolve(CHAIN, [[97]]) == Some(PLAIN);
    IdentityOfLink(CHAIN, [[98]], [[97]]);
    forall t: Path ensures !LinksTo(CHAIN, [98], t) {
      if Join(t) == [98] && Resolve(CHAIN, t).Some? {
        ResolveValid(CHAIN, t);
        KeyInjective(t, [[98]]);
      }
    }
  }

  /** No row sits at or below a hardlink, and none below any other leaf. */
  lemma LeafRows(root: Node, t: seq<Inode>, byPath: map<Bytes, nat>, at: Index, pathOf: seq<Path>, p: Path)
    requires Indexed(root, t, byPath, at, pathOf) && PlainUnder(root, t, at, pathOf, p)
    requires Resolve(root, p).Some? && Resolve(root, p).value.typ != Dir
    ensures LinkedUnder(root, t, at, pathOf, p)
  {
    hide Linked, Join;
    IndexMirrored(root, t, byPath, at, pathOf);
    forall i | 0 <= i < |t| && p <= pathOf[i] ensures Linked(root, t[i], at, pathOf[i]) {
      assert RowNode(root, t[i], pathOf[i]);
      if pathOf[i] != p {
        TowardsBelow(p, pathOf[i]);
        ResolveSnoc(root, p, pathOf[i][|p|]);
        ResolvePrefix(root, pathOf[i], |p| + 1);
      } else {
        StartLinking(root, t[i], at, p);
      }
    }
  }

  // ---------- link counts ----------

  /** The names in `among` under which a directory names inode `i`. */
  ghost function NamesOf(children: map<Name, nat>, among: set<Name>, i: nat): set<Name> {
    set name | name in among && name in children && children[name] == i
  }

  /** How many directory entries of the first `n` rows name inode `i`. */
  ghost function Links(t: seq<Inode>, n: nat, i: nat): nat
    requires n <= |t|
  {
    if n == 0 then 0 else Links(t, n - 1, i) + |NamesOf(t[n - 1].children, t[n - 1].children.Keys, i)|
  }

  /** The names in `among` that lead to directories. */
  ghost function SubdirsAmong(t: seq<Inode>, children: map<Name, nat>, among: set<Name>): set<Name> {
    set name | name in among && name in children && children[name] < |t| && t[children[name]].node.typ == Dir
  }

  ghost function Subdirs(t: seq<Inode>, i: nat): set<Name>
    requires i < |t|
  {
    SubdirsAmong(t, t[i].children, t[i].children.Keys)
  }

  /** nlink of a directory is 2 plus its subdirectories; of anything else, the entries naming it. */
  ghost predicate CountOk(t: seq<Inode>, i: nat)
    requires i < |t|
  {
    t[i].nlink == if t[i].node.typ == Dir then 2 + |Subdirs(t, i)| else Links(t, |t|, i)
  }

  ghost predicate SameButLinks(t: seq<Inode>, t': seq<Inode>) {
    |t| == |t'| && forall i | 0 <= i < |t| :: t'[i] == t[i].(nlink := t'[i].nlink)
  }

  ghost predicate ChildrenInRange(t: seq<Inode>) {
    forall d | 0 <= d < |t| :: forall name | name in t[d].children :: t[d].children[name] < |t|
  }

  lemma {:induction false} LinksSame(t: seq<Inode>, t': seq<Inode>, n: nat, i: nat)
    requires SameButLinks(t, t') && n <= |t|
    ensures Links(t, n, i) == Links(t', n, i)
  {
    if n > 0 { LinksSame(t, t', n - 1, i); }
  }

  lemma SubdirsSame(t: seq<Inode>, t': seq<Inode>, i: nat)
    requires SameButLinks(t, t') && i < |t|
    ensures Subdirs(t, i) == Subdirs(t', i)
  {
  }

  lemma NamesGrow(children: map<Name, nat>, done: set<Name>, name: Name, i: nat)
    requires name in children && name !in done
    ensures |NamesOf(children, done + {name}, i)| == |NamesOf(children, done, i)| + if children[name] == i then 1 else 0
  {
    var part, more := NamesOf(children, done, i), NamesOf(children, done + {name}, i);
    assert more == if children[name] == i then part + {name} else part;
  }

  lemma SubdirsGrow(t: seq<Inode>, children: map<Name, nat>, done: set<Name>, name: Name)
    requires name in children && name !in done && children[name] < |t|
    ensures |SubdirsAmong(t, children, done + {name})|
         == |SubdirsAmong(t, children, done)| + if t[children[name]].node.typ == Dir then 1 else 0
  {
    var part, more := SubdirsAmong(t, children, done), SubdirsAmong(t, children, done + {name});
    assert more == if t[children[name]].node.typ == Dir then part + {name} else part;
  }

  method CountSubdirs(t: seq<Inode>, i: nat) returns (n: nat)
    requires i < |t| && ChildrenInRange(t)
    ensures n == 2 + |Subdirs(t, i)|
  {
    n := 2;
    var children := t[i].children;
    assert forall name | name in children :: children[name] < |t|;
    var todo := children.Keys;
    ghost var done: set<Name> := {};
    assert SubdirsAmong(t, children, {}) == {};
    while todo != {}
      invariant todo == children.Keys - done && done <= children.Keys
      invariant n == 2 + |SubdirsAmong(t, children, done)|
    {
      hide SubdirsAmong, ChildrenInRange;
      var name :| name in todo;
      SubdirsGrow(t, children, done, name);
      if t[children[name]].node.typ == Dir {
        n := n + 1;
      }
      todo, done := todo - {name}, done + {name};
    }
    assert done == children.Keys;
  }

  /** Every non-directory's count is `Links` of the first `d` rows plus the names in `done` of row `d`. */
  ghost predicate Counted(t: seq<Inode>, t': seq<Inode>, d: nat, done: set<Name>)
    requires d < |t| == |t'|
  {
    forall i | 0 <= i < |t| && t[i].node.typ != Dir ::
      t'[i].nlink == Links(t, d, i) + |NamesOf(t[d].children, done, i)|
  }

  ghost predicate DirsKept(t: seq<Inode>, t': seq<Inode>) {
    SameButLinks(t, t') && forall i | 0 <= i < |t| && t[i].node.typ == Dir :: t'[i] == t[i]
  }

  lemma CountOne(t: seq<Inode>, t': seq<Inode>, t'': seq<Inode>, d: nat, done: set<Name>, name: Name)
    requires d < |t| && DirsKept(t, t') && Counted(t, t', d, done)
    requires name in t[d].children && name !in done && t[d].children[name] < |t|
    requires var c := t[d].children[name];
             t'' == if t[c].node.typ == Dir then t' else t'[c := t'[c].(nlink := t'[c].nlink + 1)]
    ensures DirsKept(t, t'') && Counted(t, t'', d, done + {name})
  {
    forall i | 0 <= i < |t| && t[i].node.typ != Dir
      ensures t''[i].nlink == Links(t, d, i) + |NamesOf(t[d].children, done + {name}, i)|
    {
      NamesGrow(t[d].children, done, name, i);
    }
  }

  /** The second loop of the link count: every entry of row `d` bumps the inode it names. */
  method BumpChildren(t: seq<Inode>, d: nat) returns (t': seq<Inode>)
    requires d < |t| && ChildrenInRange(t)
    requires forall i | 0 <= i < |t| && t[i].node.typ != Dir :: t[i].nlink == Links(t, d, i)
    ensures DirsKept(t, t')
    ensures forall i | 0 <= i < |t| && t[i].node.typ != Dir :: t'[i].nlink == Links(t, d + 1, i)
  {
    t' := t;
    var todo := t[d].children.Keys;
    ghost var done: set<Name> := {};
    assert Counted(t, t', d, {}) by {
      forall i ensures NamesOf(t[d].children, {}, i) == {} { }
    }
    while todo != {}
      invariant todo == t[d].children.Keys - done && done <= t[d].children.Keys
      invariant DirsKept(t, t') && Counted(t, t', d, done)
    {
      hide Counted, Links, NamesOf;
      var name :| name in todo;
      ghost var before := t';
      var c := t'[d].children[name];
      if t'[c].node.typ != Dir {
        t' := t'[c := t'[c].(nlink := t'[c].nlink + 1)];
      }
      CountOne(t, before, t', d, done, name);
      todo, done := todo - {name}, done + {name};
    }
    assert done == t[d].children.Keys;
  }

  ghost predicate CountedRows(t: seq<Inode>, t': seq<Inode>, d: nat)
    requires d <= |t|
  {
    && SameButLinks(t, t')
    && forall i | 0 <= i < |t| :: t'[i].nlink == if t[i].node.typ == Dir then 2 + |Subdirs(t, i)| else Links(t, d, i)
  }

  method CountDirs(t: seq<Inode>) returns (t': seq<Inode>)
    requires ChildrenInRange(t) && forall i | 0 <= i < |t| :: t[i].nlink == 0
    ensures CountedRows(t, t', 0)
  {
    t' := t;
    for i := 0 to |t|
      invariant SameButLinks(t, t')
      invariant forall j | i <= j < |t| :: t'[j].nlink == 0
      invariant forall j | 0 <= j < i :: t'[j].nlink == if t[j].node.typ == Dir then 2 + |Subdirs(t, j)| else 0
    {
      if t'[i].node.typ == Dir {
        SubdirsSame(t, t', i);
        var n := CountSubdirs(t', i);
        t' := t'[i := t'[i].(nlink := n)];
      }
    }
  }

  lemma CountedStep(t: seq<Inode>, t': seq<Inode>, t'': seq<Inode>, d: nat)
    requires d < |t| && CountedRows(t, t', d)
    requires if t[d].node.typ == Dir
             then DirsKept(t', t'') && forall i | 0 <= i < |t| && t[i].node.typ != Dir ::
                 t''[i].nlink == Links(t', d + 1, i)
             else t'' == t' && t[d].children == map[]
    ensures CountedRows(t, t'', d + 1)
  {
    forall i | 0 <= i < |t| ensures t''[i].nlink == if t[i].node.typ == Dir then 2 + |Subdirs(t, i)|
        else Links(t, d + 1, i) {
      LinksSame(t, t', d + 1, i);
      assert NamesOf(map[], {}, i) == {};
    }
  }

  lemma ReadyToBump(t: seq<Inode>, t': seq<Inode>, d: nat)
    requires d < |t| && CountedRows(t, t', d) && ChildrenInRange(t)
    ensures ChildrenInRange(t')
    ensures forall i | 0 <= i < |t'| && t'[i].node.typ != Dir :: t'[i].nlink == Links(t', d, i)
  {
    hide Subdirs, NamesOf;
    forall i | 0 <= i < |t'| && t'[i].node.typ != Dir ensures t'[i].nlink == Links(t', d, i) { LinksSame(t, t', d, i); }
    forall j | 0 <= j < |t'| ensures forall name | name in t'[j].children :: t'[j].children[name] < |t'| {
      assert t'[j].children == t[j].children;
    }
  }

  /** The loop over directory entries. */
  method CountEntries(t: seq<Inode>) returns (t': seq<Inode>)
    requires ChildrenInRange(t) && forall i | 0 <= i < |t| :: t[i].nlink == 0
    requires forall i | 0 <= i < |t| && t[i].node.typ != Dir :: t[i].children == map[]
    ensures CountedRows(t, t', |t|)
  {
    hide Links, Subdirs, ChildrenInRange;
    t' := CountDirs(t);
    for d := 0 to |t|
      invariant CountedRows(t, t', d)
    {
      ghost var before := t';
      if t'[d].node.typ == Dir {
        ReadyToBump(t, t', d);
        t' := BumpChildren(t', d);
      }
      CountedStep(t, before, t', d);
    }
  }

  /** The final loop: an inode that nothing named would get one link. */
  method OneIfZero(t: seq<Inode>) returns (t': seq<Inode>)
    ensures |t'| == |t|
    ensures forall i | 0 <= i < |t| :: t'[i] == if t[i].nlink == 0 then t[i].(nlink := 1) else t[i]
  {
    t' := t;
    for i := 0 to |t|
      invariant |t'| == |t| && t'[i..] == t[i..]
      invariant forall j | 0 <= j < i :: t'[j] == if t[j].nlink == 0 then t[j].(nlink := 1) else t[j]
    {
      assert t'[i..][0] == t[i];
      if t'[i].nlink == 0 {
        t' := t'[i := t'[i].(nlink := 1)];
      }
    }
  }

  /** Link counts are the entries that name each inode, and the fallback changes nothing. */
  method CountLinks(t: seq<Inode>) returns (t': seq<Inode>)
    requires ChildrenInRange(t) && forall i | 0 <= i < |t| :: t[i].nlink == 0
    requires forall i | 0 <= i < |t| && t[i].node.typ != Dir :: t[i].children == map[] && Links(t, |t|, i) > 0
    ensures SameButLinks(t, t') && forall i | 0 <= i < |t| :: CountOk(t', i)
  {
    var counted := CountEntries(t);
    t' := OneIfZero(counted);
    assert t' == counted;
    forall i | 0 <= i < |t| ensures CountOk(t', i) {
      LinksSame(t, t', |t|, i);
      SubdirsSame(t, t', i);
    }
  }

  class InodeTable {
    const root: Node
    var inodes: seq<Inode>
    var byPath: map<Bytes, nat>
    ghost var at: Index
    ghost var pathOf: seq<Path>

    constructor (root: Node)
      ensures this.root == root && inodes == [] && byPath == map[] && at == map[] && pathOf == []
    {
      this.root := root;
      inodes, byPath, at, pathOf := [], map[], map[], [];
    }

    ghost predicate Valid()
      reads this
    {
      ValidTree(root) && Indexed(root, inodes, byPath, at, pathOf)
    }

    /** The part of mirror before its loop: a row for `n` itself. */
    method AddInode(path: Path, n: Node, parent: nat) returns (nid: nat)
      requires Valid() && RowNode(root, Inode(n, parent, map[], 0), path)
      requires forall p | p in at :: !(path <= p)
      modifies this
      ensures Valid() && nid == |old(inodes)| && |pathOf| == |inodes| == nid + 1
      ensures inodes == old(inodes) + [Inode(n, parent, map[], 0)] && pathOf == old(pathOf) + [path]
      ensures at == old(at)[path := nid] && path !in old(at)
      ensures Filling(root, at, path, inodes[nid], {}) && RowsOk(root, inodes, at, pathOf, nid + 1)
    {
      hide Indexed, RowOk, Covers, Filling, Mirrored;
      nid := |inodes|;
      AppendRow(root, inodes, byPath, at, pathOf, Inode(n, parent, map[], 0), path);
      inodes := inodes + [Inode(n, parent, map[], 0)];
      byPath := byPath[Join(path) := nid];
      at, pathOf := at[path := nid], pathOf + [path];
      StartFilling(root, at, path, inodes[nid]);
      IndexedRow(root, inodes, byPath, at, pathOf, path);
    }

    /** mirror: appends the subtree at `path`. */
    method Mirror(path: Path, n: Node, parent: nat) returns (nid: nat)
      requires Valid() && RowNode(root, Inode(n, parent, map[], 0), path)
      requires forall p | p in at :: !(path <= p)
      requires path != [] ==> Parent(path) in at && at[Parent(path)] == parent
      requires path == [] ==> parent == 0 && inodes == []
      modifies this
      ensures Valid() && nid == |old(inodes)| < |inodes|
      ensures old(inodes) <= inodes && old(pathOf) <= pathOf
      ensures Grows(old(at), at) && path in at && at[path] == nid
      ensures forall p | p in at && p !in old(at) :: path <= p
      ensures Covers(root, at, path) && RowsOk(root, inodes, at, pathOf, nid)
      decreases n, 2
    {
      hide Indexed, RowOk, Covers, Filling, Mirrored;
      nid := AddInode(path, n, parent);
      ghost var done := {};
      if n.typ == Dir {
        done := MirrorChildren(path, nid);
      }
      IndexedRow(root, inodes, byPath, at, pathOf, path);
      Filled(root, at, path, inodes[nid], done);
    }

    /** mirror's loop over the sorted child names. */
    method MirrorChildren(path: Path, nid: nat) returns (ghost done: set<Name>)
      requires Valid() && nid + 1 == |inodes| == |pathOf| && path in at && at[path] == nid
      requires inodes[nid].node.typ == Dir
      requires Filling(root, at, path, inodes[nid], {}) && RowsOk(root, inodes, at, pathOf, nid + 1)
      modifies this
      ensures Valid() && nid < |inodes| == |pathOf| && inodes[..nid] == old(inodes)[..nid] && old(pathOf) <= pathOf
      ensures Grows(old(at), at) && forall p | p in at && p !in old(at) :: path <= p
      ensures inodes[nid].(children := map[]) == old(inodes)[nid].(children := map[])
      ensures done == inodes[nid].node.children.Keys && Filling(root, at, path, inodes[nid], done)
      ensures RowsOk(root, inodes, at, pathOf, nid + 1)
      decreases inodes[nid].node, 1
    {
      hide Indexed, RowOk, Covers, Filling, Mirrored;
      var names := SortSet(inodes[nid].node.children.Keys);
      done := {};
      for k := 0 to |names|
        invariant Valid() && nid < |inodes| == |pathOf| && path in at && at[path] == nid
        invariant inodes[..nid] == old(inodes)[..nid] && old(pathOf) <= pathOf
        invariant Grows(old(at), at) && forall p | p in at && p !in old(at) :: path <= p
        invariant inodes[nid].(children := map[]) == old(inodes)[nid].(children := map[])
        invariant forall x :: x in done <==> x in names[..k]
        invariant Filling(root, at, path, inodes[nid], done) && RowsOk(root, inodes, at, pathOf, nid + 1)
      {
        SortedDistinct(names, k);
        done := MirrorChild(path, nid, names[k], done);
      }
      assert names[..|names|] == names;
    }

    /** One iteration of mirror's loop. */
    method MirrorChild(path: Path, nid: nat, name: Name, ghost done: set<Name>) returns (ghost done': set<Name>)
      requires Valid() && nid < |inodes| && path in at && at[path] == nid
      requires inodes[nid].node.typ == Dir && name in inodes[nid].node.children && name !in done
      requires Filling(root, at, path, inodes[nid], done) && RowsOk(root, inodes, at, pathOf, nid + 1)
      modifies this
      ensures Valid() && nid < |old(inodes)| <= |inodes| && old(pathOf) <= pathOf && Grows(old(at), at)
      ensures inodes[..nid] == old(inodes)[..nid]
      ensures inodes[nid].(children := map[]) == old(inodes)[nid].(children := map[])
      ensures forall p | p in at && p !in old(at) :: path <= p
      ensures done' == done + {name} && Filling(root, at, path, inodes[nid], done')
      ensures RowsOk(root, inodes, at, pathOf, nid + 1)
      decreases inodes[nid].node, 0
    {
      hide Indexed, RowOk, Covers, Filling;
      done' := done + {name};
      var c := inodes[nid].node.children[name];
      IndexedRow(root, inodes, byPath, at, pathOf, path);
      MirroredChild(root, path, name);
      ResolveSnoc(root, path, name);
      if c.typ == Hardlink {
        CoversLink(root, at, path + [name]);
        FillOne(root, at, at, path, inodes[nid], inodes[nid], done, name);
        return;
      }
      NotBelow(root, at, path, inodes[nid], done, name);
      var child := Mirror(path + [name], c, nid);
      var r := inodes[nid];
      var r' := r.(children := r.children[name := child]);
      FillOne(root, old(at), at, path, r, r', done, name);
      RowsStay(root, old(inodes), old(at), old(pathOf), nid + 1, inodes, at, pathOf);
      UpdateRow(root, inodes, byPath, at, pathOf, nid, r');
      inodes := inodes[nid := r'];
    }

    // ----- linkHard -----

    method LinkHard(path: Path, nid: nat)
      requires Valid() && Covers(root, at, []) && path in at && at[path] == nid
      requires inodes[nid].node.typ == Dir && PlainUnder(root, inodes, at, pathOf, path)
      modifies this`inodes
      ensures Valid() && LinksOnly(old(inodes), inodes, pathOf, path) && LinkedUnder(root, inodes, at, pathOf, path)
      decreases inodes[nid].node, 1
    {
      hide Indexed, Covers, Linking, PartlyLinked, LinkedUnder, LinksOnly, RowOk;
      LinkingStarts(root, inodes, byPath, at, pathOf, path);
      PlainRow(root, inodes, byPath, at, pathOf, path);
      LinksNothing(inodes, pathOf, path);
      var n := inodes[nid].node;
      ghost var parent := inodes[nid].parent;
      var names := SortSet(n.children.Keys);
      ghost var done: set<Name> := {};
      for k := 0 to |names|
        invariant Valid() && nid < |inodes| && inodes[nid].node == n && inodes[nid].parent == parent
        invariant forall x :: x in done <==> x in names[..k]
        invariant Linking(root, inodes, at, pathOf, path, done)
        invariant LinksOnly(old(inodes), inodes, pathOf, path)
      {
        SortedDistinct(names, k);
        ghost var before := inodes;
        LinkChild(path, nid, names[k], done);
        LinksCompose(old(inodes), before, inodes, pathOf, path, path);
        LinksKeepNode(before, inodes, pathOf, path, nid);
        done := done + {names[k]};
      }
      assert names[..|names|] == names;
      assert done == n.children.Keys;
      LinkingEnds(root, inodes, byPath, at, pathOf, path, done);
    }

    /** The hardlink case: the directory's row gets the entry, if the target allows one. */
    method LinkEntry(path: Path, nid: nat, name: Name, target: Bytes, ghost done: set<Name>)
      requires Valid() && Covers(root, at, []) && path in at && at[path] == nid && nid < |inodes| == |pathOf|
      requires Resolve(root, path + [name]).Some? && Resolve(root, path + [name]).value.typ == Hardlink
      requires Resolve(root, path + [name]).value.target == target && pathOf[nid] == path
      requires PartlyLinked(root, inodes[nid], at, path, done) && PlainUnder(root, inodes, at, pathOf, path + [name])
      modifies this`inodes
      ensures Valid() && |inodes| == |old(inodes)| && inodes == old(inodes)[nid := inodes[nid]]
      ensures inodes[nid] == old(inodes)[nid].(children := inodes[nid].children)
      ensures PartlyLinked(root, inodes[nid], at, path, done + {name})
      ensures LinkedUnder(root, inodes, at, pathOf, path + [name])
    {
      hide Indexed, Covers, PartlyLinked, LinkedUnder, PlainUnder, RowOk, Identity, Resolve;
      var child := path + [name];
      KeysInRange(root, inodes, byPath, at, pathOf);
      LeafRows(root, inodes, byPath, at, pathOf, child);
      FollowDecides(root, inodes, byPath, at, pathOf, child);
      var nid' := FollowLinks(inodes, byPath, target);
      var r := inodes[nid];
      var r' := if nid'.Some? then r.(children := r.children[name := nid'.value]) else r;
      LinkOne(root, r, r', at, path, done, name);
      UpdateRow(root, inodes, byPath, at, pathOf, nid, r');
      OtherRowsLinked(root, inodes, at, pathOf, child, nid, r');
      inodes := inodes[nid := r'];
    }

    /** The switch of linkHard for one child. */
    method LinkChild(path: Path, nid: nat, name: Name, ghost done: set<Name>)
      requires Valid() && Covers(root, at, []) && path in at && at[path] == nid && nid < |inodes|
      requires inodes[nid].node.typ == Dir && name in inodes[nid].node.children && name !in done
      requires Linking(root, inodes, at, pathOf, path, done)
      modifies this`inodes
      ensures Valid() && LinksOnly(old(inodes), inodes, pathOf, path)
      ensures Linking(root, inodes, at, pathOf, path, done + {name})
      decreases inodes[nid].node, 0
    {
      hide Indexed, Covers, PartlyLinked, LinkedUnder, RowOk, Identity;
      var c := inodes[nid].node.children[name];
      var child := path + [name];
      ghost var t := inodes;
      IndexedRow(root, inodes, byPath, at, pathOf, path);
      ResolveSnoc(root, path, name);
      assert PlainUnder(root, inodes, at, pathOf, child);
      if c.typ == Hardlink {
        LinkEntry(path, nid, name, c.target, done);
      } else if c.typ == Dir {
        MirroredIdentity(root, child);
        ChildRow(root, inodes, byPath, at, pathOf, path, name);
        LinkHard(child, byPath[Join(child)]);
        LinkOne(root, inodes[nid], inodes[nid], at, path, done, name);
      } else {
        MirroredIdentity(root, child);
        LeafRows(root, inodes, byPath, at, pathOf, child);
        LinkOne(root, inodes[nid], inodes[nid], at, path, done, name);
      }
      LinkingStep(root, t, inodes, byPath, at, pathOf, path, done, name);
    }
  }

  lemma KeysInRange(root: Node, t: seq<Inode>, byPath: map<Bytes, nat>, at: Index, pathOf: seq<Path>)
    requires Indexed(root, t, byPath, at, pathOf)
    ensures forall k | k in byPath :: byPath[k] < |t|
  {
  }

  lemma MirroredIdentity(root: Node, p: Path)
    requires Mirrored(root, p)
    ensures Identity(root, p) == Some(p)
  {
  }

  lemma OtherRowsLinked(root: Node, t: seq<Inode>, at: Index, pathOf: seq<Path>, p: Path, i: nat, r: Inode)
    requires LinkedUnder(root, t, at, pathOf, p) && i < |t| && !(p <= pathOf[i])
    ensures LinkedUnder(root, t[i := r], at, pathOf, p)
  {
  }

  lemma ChildRow(root: Node, t: seq<Inode>, byPath: map<Bytes, nat>, at: Index, pathOf: seq<Path>, path: Path,
                 name: Name)
    requires Indexed(root, t, byPath, at, pathOf) && Covers(root, at, []) && Mirrored(root, path + [name])
    ensures var child := path + [name];
            && child in at && Join(child) in byPath && byPath[Join(child)] == at[child] < |t|
            && RowNode(root, t[at[child]], child)
  {
    assert [] <= path + [name];
    IndexedRow(root, t, byPath, at, pathOf, path + [name]);
  }

  lemma NoTarget(root: Node, t: seq<Inode>, byPath: map<Bytes, nat>, at: Index, pathOf: seq<Path>, target: Bytes)
    requires Indexed(root, t, byPath, at, pathOf) && Covers(root, at, []) && target !in byPath
    ensures forall p :: !LinksTo(root, target, p)
  {
    assert forall p: Path {:trigger LinksTo(root, target, p)} :: [] <= p;
  }

  lemma OnlyTarget(root: Node, target: Bytes, p: Path)
    requires ValidTree(root) && Join(p) == target && Mirrored(root, p) && Resolve(root, p).value.typ == Dir
    ensures forall q :: !LinksTo(root, target, q)
  {
    forall q ensures !LinksTo(root, target, q) {
      if LinksTo(root, target, q) {
        ResolveValid(root, p);
        ResolveValid(root, q);
        KeyInjective(p, q);
      }
    }
  }

  lemma PlainRow(root: Node, t: seq<Inode>, byPath: map<Bytes, nat>, at: Index, pathOf: seq<Path>, path: Path)
    requires Indexed(root, t, byPath, at, pathOf) && path in at && PlainUnder(root, t, at, pathOf, path)
    ensures at[path] < |t| && RowNode(root, t[at[path]], path) && RowOk(root, t[at[path]], at, path)
  {
  }

  lemma LinksNothing(t: seq<Inode>, pathOf: seq<Path>, path: Path)
    requires |pathOf| == |t|
    ensures LinksOnly(t, t, pathOf, path)
  {
  }

  lemma LinksCompose(t: seq<Inode>, t': seq<Inode>, t'': seq<Inode>, pathOf: seq<Path>, path: Path, below: Path)
    requires LinksOnly(t, t', pathOf, path) && LinksOnly(t', t'', pathOf, below) && path <= below
    ensures LinksOnly(t, t'', pathOf, path)
  {
  }

  lemma LinksKeepNode(t: seq<Inode>, t': seq<Inode>, pathOf: seq<Path>, path: Path, i: nat)
    requires LinksOnly(t, t', pathOf, path) && i < |t|
    ensures i < |t'| && t'[i].node == t[i].node && t'[i].parent == t[i].parent
  {
  }

  lemma IndexedRow(root: Node, t: seq<Inode>, byPath: map<Bytes, nat>, at: Index, pathOf: seq<Path>, p: Path)
    requires Indexed(root, t, byPath, at, pathOf) && p in at
    ensures at[p] < |t| == |pathOf| && pathOf[at[p]] == p && RowNode(root, t[at[p]], p)
  {
  }

  lemma NotBelow(root: Node, at: Index, path: Path, r: Inode, done: set<Name>, name: Name)
    requires Filling(root, at, path, r, done) && name !in done
    ensures forall p | p in at :: !(path + [name] <= p)
  {
    assert (path + [name])[|path|] == name;
  }

  // ---------- the finished table ----------

  /** What the image is built from: one row per mirrored path, entries as Identity says, counted. */
  ghost predicate Finished(root: Node, t: seq<Inode>, at: Index, pathOf: seq<Path>) {
    && |pathOf| == |t| > 0 && pathOf[0] == []
    && (forall i | 0 <= i < |t| :: pathOf[i] in at && at[pathOf[i]] == i && RowNode(root, t[i], pathOf[i]))
    && (forall p | p in at :: at[p] < |t| && pathOf[at[p]] == p)
    && (forall p | Mirrored(root, p) :: p in at)
    && (forall i | 0 <= i < |t| :: Linked(root, t[i], at, pathOf[i]))
    && (forall i | 0 <= i < |t| :: CountOk(t, i))
  }

  lemma RowPathsDistinct(root: Node, t: seq<Inode>, at: Index, pathOf: seq<Path>)
    requires Finished(root, t, at, pathOf)
    ensures |pathOf| == |t| && Distinct(pathOf)
  {
    hide RowNode, Linked, CountOk, Mirrored;
  }

  /** Following entries of the table from nid 0. */
  ghost function Walk(t: seq<Inode>, p: Path): Option<nat>
    decreases |p|
  {
    if p == [] then Some(0) else
    match Walk(t, Parent(p))
    case None => None
    case Some(d) => if d < |t| && p[|p| - 1] in t[d].children then Some(t[d].children[p[|p| - 1]]) else None
  }

  /** Only a directory, which is its own identity, has anything below it. */
  lemma BelowIdentity(root: Node, q: Path, name: Name)
    requires Identity(root, q + [name]).Some?
    ensures Identity(root, q) == Some(q) && Resolve(root, q).Some? && Resolve(root, q).value.typ == Dir
  {
    hide LinksTo;
    ResolveSnoc(root, q, name);
  }

  lemma FinishedRow(root: Node, t: seq<Inode>, at: Index, pathOf: seq<Path>, p: Path)
    requires Finished(root, t, at, pathOf) && Mirrored(root, p)
    ensures p in at && at[p] < |t| && RowNode(root, t[at[p]], p) && Linked(root, t[at[p]], at, p)
    ensures [] in at && at[[]] == 0
  {
    assert RowNode(root, t[at[p]], pathOf[at[p]]) && Linked(root, t[at[p]], at, pathOf[at[p]]);
    assert at[pathOf[0]] == 0;
  }

  /** Following entries reaches exactly the paths with an identity, at that identity's inode: two
      paths share an inode precisely when one is a hardlink to the other or both link to a third. */
  lemma {:induction false} WalkFindsIdentity(root: Node, t: seq<Inode>, at: Index, pathOf: seq<Path>, p: Path)
    requires Finished(root, t, at, pathOf)
    ensures var id := Identity(root, p);
            if id.Some? then id.value in at && Walk(t, p) == Some(at[id.value]) else Walk(t, p) == None
    decreases |p|
  {
    hide Finished, Identity, Linked, RowNode, Mirrored;
    if p == [] {
      RootIdentity(root, t, at, pathOf);
    } else {
      var q, name := Parent(p), p[|p| - 1];
      assert p == q + [name];
      WalkFindsIdentity(root, t, at, pathOf, q);
      var id := Identity(root, q);
      if id.Some? {
        FinishedRow(root, t, at, pathOf, id.value);
        EntryFindsIdentity(root, t[at[id.value]], at, q, name);
      } else if Identity(root, p).Some? {
        BelowIdentity(root, q, name);
      }
    }
  }

  lemma RootIdentity(root: Node, t: seq<Inode>, at: Index, pathOf: seq<Path>)
    requires Finished(root, t, at, pathOf)
    ensures Identity(root, []) == Some([]) && [] in at && at[[]] == 0
  {
    assert RowNode(root, t[0], pathOf[0]) && at[pathOf[0]] == 0;
  }

  lemma EntryFindsIdentity(root: Node, r: Inode, at: Index, q: Path, name: Name)
    requires Identity(root, q).Some? && RowNode(root, r, Identity(root, q).value) &&
             Linked(root, r, at, Identity(root, q).value)
    ensures var id := Identity(root, q + [name]);
            if id.Some? then id.value in at && name in r.children && r.children[name] == at[id.value]
            else name !in r.children
  {
    hide LinksTo, Mirrored, Resolve;
    var id := Identity(root, q).value;
    if Identity(root, q + [name]).Some? {
      BelowIdentity(root, q, name);
      assert NamesIdentity(root, at, q + [name], r.children[name]);
    } else if name in r.children {
      assert NamesIdentity(root, at, id + [name], r.children[name]);
      BelowIdentity(root, id, name);
      SelfIdentity(root, q, id);
    }
  }

  /** A path whose identity is a directory is that directory. */
  lemma SelfIdentity(root: Node, q: Path, id: Path)
    requires Identity(root, q) == Some(id) && Resolve(root, id).Some? && Resolve(root, id).value.typ == Dir
    ensures id == q
  {
  }

  lemma LeafHasNoEntries(root: Node, r: Inode, at: Index, p: Path)
    requires Linked(root, r, at, p) && RowNode(root, r, p) && r.node.typ != Dir
    ensures r.children == map[]
  {
    forall name ensures name !in r.children {
      ResolveSnoc(root, p, name);
    }
  }

  lemma {:induction false} LinkCounted(t: seq<Inode>, n: nat, d: nat, name: Name)
    requires d < n <= |t| && name in t[d].children
    ensures Links(t, n, t[d].children[name]) > 0
  {
    if d < n - 1 {
      LinkCounted(t, n - 1, d, name);
    } else {
      assert name in NamesOf(t[d].children, t[d].children.Keys, t[d].children[name]);
    }
  }

  /** Linked rows satisfy what the link count needs. */
  lemma ReadyToCount(root: Node, t: seq<Inode>, byPath: map<Bytes, nat>, at: Index, pathOf: seq<Path>)
    requires Indexed(root, t, byPath, at, pathOf) && root.typ == Dir
    requires forall i | 0 <= i < |t| :: Linked(root, t[i], at, pathOf[i])
    ensures ChildrenInRange(t)
    ensures forall i | 0 <= i < |t| && t[i].node.typ != Dir :: t[i].children == map[] && Links(t, |t|, i) > 0
  {
    hide Linked, Indexed, RowNode, Links;
    forall d | 0 <= d < |t| ensures forall name | name in t[d].children :: t[d].children[name] < |t| {
      EntriesInRange(root, t, byPath, at, pathOf, d);
    }
    forall i | 0 <= i < |t| && t[i].node.typ != Dir ensures t[i].children == map[] && Links(t, |t|, i) > 0 {
      IndexedAt(root, t, byPath, at, pathOf, i);
      LeafHasNoEntries(root, t[i], at, pathOf[i]);
      RootIsDir(root, t[i], pathOf[i]);
      NamedByParent(root, t, byPath, at, pathOf, i);
    }
  }

  lemma IndexedAt(root: Node, t: seq<Inode>, byPath: map<Bytes, nat>, at: Index, pathOf: seq<Path>, i: nat)
    requires Indexed(root, t, byPath, at, pathOf) && i < |t|
    ensures |pathOf| == |t| && pathOf[i] in at && at[pathOf[i]] == i && RowNode(root, t[i], pathOf[i])
  {
  }

  lemma EntriesInRange(root: Node, t: seq<Inode>, byPath: map<Bytes, nat>, at: Index, pathOf: seq<Path>, d: nat)
    requires Indexed(root, t, byPath, at, pathOf) && d < |t| && Linked(root, t[d], at, pathOf[d])
    ensures forall name | name in t[d].children :: t[d].children[name] < |t|
  {
    hide RowNode, Join, Identity;
    forall name | name in t[d].children ensures t[d].children[name] < |t| {
      assert NamesIdentity(root, at, pathOf[d] + [name], t[d].children[name]);
    }
  }

  /** Every inode but the root's is named by its parent's row. */
  lemma NamedByParent(root: Node, t: seq<Inode>, byPath: map<Bytes, nat>, at: Index, pathOf: seq<Path>, i: nat)
    requires Indexed(root, t, byPath, at, pathOf) && i < |t| && pathOf[i] != []
    requires forall j | 0 <= j < |t| :: Linked(root, t[j], at, pathOf[j])
    ensures Links(t, |t|, i) > 0
  {
    hide Indexed, Links, LinksTo, Resolve, Join;
    IndexedAt(root, t, byPath, at, pathOf, i);
    var p := pathOf[i];
    var q, name := Parent(p), p[|p| - 1];
    assert p == q + [name];
    MirroredIdentity(root, p);
    assert Linked(root, t[i], at, pathOf[i]);
    var d := at[q];
    IndexedRow(root, t, byPath, at, pathOf, q);
    assert Linked(root, t[d], at, pathOf[d]);
    assert NamesIdentity(root, at, q + [name], t[d].children[name]);
    LinkCounted(t, |t|, d, name);
  }

  lemma RootIsDir(root: Node, r: Inode, p: Path)
    requires root.typ == Dir && RowNode(root, r, p) && r.node.typ != Dir
    ensures p != []
  {
  }

  lemma FinishedAfterCount(root: Node, t: seq<Inode>, t': seq<Inode>, byPath: map<Bytes, nat>, at: Index,
                           pathOf: seq<Path>)
    requires Indexed(root, t, byPath, at, pathOf) && Covers(root, at, []) && |t| > 0 && pathOf[0] == []
    requires LinkedUnder(root, t, at, pathOf, []) && SameButLinks(t, t')
    requires forall i | 0 <= i < |t| :: CountOk(t', i)
    ensures Finished(root, t', at, pathOf)
  {
    hide CountOk, Join, Linked, RowNode;
    assert forall p: Path {:trigger Mirrored(root, p)} :: [] <= p;
    forall i | 0 <= i < |t| ensures Linked(root, t'[i], at, pathOf[i]) && RowNode(root, t'[i], pathOf[i]) {
      assert [] <= pathOf[i];
      LinkedSame(root, t[i], t'[i], at, pathOf[i]);
    }
  }

  lemma LinkedSame(root: Node, r: Inode, r': Inode, at: Index, p: Path)
    requires Linked(root, r, at, p) && RowNode(root, r, p) && r' == r.(nlink := r'.nlink)
    ensures Linked(root, r', at, p) && RowNode(root, r', p)
  {
  }

  /** Pass 1 of WriteErofs: mirror, hardlinks, link counts. */
  method BuildTable(root: Node) returns (t: seq<Inode>, ghost at: Index, ghost pathOf: seq<Path>)
    requires ValidTree(root) && root.typ == Dir
    ensures Finished(root, t, at, pathOf)
    ensures forall p :: Walk(t, p).Some? <==> Identity(root, p).Some?
    ensures forall i | 0 <= i < |t| :: CountOk(t, i)
  {
    hide RowOk, Covers, LinkedUnder, PlainUnder, Linked, CountOk, Finished, RowsOk, ChildrenInRange, Links, Walk,
      Identity;
    var w := new InodeTable(root);
    assert Indexed(root, [], map[], map[], []);
    var nid := w.Mirror([], root, 0);
    PlainEverywhere(root, w.inodes, w.at, w.pathOf);
    IndexedRow(root, w.inodes, w.byPath, w.at, w.pathOf, []);
    ghost var mirrored := w.inodes;
    w.LinkHard([], 0);
    LinkedEverywhere(root, mirrored, w.inodes, w.at, w.pathOf);
    ReadyToCount(root, w.inodes, w.byPath, w.at, w.pathOf);
    t := CountLinks(w.inodes);
    at, pathOf := w.at, w.pathOf;
    FinishedAfterCount(root, w.inodes, t, w.byPath, at, pathOf);
    forall p ensures Walk(t, p).Some? <==> Identity(root, p).Some? { WalkFindsIdentity(root, t, at, pathOf, p); }
  }

  lemma PlainEverywhere(root: Node, t: seq<Inode>, at: Index, pathOf: seq<Path>)
    requires RowsOk(root, t, at, pathOf, 0)
    ensures PlainUnder(root, t, at, pathOf, [])
  {
  }

  lemma LinkedEverywhere(root: Node, t: seq<Inode>, t': seq<Inode>, at: Index, pathOf: seq<Path>)
    requires RowsOk(root, t, at, pathOf, 0) && LinksOnly(t, t', pathOf, []) && LinkedUnder(root, t', at, pathOf, [])
    ensures forall i | 0 <= i < |t'| :: Linked(root, t'[i], at, pathOf[i]) && t'[i].nlink == 0
  {
    forall i | 0 <= i < |t'| ensures Linked(root, t'[i], at, pathOf[i]) && t'[i].nlink == 0 {
      assert [] <= pathOf[i];
      assert RowOk(root, t[i], at, pathOf[i]);
    }
  }
}
