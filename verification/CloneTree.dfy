/**
 Model of CloneTree in internal/purefs/clone.go on the heap: nodes, child maps, xattr maps and xattr
 values are objects, and the input may share them or even contain cycles.
 */
module CloneTree {
  import opened Basics

  class ChildMap {
    var m: map<Name, Node?>
    constructor ()
      ensures m == map[]
    {
      m := map[];
    }
  }

  class XattrMap {
    var m: map<Bytes, array<byte>>
    constructor ()
      ensures m == map[]
    {
      m := map[];
    }
  }

  datatype Meta = Meta(typ: nat, mode: int, uid: int, gid: int, size: nat, ref: Bytes, target: Bytes, devmajor: int,
      devminor: int)

  class Node {
    var meta: Meta
    var children: ChildMap?
    var xattrs: XattrMap?
    constructor (meta: Meta, children: ChildMap?, xattrs: XattrMap?)
      ensures this.meta == meta && this.children == children && this.xattrs == xattrs
    {
      this.meta, this.children, this.xattrs := meta, children, xattrs;
    }
  }

  /** The memo: every original seen so far with its copy. */
  type Memo = map<Node, Node>

  ghost predicate Extends(a: Memo, b: Memo) {
    forall n | n in a :: n in b && b[n] == a[n]
  }

  // ---------- the input graph ----------

  /** `all` contains the children of its members, and `orig` every object they are made of. */
  ghost predicate Graph(all: set<Node>, orig: set<object>)
    reads orig
  {
    forall n | n in all :: InGraph(n, all, orig)
  }

  ghost predicate InGraph(n: Node, all: set<Node>, orig: set<object>)
    reads orig
  {
    && n in orig
    && (n.children != null ==> n.children in orig && ChildrenIn(n.children.m, all))
    && (n.xattrs != null ==> n.xattrs in orig && forall k | k in n.xattrs.m :: n.xattrs.m[k] in orig)
  }

  ghost predicate ChildrenIn(m: map<Name, Node?>, all: set<Node>) {
    forall name | name in m && m[name] != null :: m[name] in all
  }

  // ---------- what a copy is ----------

  ghost predicate SameChild(a: Node?, b: Node?, seen: Memo) {
    if a == null then b == null else a in seen && b == seen[a]
  }

  /** The same names lead to corresponding nodes. */
  ghost predicate SameChildren(a: map<Name, Node?>, b: map<Name, Node?>, seen: Memo) {
    a.Keys == b.Keys && forall name | name in a :: SameChild(a[name], b[name], seen)
  }

  ghost predicate SameXattrs(a: XattrMap, b: XattrMap, made: set<object>, orig: set<object>)
    requires a in orig && b in made
    reads made, orig
  {
    a.m.Keys == b.m.Keys && forall k | k in a.m :: a.m[k] in orig && b.m[k] in made && a.m[k][..] == b.m[k][..]
  }

  /** `c` copies `n`: same attributes, corresponding children, equal xattrs; and `c`, its maps and its
      xattr values are all among the objects in `made`. */
  ghost predicate Copies(n: Node, c: Node, seen: Memo, made: set<object>, orig: set<object>)
    reads made, orig
  {
    && n in orig && c in made && c.meta == n.meta
    && (n.children == null <==> c.children == null)
    && (n.children != null ==>
          n.children in orig && c.children in made && SameChildren(n.children.m, c.children.m, seen))
    && (n.xattrs == null <==> c.xattrs == null)
    && (n.xattrs != null ==> n.xattrs in orig && c.xattrs in made && SameXattrs(n.xattrs, c.xattrs, made, orig))
  }

  /** Every original that `seen'` has beyond `seen` has a finished copy. */
  ghost predicate Finished(seen: Memo, seen': Memo, made: set<object>, orig: set<object>)
    reads made, orig
  {
    forall x | x in seen' && x !in seen :: Copies(x, seen'[x], seen', made, orig)
  }

  ghost predicate Injective(seen: Memo) {
    forall x, y | x in seen && y in seen && x != y :: seen[x] != seen[y]
  }

  lemma CopiesGrow(n: Node, c: Node, seen: Memo, seen': Memo, made: set<object>, made': set<object>, orig: set<object>)
    requires Copies(n, c, seen, made, orig) && Extends(seen, seen') && made <= made'
    ensures Copies(n, c, seen', made', orig)
  {
  }

  lemma FinishedJoin(a: Memo, b: Memo, c: Memo, made: set<object>, more: set<object>, orig: set<object>)
    requires Finished(a, b, made, orig) && Finished(b, c, more, orig) && Extends(a, b) && Extends(b, c)
    ensures Finished(a, c, made + more, orig)
  {
    hide Copies;
    forall x | x in c && x !in a ensures Copies(x, c[x], c, made + more, orig) {
      if x in b {
        CopiesGrow(x, b[x], b, c, made, made + more, orig);
      } else {
        CopiesGrow(x, c[x], c, c, more, made + more, orig);
      }
    }
  }

  lemma InGraphIn(n: Node, all: set<Node>, orig: set<object>)
    requires Graph(all, orig) && n in all
    ensures InGraph(n, all, orig)
  {
  }

  lemma ExtendsTransitive(a: Memo, b: Memo, c: Memo)
    requires Extends(a, b) && Extends(b, c)
    ensures Extends(a, c)
  {
  }

  lemma ChildrenGrow(a: map<Name, Node?>, b: map<Name, Node?>, seen: Memo, seen': Memo, name: Name, child: Node?)
    requires Extends(seen, seen') && name in a && SameChild(a[name], child, seen')
    requires b.Keys <= a.Keys && forall k | k in b :: SameChild(a[k], b[k], seen)
    ensures forall k | k in b[name := child] :: SameChild(a[k], b[name := child][k], seen')
  {
  }

  // ---------- the algorithm ----------

  method CopyXattrs(x: XattrMap, ghost orig: set<object>) returns (y: XattrMap, ghost made: set<object>)
    requires x in orig && forall k | k in x.m :: x.m[k] in orig
    ensures fresh(made) && y in made && SameXattrs(x, y, made, orig)
  {
    y := new XattrMap();
    made := {y};
    var todo := x.m.Keys;
    while todo != {}
      invariant todo <= x.m.Keys && y.m.Keys == x.m.Keys - todo && fresh(made) && y in made && y !in orig
      invariant forall k | k in y.m :: y.m[k] in made && y.m[k][..] == x.m[k][..]
    {
      var k :| k in todo;
      var v := x.m[k];
      var w := new byte[v.Length](i requires 0 <= i < v.Length reads v => v[i]);
      assert w[..] == v[..];
      y.m := y.m[k := w];
      made := made + {w};
      todo := todo - {k};
    }
  }

  /** The loop over a node's children, filling the copy's own map. */
  method CloneChildren(src: ChildMap, dst: ChildMap, seen: Memo, ghost all: set<Node>, ghost orig: set<object>)
    returns (seen': Memo, ghost made: set<object>)
    requires Graph(all, orig) && src in orig && ChildrenIn(src.m, all) && seen.Keys <= all && Injective(seen)
    requires dst !in orig && dst.m == map[]
    modifies dst
    ensures Extends(seen, seen') && seen'.Keys <= all && Injective(seen')
    ensures fresh(made) && Finished(seen, seen', made, orig) && SameChildren(src.m, dst.m, seen')
    decreases all - seen.Keys, 2
  {
    hide Copies, Graph, Injective, SameChild, Finished, Extends;
    seen', made := seen, {};
    NothingNew(seen, orig);
    var todo := src.m.Keys;
    while todo != {}
      invariant todo <= src.m.Keys && dst.m.Keys == src.m.Keys - todo
      invariant Extends(seen, seen') && seen'.Keys <= all && Injective(seen')
      invariant forall name | name in dst.m :: SameChild(src.m[name], dst.m[name], seen')
      invariant fresh(made) && Finished(seen, seen', made, orig)
    {
      var name :| name in todo;
      ghost var before := seen';
      MemoGrows(seen, seen');
      var child;
      ghost var more;
      child, seen', more := Clone(src.m[name], seen', all, orig);
      FinishedJoin(seen, before, seen', made, more, orig);
      ExtendsTransitive(seen, before, seen');
      ChildrenGrow(src.m, dst.m, before, seen', name, child);
      made := made + more;
      dst.m := dst.m[name := child];
      todo := todo - {name};
    }
  }

  lemma MemoGrows(a: Memo, b: Memo)
    requires Extends(a, b)
    ensures a.Keys <= b.Keys
  {
  }

  lemma NothingNew(seen: Memo, orig: set<object>)
    ensures Finished(seen, seen, {}, orig) && Extends(seen, seen)
  {
  }

  /** clone: the copy of `n`, finishing every node it adds to the memo. */
  method Clone(n: Node?, seen: Memo, ghost all: set<Node>, ghost orig: set<object>)
    returns (c: Node?, seen': Memo, ghost made: set<object>)
    requires Graph(all, orig) && (n != null ==> n in all) && seen.Keys <= all && Injective(seen)
    ensures Extends(seen, seen') && seen'.Keys <= all && Injective(seen') && SameChild(n, c, seen')
    ensures fresh(made) && Finished(seen, seen', made, orig)
    decreases all - seen.Keys, 1
  {
    hide Graph, Injective, Finished, SameXattrs, SameChildren;
    NothingNew(seen, orig);
    if n == null { return null, seen, {}; }
    if n in seen { return seen[n], seen, {}; }
    InGraphIn(n, all, orig);
    var cp := new Node(n.meta, n.children, n.xattrs);
    seen', made := seen[n := cp], {};
    NothingNew(seen', orig);
    NewCopy(seen, n, cp);
    assert n in all - seen.Keys && n !in all - seen'.Keys;
    if n.children != null {
      var kids := new ChildMap();
      cp.children := kids;
      seen', made := CloneChildren(n.children, kids, seen', all, orig);
    }
    ghost var values: set<object> := {};
    if n.xattrs != null {
      var xs;
      xs, values := CopyXattrs(n.xattrs, orig);
      cp.xattrs := xs;
    }
    ghost var own: set<object> := {cp} + (if cp.children == null then {} else {cp.children}) + values;
    if n.xattrs != null { XattrsGrow(n.xattrs, cp.xattrs, values, own, orig); }
    OneMore(seen, n, cp, seen', made, own, orig);
    made := made + own;
    return cp, seen', made;
  }

  lemma XattrsGrow(a: XattrMap, b: XattrMap, made: set<object>, made': set<object>, orig: set<object>)
    requires a in orig && b in made && SameXattrs(a, b, made, orig) && made <= made'
    ensures SameXattrs(a, b, made', orig)
  {
  }

  lemma NewCopy(seen: Memo, n: Node, cp: Node)
    requires Injective(seen) && n !in seen && cp !in seen.Values
    ensures Injective(seen[n := cp]) && Extends(seen, seen[n := cp])
  {
    forall x | x in seen ensures seen[x] != cp { assert seen[x] in seen.Values; }
  }

  lemma OneMore(seen: Memo, n: Node, cp: Node, seen': Memo, made: set<object>, own: set<object>, orig: set<object>)
    requires n !in seen && Extends(seen[n := cp], seen') && Finished(seen[n := cp], seen', made, orig)
    requires Copies(n, cp, seen', own, orig)
    ensures Extends(seen, seen') && Finished(seen, seen', made + own, orig)
  {
    hide Copies;
    forall x | x in seen' && x !in seen ensures Copies(x, seen'[x], seen', made + own, orig) {
      if x == n {
        CopiesGrow(n, cp, seen', seen', own, made + own, orig);
      } else {
        CopiesGrow(x, seen'[x], seen', seen', made, made + own, orig);
      }
    }
  }

  /** CloneTree.  The memo is an isomorphism from a set of originals that contains the root and is
      closed under children (and is no larger than any such set) onto their copies, all of whose
      objects are new: nothing that happens to the clone can reach the original. */
  method CloneTree(root: Node?, ghost all: set<Node>, ghost orig: set<object>)
    returns (r: Node?, ghost memo: Memo, ghost made: set<object>)
    requires Graph(all, orig) && (root != null ==> root in all)
    ensures memo.Keys <= all && Injective(memo) && SameChild(root, r, memo)
    ensures fresh(made) && forall n | n in memo :: Copies(n, memo[n], memo, made, orig)
  {
    var seen: Memo;
    r, seen, made := Clone(root, map[], all, orig);
    memo := seen;
  }
}
