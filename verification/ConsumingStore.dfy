/**
 Model of consumingStore in cmd/purebuild/main.go: bodies are deleted as the EROFS pass reads them for
 the last time, by a count of the nodes that share each ref.
 */
module ConsumingStore {
  import opened Basics
  import opened Seqs
  import opened SortNames
  import opened ErofsTree
  import opened ErofsImage

  // ---------- the reference counts ----------

  ghost predicate FileAt(root: Node, p: Path, ref: Bytes) {
    Resolve(root, p).Some? && Resolve(root, p).value.typ == File && Resolve(root, p).value.ref == ref
  }

  /** How many of the listed paths hold files with body `ref`. */
  ghost function Uses(root: Node, w: seq<Path>, ref: Bytes): nat {
    if w == [] then 0 else Uses(root, w[..|w| - 1], ref) + if FileAt(root, w[|w| - 1], ref) then 1 else 0
  }

  /** `w` lists, once each, the paths below `path` whose next component is in `names`. */
  ghost predicate Visits(root: Node, path: Path, names: set<Name>, w: seq<Path>) {
    Distinct(w) && forall p :: p in w <==> path < p && p[|path|] in names && Resolve(root, p).Some?
  }

  function CountOf(counts: map<Bytes, nat>, ref: Bytes): nat {
    if ref in counts then counts[ref] else 0
  }

  /** Counts grew by the uses in `w`; the empty ref is never counted. */
  ghost predicate Counted(root: Node, before: map<Bytes, nat>, counts: map<Bytes, nat>, w: seq<Path>) {
    forall ref | ref != [] :: CountOf(counts, ref) == CountOf(before, ref) + Uses(root, w, ref)
  }

  lemma {:induction false} UsesAppend(root: Node, a: seq<Path>, b: seq<Path>, ref: Bytes)
    ensures Uses(root, a + b, ref) == Uses(root, a, ref) + Uses(root, b, ref)
  {
    hide FileAt;
    if b == [] {
      assert a + b == a;
    } else {
      UsesAppend(root, a, b[..|b| - 1], ref);
      assert (a + b)[..|a + b| - 1] == a + b[..|b| - 1];
    }
  }

  lemma CountedJoin(root: Node, c0: map<Bytes, nat>, c1: map<Bytes, nat>, c2: map<Bytes, nat>, a: seq<Path>,
                    b: seq<Path>)
    requires Counted(root, c0, c1, a) && Counted(root, c1, c2, b)
    ensures Counted(root, c0, c2, a + b)
  {
    forall ref | ref != [] ensures CountOf(c2, ref) == CountOf(c0, ref) + Uses(root, a + b, ref)
    {
      UsesAppend(root, a, b, ref);
    }
  }

  /** The visit of one child: its own path, and everything below it when it is a directory. */
  ghost predicate VisitsChild(root: Node, child: Path, w: seq<Path>) {
    Distinct(w) && forall p :: p in w <==> child <= p && Resolve(root, p).Some?
  }

  lemma VisitsMore(root: Node, path: Path, names: set<Name>, name: Name, w: seq<Path>, more: seq<Path>)
    requires Visits(root, path, names, w) && name !in names && VisitsChild(root, path + [name], more)
    ensures Visits(root, path, names + {name}, w + more)
  {
    hide Resolve;
    var all, child := w + more, path + [name];
    assert child[|path|] == name;
    forall p ensures p in all <==> path < p && p[|path|] in names + {name} && Resolve(root, p).Some? {
      assert child <= p <==> path < p && p[|path|] == name by {
        if path < p && p[|path|] == name { TowardsBelow(path, p); }
      }
    }
    forall i, j | 0 <= i < j < |all| ensures all[i] != all[j] {
      if i < |w| <= j { assert all[i] in w && all[j] in more; }
    }
  }

  lemma LeafVisit(root: Node, child: Path)
    requires Resolve(root, child).Some? && Resolve(root, child).value.typ != Dir
    ensures VisitsChild(root, child, [child])
  {
    forall p ensures p in [child] <==> child <= p && Resolve(root, p).Some? {
      if child <= p && |p| == |child| { assert p == child; }
      if child < p && Resolve(root, p).Some? {
        TowardsBelow(child, p);
        ResolvePrefix(root, p, |child| + 1);
        ResolveSnoc(root, child, p[|child|]);
      }
    }
  }

  lemma DirVisit(root: Node, child: Path, names: set<Name>, below: seq<Path>)
    requires Resolve(root, child).Some? && Resolve(root, child).value.typ == Dir
    requires names == Resolve(root, child).value.children.Keys && Visits(root, child, names, below)
    ensures VisitsChild(root, child, [child] + below)
  {
    var w := [child] + below;
    forall p ensures p in w <==> child <= p && Resolve(root, p).Some? {
      if child <= p && |p| == |child| { assert p == child; }
      if child < p && Resolve(root, p).Some? {
        TowardsBelow(child, p);
        ResolvePrefix(root, p, |child| + 1);
        ResolveSnoc(root, child, p[|child|]);
      }
    }
    assert child !in below;
  }

  lemma OneUse(root: Node, child: Path, counts: map<Bytes, nat>)
    requires Resolve(root, child).Some?
    ensures var n := Resolve(root, child).value;
            var more := if n.typ == File && n.ref != [] then counts[n.ref := CountOf(counts, n.ref) + 1] else counts;
            Counted(root, counts, more, [child])
  {
    assert [child][..0] == [];
    forall ref ensures Uses(root, [child], ref) == if FileAt(root, child, ref) then 1 else 0 {
      assert Uses(root, [child][..0], ref) == 0;
    }
  }

  /** The reference-counting Walk below the directory `path`; `w` are the paths it calls back with. */
  method CountRefs(ghost root: Node, n: Node, path: Path, counts0: map<Bytes, nat>)
    returns (counts: map<Bytes, nat>, w: seq<Path>)
    requires Resolve(root, path) == Some(n) && n.typ == Dir
    ensures Visits(root, path, n.children.Keys, w) && Counted(root, counts0, counts, w)
    decreases n
  {
    hide Visits, Counted, VisitsChild, Resolve, Uses;
    var names := SortSet(n.children.Keys);
    counts, w := counts0, [];
    ghost var done: set<Name> := {};
    Nothing(root, path, counts0);
    for k := 0 to |names|
      invariant forall x :: x in done <==> x in names[..k]
      invariant Visits(root, path, done, w) && Counted(root, counts0, counts, w)
    {
      var name := names[k];
      SortedDistinct(names, k);
      assert name in names;
      var more;
      ghost var before := counts;
      counts, more := CountChild(root, n, path, name, counts);
      VisitsMore(root, path, done, name, w, more);
      CountedJoin(root, counts0, before, counts, w, more);
      w, done := w + more, done + {name};
    }
    assert names[..|names|] == names;
    assert done == n.children.Keys;
  }

  /** The Walk's callback on one child, and the descent into it. */
  method CountChild(ghost root: Node, n: Node, path: Path, name: Name, counts0: map<Bytes, nat>)
    returns (counts: map<Bytes, nat>, w: seq<Path>)
    requires Resolve(root, path) == Some(n) && n.typ == Dir && name in n.children
    ensures VisitsChild(root, path + [name], w) && Counted(root, counts0, counts, w)
    decreases n, 0
  {
    hide Visits, Counted, VisitsChild, Resolve, Uses;
    var c := n.children[name];
    var child := path + [name];
    ResolveSnoc(root, path, name);
    OneUse(root, child, counts0);
    counts, w := counts0, [child];
    if c.typ == File && c.ref != [] { counts := counts[c.ref := CountOf(counts, c.ref) + 1]; }
    if c.typ == Dir {
      var below;
      ghost var before := counts;
      counts, below := CountRefs(root, c, child, counts);
      DirVisit(root, child, c.children.Keys, below);
      CountedJoin(root, counts0, before, counts, w, below);
      w := w + below;
    } else {
      LeafVisit(root, child);
    }
  }

  lemma Nothing(root: Node, path: Path, counts: map<Bytes, nat>)
    ensures Visits(root, path, {}, []) && Counted(root, counts, counts, [])
  {
  }

  // ---------- the counts cover the reads ----------

  ghost predicate Reads(t: seq<Inode>, i: nat, ref: Bytes)
    requires i < |t|
  {
    t[i].node.typ == File && t[i].node.size > 0 && t[i].node.ref == ref
  }

  /** How many of the first `n` inodes read body `ref`. */
  ghost function ReadsBefore(t: seq<Inode>, n: nat, ref: Bytes): nat
    requires n <= |t|
  {
    if n == 0 then 0 else ReadsBefore(t, n - 1, ref) + if Reads(t, n - 1, ref) then 1 else 0
  }

  ghost function ReadPaths(t: seq<Inode>, pathOf: seq<Path>, n: nat, ref: Bytes): set<Path>
    requires n <= |t| == |pathOf|
  {
    set i | 0 <= i < n && Reads(t, i, ref) :: pathOf[i]
  }

  lemma {:induction false} ReadsAreCounted(t: seq<Inode>, pathOf: seq<Path>, n: nat, ref: Bytes)
    requires n <= |t| == |pathOf| && Distinct(pathOf)
    ensures ReadsBefore(t, n, ref) == |ReadPaths(t, pathOf, n, ref)|
  {
    hide Reads;
    if n > 0 {
      ReadsAreCounted(t, pathOf, n - 1, ref);
      var s, s' := ReadPaths(t, pathOf, n - 1, ref), ReadPaths(t, pathOf, n, ref);
      assert pathOf[n - 1] !in s;
      assert s' == if Reads(t, n - 1, ref) then s + {pathOf[n - 1]} else s;
    }
  }

  ghost function UsePaths(root: Node, w: seq<Path>, ref: Bytes): set<Path> {
    set p | p in w && FileAt(root, p, ref)
  }

  lemma {:induction false} UsesAreCounted(root: Node, w: seq<Path>, ref: Bytes)
    requires Distinct(w)
    ensures Uses(root, w, ref) == |UsePaths(root, w, ref)|
  {
    hide FileAt;
    if w != [] {
      UsesAreCounted(root, w[..|w| - 1], ref);
      LastUse(root, w, ref);
    }
  }

  lemma LastUse(root: Node, w: seq<Path>, ref: Bytes)
    requires w != [] && Distinct(w)
    ensures var s, p := UsePaths(root, w[..|w| - 1], ref), w[|w| - 1];
            p !in s && UsePaths(root, w, ref) == if FileAt(root, p, ref) then s + {p} else s
  {
    hide FileAt;
    var n := |w| - 1;
    assert w == w[..n] + [w[n]];
  }

  lemma SubsetCardinality<T>(a: set<T>, b: set<T>)
    requires a <= b
    ensures |a| <= |b| && (|a| == |b| ==> a == b)
  {
    assert b == a + (b - a);
    assert |b| == |a| + |b - a|;
  }

  /** No body is read more often than the walk counted it, and exactly as often when none of the files
      that share it is empty. */
  lemma CountsCoverReads(root: Node, t: seq<Inode>, at: Index, pathOf: seq<Path>, w: seq<Path>, ref: Bytes)
    requires root.typ == Dir && Finished(root, t, at, pathOf) && Visits(root, [], root.children.Keys, w)
    ensures ReadsBefore(t, |t|, ref) <= Uses(root, w, ref)
    ensures (forall p | FileAt(root, p, ref) :: Resolve(root, p).value.size > 0) ==>
            ReadsBefore(t, |t|, ref) == Uses(root, w, ref)
  {
    hide Finished, Resolve;
    RowPathsDistinct(root, t, at, pathOf);
    ReadsAreCounted(t, pathOf, |t|, ref);
    UsesAreCounted(root, w, ref);
    var read, uses := ReadPaths(t, pathOf, |t|, ref), UsePaths(root, w, ref);
    forall p | p in read ensures p in uses {
      var i :| 0 <= i < |t| && Reads(t, i, ref) && pathOf[i] == p;
      RowAt(root, t, at, pathOf, i);
      VisitedFile(root, w, p, ref);
    }
    SubsetCardinality(read, uses);
    if forall p | FileAt(root, p, ref) :: Resolve(root, p).value.size > 0 {
      forall p | p in uses ensures p in read {
        FileHasRow(root, t, at, pathOf, p, ref);
      }
      assert read == uses;
    }
  }

  lemma RowAt(root: Node, t: seq<Inode>, at: Index, pathOf: seq<Path>, i: nat)
    requires Finished(root, t, at, pathOf) && i < |t|
    ensures |pathOf| == |t| && Resolve(root, pathOf[i]) == Some(t[i].node)
  {
    hide Linked, CountOk, Mirrored, Resolve;
    assert RowNode(root, t[i], pathOf[i]);
  }

  lemma VisitedFile(root: Node, w: seq<Path>, p: Path, ref: Bytes)
    requires root.typ == Dir && Visits(root, [], root.children.Keys, w) && FileAt(root, p, ref)
    ensures p in w
  {
    ResolvePrefix(root, p, if p == [] then 0 else 1);
    if p != [] { assert p[..1] == [p[0]]; }
  }

  lemma FileHasRow(root: Node, t: seq<Inode>, at: Index, pathOf: seq<Path>, p: Path, ref: Bytes)
    requires Finished(root, t, at, pathOf) && FileAt(root, p, ref) && Resolve(root, p).value.size > 0
    ensures |pathOf| == |t| && p in ReadPaths(t, pathOf, |t|, ref)
  {
    hide Linked, CountOk;
    assert Mirrored(root, p);
    var i := at[p];
    RowAt(root, t, at, pathOf, i);
    assert Reads(t, i, ref) && pathOf[i] == p;
  }

  // ---------- the store ----------

  class Consuming {
    const keep: set<Bytes>
    var blobs: Store
    var refs: map<Bytes, int>

    constructor (blobs: Store, keep: set<Bytes>, counts: map<Bytes, nat>)
      ensures this.blobs == blobs && this.keep == keep && forall r :: Left(r) == CountOf(counts, r)
    {
      this.blobs, this.keep := blobs, keep;
      refs := map r | r in counts :: counts[r];
    }

    /** A missing key reads as zero. */
    function Left(ref: Bytes): int
      reads this
    {
      if ref in refs then refs[ref] else 0
    }

    method Open(ref: Bytes) returns (r: Option<Bytes>)
      ensures r == if ref in blobs then Some(blobs[ref]) else None
    {
      r := if ref in blobs then Some(blobs[ref]) else None;
    }

    /** Closing a body that is not kept uses up one reference, and the last one deletes it. */
    method Close(ref: Bytes)
      modifies this
      ensures ref in keep ==> blobs == old(blobs) && refs == old(refs)
      ensures ref !in keep ==>
                && (forall r :: Left(r) == if r == ref then old(Left(r)) - 1 else old(Left(r)))
                && blobs == if old(Left(ref)) <= 1 then old(blobs) - {ref} else old(blobs)
    {
      if ref in keep { return; }
      refs := refs[ref := Left(ref) - 1];
      if refs[ref] <= 0 { blobs := blobs - {ref}; }
    }
  }

  /** The store after the first `n` inodes were read: a body is gone exactly when it is not kept and
      its counted references have all been read. */
  ghost predicate Consumed(t: seq<Inode>, n: nat, keep: set<Bytes>, counts: map<Bytes, nat>, full: Store, now: Store)
    requires n <= |t|
  {
    && (forall r | r in now :: r in full && now[r] == full[r])
    && (forall r | r in full ::
          r in now <==> r in keep || ReadsBefore(t, n, r) == 0 || ReadsBefore(t, n, r) < CountOf(counts, r))
  }

  ghost predicate RefsLeft(t: seq<Inode>, n: nat, s: Consuming, counts: map<Bytes, nat>)
    requires n <= |t|
    reads s
  {
    forall r | r !in s.keep :: s.Left(r) == CountOf(counts, r) - ReadsBefore(t, n, r)
  }

  lemma {:induction false} ReadsMonotone(t: seq<Inode>, m: nat, n: nat, ref: Bytes)
    requires m <= n <= |t|
    ensures ReadsBefore(t, m, ref) <= ReadsBefore(t, n, ref)
  {
    if m < n { ReadsMonotone(t, m, n - 1, ref); }
  }

  /** The body is still there when it is read. */
  lemma StillThere(t: seq<Inode>, i: nat, keep: set<Bytes>, counts: map<Bytes, nat>, full: Store, now: Store)
    requires i < |t| && Consumed(t, i, keep, counts, full, now) && Reads(t, i, t[i].node.ref)
    requires ReadsBefore(t, |t|, t[i].node.ref) <= CountOf(counts, t[i].node.ref)
    ensures t[i].node.ref in now <==> t[i].node.ref in full
  {
    ReadsMonotone(t, i + 1, |t|, t[i].node.ref);
  }

  lemma StillConsumed(t: seq<Inode>, i: nat, keep: set<Bytes>, counts: map<Bytes, nat>, full: Store, now: Store)
    requires i < |t| && Consumed(t, i, keep, counts, full, now)
    requires !Reads(t, i, t[i].node.ref)
    ensures Consumed(t, i + 1, keep, counts, full, now)
  {
    forall r ensures ReadsBefore(t, i + 1, r) == ReadsBefore(t, i, r) { }
  }

  lemma OneConsumed(t: seq<Inode>, i: nat, keep: set<Bytes>, counts: map<Bytes, nat>, full: Store, now: Store,
                    now': Store)
    requires i < |t| && Consumed(t, i, keep, counts, full, now) && Reads(t, i, t[i].node.ref)
    requires now' == if t[i].node.ref !in keep && CountOf(counts, t[i].node.ref) - ReadsBefore(t, i, t[i].node.ref) <= 1
                     then now - {t[i].node.ref} else now
    ensures Consumed(t, i + 1, keep, counts, full, now')
  {
    forall r ensures ReadsBefore(t, i + 1, r) == ReadsBefore(t, i, r) + if r == t[i].node.ref then 1 else 0 { }
  }

  /** Inode `i` found its body, and it is the one the full store had. */
  ghost predicate ReadWell(t: seq<Inode>, i: nat, full: Store, now: Store, body: Option<Bytes>)
    requires i < |t|
  {
    var ref := t[i].node.ref;
    Reads(t, i, ref) ==> ref in now && ref in full && body == Some(full[ref])
  }

  /** The EROFS pass over a consuming store reads every body exactly as it would from the full store,
      and fails only where that one would; `history` is what the store held before each inode. */
  method ReadBodies(t: seq<Inode>, sized: seq<Payload>, store: Consuming, ghost counts: map<Bytes, nat>)
    returns (ok: bool, bodies: seq<Option<Bytes>>, ghost history: seq<Store>)
    requires |sized| == |t| && forall i | 0 <= i < |t| && t[i].node.typ == File :: sized[i].size == t[i].node.size
    requires (forall r :: store.Left(r) == CountOf(counts, r)) && [] !in store.blobs
    requires forall r | r != [] :: ReadsBefore(t, |t|, r) <= CountOf(counts, r)
    modifies store
    ensures ok <==> forall i | 0 <= i < |t| :: !BadBlob(t, i, sized[i], old(store.blobs))
    ensures ok ==>
              && |bodies| == |t| == |history|
              && Consumed(t, |t|, store.keep, counts, old(store.blobs), store.blobs)
              && forall i | 0 <= i < |t| ::
                   && Consumed(t, i, store.keep, counts, old(store.blobs), history[i])
                   && ReadWell(t, i, old(store.blobs), history[i], bodies[i])
  {
    hide Consumed, ReadsBefore;
    bodies, history := [], [];
    ghost var full := store.blobs;
    FullAtFirst(t, store.keep, counts, full);
    NoReads(t);
    for i := 0 to |t|
      invariant |bodies| == i == |history|
      invariant Consumed(t, i, store.keep, counts, full, store.blobs)
      invariant RefsLeft(t, i, store, counts)
      invariant forall j | 0 <= j < i :: !BadBlob(t, j, sized[j], full)
      invariant forall j | 0 <= j < i ::
                  Consumed(t, j, store.keep, counts, full, history[j]) && ReadWell(t, j, full, history[j], bodies[j])
    {
      history := history + [store.blobs];
      var ref := t[i].node.ref;
      ReadsNext(t, i);
      if t[i].node.typ == File && sized[i].size > 0 {
        assert Reads(t, i, ref);
        Present(t, i, store.keep, counts, full, store.blobs);
        var r := store.Open(ref);
        if r.None? { return false, bodies, history; }
        OneConsumed(t, i, store.keep, counts, full, store.blobs,
                    if ref !in store.keep && store.Left(ref) <= 1 then store.blobs - {ref} else store.blobs);
        store.Close(ref);
        if |r.value| != sized[i].size { return false, bodies, history; }
        bodies := bodies + [r];
      } else {
        StillConsumed(t, i, store.keep, counts, full, store.blobs);
        bodies := bodies + [None];
      }
    }
    ok := true;
  }

  lemma FullAtFirst(t: seq<Inode>, keep: set<Bytes>, counts: map<Bytes, nat>, full: Store)
    ensures Consumed(t, 0, keep, counts, full, full)
  {
  }

  lemma NoReads(t: seq<Inode>)
    ensures forall r :: ReadsBefore(t, 0, r) == 0
  {
  }

  lemma ReadsNext(t: seq<Inode>, i: nat)
    requires i < |t|
    ensures forall r :: ReadsBefore(t, i + 1, r) == ReadsBefore(t, i, r) + if Reads(t, i, r) then 1 else 0
  {
  }

  lemma Present(t: seq<Inode>, i: nat, keep: set<Bytes>, counts: map<Bytes, nat>, full: Store, now: Store)
    requires i < |t| && Consumed(t, i, keep, counts, full, now) && Reads(t, i, t[i].node.ref)
    requires [] !in full && forall r | r != [] :: ReadsBefore(t, |t|, r) <= CountOf(counts, r)
    ensures t[i].node.ref in now <==> t[i].node.ref in full
    ensures t[i].node.ref in now ==> now[t[i].node.ref] == full[t[i].node.ref]
  {
    if t[i].node.ref != [] { StillThere(t, i, keep, counts, full, now); }
  }

  /** The walk over the whole tree counted, for every ref, the files that have it. */
  ghost predicate CountsUses(root: Node, w: seq<Path>, counts: map<Bytes, nat>) {
    root.typ == Dir && Visits(root, [], root.children.Keys, w) && forall r | r != [] ::
        CountOf(counts, r) == Uses(root, w, r)
  }

  /** Counting the tree's references and then reading the table built from it.  At every inode the store
      lacks exactly the bodies whose counted references are used up, and no read misses; kept bodies
      survive the pass, and any other body is gone after its last read unless a file declares it empty. */
  method CountAndRead(root: Node, blobs: Store, keep: set<Bytes>)
    returns (ok: bool, ghost t: seq<Inode>, w: seq<Path>, counts: map<Bytes, nat>, bodies: seq<Option<Bytes>>,
             ghost history: seq<Store>, after: Store)
    requires ValidTree(root) && root.typ == Dir && [] !in blobs
    ensures exists at, pathOf :: Finished(root, t, at, pathOf)
    ensures CountsUses(root, w, counts)
    ensures ok <==> forall i | 0 <= i < |t| :: !BadFile(t[i].node, blobs)
    ensures ok ==>
              && |history| == |bodies| == |t| && Consumed(t, |t|, keep, counts, blobs, after)
              && forall i | 0 <= i < |t| ::
                   Consumed(t, i, keep, counts, blobs, history[i]) && ReadWell(t, i, blobs, history[i], bodies[i])
    ensures ok ==> forall r | r in blobs && r in keep :: r in after && after[r] == blobs[r]
    ensures ok ==> forall r | r in blobs && r !in keep && r != [] && ReadsBefore(t, |t|, r) > 0 &&
                     (forall p | FileAt(root, p, r) :: Resolve(root, p).value.size > 0) :: r !in after
  {
    hide Finished, Consumed, ReadsBefore, Visits, Counted, Resolve, Uses, ValidTree, ReadWell;
    var table, at, pathOf := BuildTable(root);
    t := table;
    RootResolves(root);
    counts, w := CountRefs(root, root, [], map[]);
    forall r | r != [] ensures CountOf(counts, r) == Uses(root, w, r) { CountIs(root, counts, w, r); }
    forall r | r != [] ensures ReadsBefore(t, |t|, r) <= CountOf(counts, r)
    {
      CountsCoverReads(root, t, at, pathOf, w, r);
    }
    var store := new Consuming(blobs, keep, counts);
    var sizes := seq(|table|, i requires 0 <= i < |table| => Payload(table[i].node.size, []));
    ok, bodies, history := ReadBodies(table, sizes, store, counts);
    after := store.blobs;
    if ok {
      forall r | r in blobs && r in keep ensures r in after && after[r] == blobs[r] {
        ConsumedKept(t, keep, counts, blobs, after, r);
      }
      forall r | r in blobs && r !in keep && r != [] && ReadsBefore(t, |t|, r) > 0 &&
                 (forall p | FileAt(root, p, r) :: Resolve(root, p).value.size > 0)
        ensures r !in after
      {
        CountsCoverReads(root, t, at, pathOf, w, r);
        ConsumedGone(t, keep, counts, blobs, after, r);
      }
    }
  }

  lemma RootResolves(root: Node)
    ensures Resolve(root, []) == Some(root)
  {
  }

  lemma CountIs(root: Node, counts: map<Bytes, nat>, w: seq<Path>, r: Bytes)
    requires Counted(root, map[], counts, w) && r != []
    ensures CountOf(counts, r) == Uses(root, w, r)
  {
  }

  lemma ConsumedKept(t: seq<Inode>, keep: set<Bytes>, counts: map<Bytes, nat>, full: Store, now: Store, r: Bytes)
    requires Consumed(t, |t|, keep, counts, full, now) && r in full && r in keep
    ensures r in now && now[r] == full[r]
  {
  }

  lemma ConsumedGone(t: seq<Inode>, keep: set<Bytes>, counts: map<Bytes, nat>, full: Store, now: Store, r: Bytes)
    requires Consumed(t, |t|, keep, counts, full, now) && r in full && r !in keep
    requires ReadsBefore(t, |t|, r) > 0 && ReadsBefore(t, |t|, r) == CountOf(counts, r)
    ensures r !in now
  {
  }
}
