/**
 Model of the first half of layoutIso in internal/purefs/iso9660.go: the directory tree built from
 the input paths, and its breadth-first order.  A directory's identity is its path, the key of
 dirByPath.
 */
module IsoTree {
  import opened Basics
  import opened Codec
  import opened Seqs
  import opened SortNames
  import opened Paths

  /** One input: what its source yields, or None when it cannot be read. */
  datatype Input = Input(path: Bytes, size: nat, source: Option<Bytes>)

  /** `id` is the input's position, the identity of the entry. */
  datatype FileEntry = FileEntry(name: Name, size: nat, id: nat)

  datatype Dir = Dir(subdirs: seq<Name>, files: seq<FileEntry>)

  type Dirs = map<Path, Dir>

  /** path.Dir and path.Base of a cleaned path; the root's base name is "/". */
  function DirPath(path: Bytes): Path {
    var c := SplitClean(path);
    if c == [] then [] else Parent(c)
  }

  function BaseName(path: Bytes): Name {
    var c := SplitClean(path);
    if c == [] then [SLASH] else Last(c)
  }

  /** Where an input belongs in the image; one that cleans to nothing is a file called "/". */
  function PathOf(path: Bytes): Path {
    var c := SplitClean(path);
    if c == [] then [[47]] else c
  }

  lemma PathOfIs(path: Bytes)
    ensures PathOf(path) == DirPath(path) + [BaseName(path)]
  {
    hide SplitClean;
  }

  /** The entries of the inputs that live in directory `p`, in input order. */
  function FilesIn(inputs: seq<Input>, p: Path): seq<FileEntry> {
    if inputs == [] then [] else
    var n := |inputs| - 1;
    var front := FilesIn(inputs[..n], p);
    if DirPath(inputs[n].path) == p then front + [FileEntry(BaseName(inputs[n].path), inputs[n].size, n)] else front
  }

  // ---------- the tree ----------

  ghost predicate HasParent(dirs: Dirs, p: Path) {
    p != [] ==> Parent(p) in dirs && Last(p) in dirs[Parent(p)].subdirs
  }

  ghost predicate HasChildren(dirs: Dirs, p: Path)
    requires p in dirs
  {
    Distinct(dirs[p].subdirs) && forall n | n in dirs[p].subdirs :: p + [n] in dirs
  }

  ghost predicate Tree(dirs: Dirs) {
    && [] in dirs
    && (forall p {:trigger HasParent(dirs, p)} | p in dirs :: HasParent(dirs, p))
    && (forall p {:trigger HasChildren(dirs, p)} | p in dirs :: HasChildren(dirs, p))
  }

  function FilesAt(dirs: Dirs, p: Path): seq<FileEntry> {
    if p in dirs then dirs[p].files else []
  }

  /** `p` is a directory on the way to some input. */
  ghost predicate Above(inputs: seq<Input>, p: Path) {
    exists i :: 0 <= i < |inputs| && p <= DirPath(inputs[i].path)
  }

  /** The directories are the ancestors of the inputs, and hold exactly their entries. */
  ghost predicate Holds(dirs: Dirs, inputs: seq<Input>) {
    && Tree(dirs)
    && (forall p :: p in dirs <==> p == [] || Above(inputs, p))
    && (forall p :: FilesAt(dirs, p) == FilesIn(inputs, p))
  }

  lemma AddSubdir(dirs: Dirs, p: Path)
    requires Tree(dirs) && p != [] && p !in dirs && Parent(p) in dirs
    ensures var q := Parent(p);
            Tree(dirs[q := dirs[q].(subdirs := dirs[q].subdirs + [Last(p)])][p := Dir([], [])])
  {
    var q := Parent(p);
    assert p == q + [Last(p)];
    var grown := dirs[q].subdirs + [Last(p)];
    var dirs' := dirs[q := dirs[q].(subdirs := grown)][p := Dir([], [])];
    assert HasChildren(dirs, q) && grown[|grown| - 1] == Last(p);
    forall r | r in dirs' ensures HasParent(dirs', r) {
      if r != p { assert HasParent(dirs, r); }
    }
    forall r | r in dirs' ensures HasChildren(dirs', r) {
      if r != p {
        assert HasChildren(dirs, r);
        if r == q { DistinctAppend(dirs[q].subdirs, [Last(p)]); }
      }
    }
  }

  /** getDir: the directories of `p`, created as needed. */
  method GetDir(dirs: Dirs, p: Path) returns (dirs': Dirs)
    requires Tree(dirs)
    ensures Tree(dirs') && p in dirs'
    ensures forall q :: q in dirs' <==> q in dirs || q <= p
    ensures forall q :: FilesAt(dirs', q) == FilesAt(dirs, q)
  {
    hide Tree;
    dirs' := dirs;
    if p in dirs {
      AncestorsIn(dirs, p);
      return;
    }
    RootIn(dirs);
    var i := 0;
    assert p[..0] == [];
    while i < |p|
      invariant i <= |p| && Tree(dirs') && p[..i] in dirs'
      invariant forall q :: q in dirs' <==> q in dirs || q <= p[..i]
      invariant forall q :: FilesAt(dirs', q) == FilesAt(dirs, q)
    {
      var cur, acc := p[..i], p[..i + 1];
      assert acc == cur + [p[i]] && Parent(acc) == cur && Last(acc) == p[i];
      assert forall q: Path {:trigger q in dirs'} :: q <= acc <==> q <= cur || q == acc;
      if acc !in dirs' {
        AddSubdir(dirs', acc);
        dirs' := dirs'[cur := dirs'[cur].(subdirs := dirs'[cur].subdirs + [p[i]])];
        dirs' := dirs'[acc := Dir([], [])];
      }
      i := i + 1;
    }
    assert p[..|p|] == p;
  }

  lemma RootIn(dirs: Dirs)
    requires Tree(dirs)
    ensures [] in dirs
  {
  }

  lemma {:induction false} AncestorsIn(dirs: Dirs, p: Path)
    requires Tree(dirs) && p in dirs
    ensures forall q | q <= p :: q in dirs
  {
    forall q | q <= p ensures q in dirs {
      if q != p {
        assert HasParent(dirs, p);
        AncestorsIn(dirs, Parent(p));
        assert q <= Parent(p);
      }
    }
  }

  lemma AddFile(dirs: Dirs, p: Path, f: FileEntry)
    requires Tree(dirs) && p in dirs
    ensures Tree(dirs[p := dirs[p].(files := dirs[p].files + [f])])
  {
    var dirs' := dirs[p := dirs[p].(files := dirs[p].files + [f])];
    forall q | q in dirs ensures HasParent(dirs', q) && HasChildren(dirs', q) {
      assert HasParent(dirs, q) && HasChildren(dirs, q);
    }
  }

  lemma HoldsMore(dirs: Dirs, found: Dirs, dirs': Dirs, inputs: seq<Input>, i: nat)
    requires i < |inputs| && Holds(dirs, inputs[..i]) && Tree(dirs')
    requires var p := DirPath(inputs[i].path);
             var f := FileEntry(BaseName(inputs[i].path), inputs[i].size, i);
             && p in found && dirs' == found[p := found[p].(files := found[p].files + [f])]
             && (forall q :: q in found <==> q in dirs || q <= p)
             && (forall q :: FilesAt(found, q) == FilesAt(dirs, q))
    ensures Holds(dirs', inputs[..i + 1])
  {
    hide Tree, Above, FilesIn, SplitClean, DirPath, BaseName;
    forall p ensures p in dirs' <==> p == [] || Above(inputs[..i + 1], p) { AboveMore(inputs, i, p); }
    forall p ensures FilesAt(dirs', p) == FilesIn(inputs[..i + 1], p) {
      FilesMore(inputs, i, p);
      assert FilesAt(dirs, p) == FilesIn(inputs[..i], p) && FilesAt(found, p) == FilesAt(dirs, p);
    }
  }

  lemma AboveMore(inputs: seq<Input>, i: nat, p: Path)
    requires i < |inputs|
    ensures Above(inputs[..i + 1], p) <==> Above(inputs[..i], p) || p <= DirPath(inputs[i].path)
  {
    hide DirPath;
    var front, more := inputs[..i], inputs[..i + 1];
    assert more == front + [inputs[i]];
    if k :| 0 <= k < |front| && p <= DirPath(front[k].path) { assert more[k] == front[k]; }
    assert more[i] == inputs[i];
  }

  lemma FilesMore(inputs: seq<Input>, i: nat, p: Path)
    requires i < |inputs|
    ensures FilesIn(inputs[..i + 1], p) == FilesIn(inputs[..i], p) +
              if DirPath(inputs[i].path) == p then [FileEntry(BaseName(inputs[i].path), inputs[i].size, i)] else []
  {
    hide DirPath, BaseName;
    assert inputs[..i + 1][..i] == inputs[..i];
  }

  /** Input `k` is the last one with this path. */
  ghost predicate LastAt(inputs: seq<Input>, path: Bytes, k: nat) {
    && k < |inputs| && SplitClean(inputs[k].path) == SplitClean(path)
    && forall i | k < i < |inputs| :: SplitClean(inputs[i].path) != SplitClean(path)
  }

  /** The input loop of layoutIso; the boot entry is the last input with the boot image's path. */
  method BuildTree(inputs: seq<Input>, bootImage: Bytes) returns (dirs: Dirs, boot: Option<nat>)
    ensures Holds(dirs, inputs)
    ensures boot.None? <==> forall i | 0 <= i < |inputs| :: SplitClean(inputs[i].path) != SplitClean(bootImage)
    ensures boot.Some? ==> LastAt(inputs, bootImage, boot.value)
  {
    hide SplitClean, DirPath, BaseName;
    dirs := map[[] := Dir([], [])];
    boot := None;
    assert Holds(dirs, []) by { assert HasParent(dirs, []) && HasChildren(dirs, []); }
    assert inputs[..0] == [];
    for i := 0 to |inputs|
      invariant Holds(dirs, inputs[..i])
      invariant boot.None? <==> forall k | 0 <= k < i :: SplitClean(inputs[k].path) != SplitClean(bootImage)
      invariant boot.Some? ==> boot.value < i && LastAt(inputs[..i], bootImage, boot.value)
    {
      hide Holds, Tree;
      var f := inputs[i];
      var p := DirPath(f.path);
      ghost var before := dirs;
      TreeOf(dirs, inputs[..i]);
      var found := GetDir(dirs, p);
      AddFile(found, p, FileEntry(BaseName(f.path), f.size, i));
      dirs := found[p := found[p].(files := found[p].files + [FileEntry(BaseName(f.path), f.size, i)])];
      HoldsMore(before, found, dirs, inputs, i);
      if SplitClean(f.path) == SplitClean(bootImage) { boot := Some(i); }
    }
    assert inputs[..|inputs|] == inputs;
  }

  lemma TreeOf(dirs: Dirs, inputs: seq<Input>)
    requires Holds(dirs, inputs)
    ensures Tree(dirs)
  {
  }

  // ---------- sorting ----------

  ghost predicate ByName(fs: seq<FileEntry>) {
    forall i, j | 0 <= i < j < |fs| :: !Less(fs[j].name, fs[i].name)
  }

  function InsertFile(fs: seq<FileEntry>, f: FileEntry): seq<FileEntry> {
    if fs == [] || Less(f.name, fs[0].name) then [f] + fs else [fs[0]] + InsertFile(fs[1..], f)
  }

  lemma {:induction false} InsertFileSorted(fs: seq<FileEntry>, f: FileEntry)
    requires ByName(fs)
    ensures ByName(InsertFile(fs, f)) && multiset(InsertFile(fs, f)) == multiset(fs) + multiset{f}
  {
    if fs == [] {
    } else if Less(f.name, fs[0].name) {
      forall j | 0 <= j < |fs| ensures !Less(fs[j].name, f.name) {
        if Less(fs[j].name, f.name) {
          LessTransitive(fs[j].name, f.name, fs[0].name);
          LessTotal(fs[0].name, fs[0].name);
        }
      }
    } else {
      InsertFileSorted(fs[1..], f);
      var t := InsertFile(fs[1..], f);
      assert fs == [fs[0]] + fs[1..];
      forall j | 0 <= j < |t| ensures !Less(t[j].name, fs[0].name) {
        assert t[j] in multiset(t);
        if t[j] != f { var k :| 0 <= k < |fs| - 1 && fs[1..][k] == t[j]; assert fs[k + 1] == t[j]; }
      }
    }
  }

  /** sort.Slice by name: some order-respecting permutation, since equal names may swap. */
  method SortFiles(fs: seq<FileEntry>) returns (r: seq<FileEntry>)
    ensures ByName(r) && multiset(r) == multiset(fs)
  {
    r := [];
    for i := 0 to |fs|
      invariant ByName(r) && multiset(r) == multiset(fs[..i])
    {
      InsertFileSorted(r, fs[i]);
      assert fs[..i + 1] == fs[..i] + [fs[i]];
      r := InsertFile(r, fs[i]);
    }
    assert fs[..|fs|] == fs;
  }

  // ---------- breadth-first order ----------

  function Under(p: Path, names: seq<Name>): (r: seq<Path>)
    ensures |r| == |names| && forall i | 0 <= i < |r| :: r[i] == p + [names[i]]
  {
    seq(|names|, i requires 0 <= i < |names| => p + [names[i]])
  }

  /** `s` is `d` sorted. */
  ghost predicate SortedDir(d: Dir, s: Dir) {
    && Sorted(s.subdirs) && (forall n :: n in s.subdirs <==> n in d.subdirs)
    && ByName(s.files) && multiset(s.files) == multiset(d.files)
  }

  /** The children of the listed directories, in order. */
  ghost function Kids(sorted: Dirs, order: seq<Path>): seq<Path>
    requires forall p | p in order :: p in sorted
  {
    if order == [] then [] else
    var d := order[|order| - 1];
    Kids(sorted, order[..|order| - 1]) + Under(d, sorted[d].subdirs)
  }

  /** Visited directories, then the queue: the root and the children of every visited directory. */
  ghost predicate Visiting(dirs: Dirs, sorted: Dirs, order: seq<Path>, queue: seq<Path>) {
    && (forall p | p in order :: p in dirs && p in sorted && SortedDir(dirs[p], sorted[p]))
    && order + queue == [[]] + Kids(sorted, order)
    && Distinct(order + queue)
    && (forall p | p in order + queue :: p in dirs && Reached(order, p))
    && (forall b | 0 < b < |order + queue| :: AfterParent(order + queue, b))
    && sorted.Keys == dirs.Keys
    && (forall p | p in dirs && p !in order :: sorted[p] == dirs[p])
  }

  ghost predicate Reached(order: seq<Path>, p: Path) {
    p != [] ==> Parent(p) in order
  }

  ghost predicate AfterParent(all: seq<Path>, b: nat)
    requires b < |all|
  {
    all[b] != [] && Parent(all[b]) in all[..b]
  }

  lemma KidsSame(sorted: Dirs, sorted': Dirs, order: seq<Path>)
    requires forall p | p in order :: p in sorted && p in sorted' && sorted'[p] == sorted[p]
    ensures Kids(sorted, order) == Kids(sorted', order)
  {
    if order != [] { KidsSame(sorted, sorted', order[..|order| - 1]); }
  }

  lemma UnderDistinct(d: Path, names: seq<Name>)
    requires Sorted(names)
    ensures Distinct(Under(d, names))
  {
    var u := Under(d, names);
    forall i, j | 0 <= i < j < |u| ensures u[i] != u[j] {
      LessTotal(names[i], names[i]);
      assert u[i][|d|] == names[i] && u[j][|d|] == names[j];
    }
  }

  lemma DistinctAppend<T>(a: seq<T>, b: seq<T>)
    requires Distinct(a) && Distinct(b) && forall x | x in a :: x !in b
    ensures Distinct(a + b)
  {
    var c := a + b;
    forall i, j | 0 <= i < j < |c| ensures c[i] != c[j] {
      if i < |a| <= j { assert c[i] in a && c[j] in b; }
    }
  }

  lemma Visit(dirs: Dirs, sorted: Dirs, order: seq<Path>, queue: seq<Path>, s: Dir)
    requires Tree(dirs) && Visiting(dirs, sorted, order, queue) && queue != [] && SortedDir(dirs[queue[0]], s)
    ensures var d := queue[0];
            d !in order && Visiting(dirs, sorted[d := s], order + [d], queue[1..] + Under(d, s.subdirs))
  {
    hide SortedDir, Tree, Kids, Distinct, AfterParent, Reached;
    var d, all := queue[0], order + queue;
    var kids := Under(d, s.subdirs);
    HeadIsNew(order, queue);
    KidsAppended(sorted, order, d, s);
    assert (order + [d]) + (queue[1..] + kids) == all + kids;
    Assoc([[]], Kids(sorted, order), kids);
    SubdirsSorted(dirs, d, s);
    NewKids(order, all, d, s.subdirs);
    StillAfter(all, kids, d, s.subdirs);
  }

  lemma KidsAppended(sorted: Dirs, order: seq<Path>, d: Path, s: Dir)
    requires d !in order && forall p | p in order :: p in sorted
    ensures Kids(sorted[d := s], order + [d]) == Kids(sorted, order) + Under(d, s.subdirs)
  {
    KidsSame(sorted, sorted[d := s], order);
    assert (order + [d])[..|order|] == order;
  }

  lemma NewKids(order: seq<Path>, all: seq<Path>, d: Path, names: seq<Name>)
    requires Distinct(all) && d !in order && Sorted(names) && forall p | p in all :: Reached(order, p)
    ensures Distinct(all + Under(d, names)) && forall p | p in all + Under(d, names) :: Reached(order + [d], p)
  {
    var kids := Under(d, names);
    UnderDistinct(d, names);
    forall x | x in all ensures x !in kids && Reached(order + [d], x) {
      assert Reached(order, x);
      if x in kids { KidOf(d, names, x); }
    }
    DistinctAppend(all, kids);
    forall x | x in kids ensures Reached(order + [d], x) { KidOf(d, names, x); }
  }

  lemma HeadIsNew(order: seq<Path>, queue: seq<Path>)
    requires Distinct(order + queue) && queue != []
    ensures queue[0] !in order && queue[0] in order + queue
  {
    var all := order + queue;
    assert all[|order|] == queue[0] && forall i | 0 <= i < |order| :: all[i] == order[i];
  }

  lemma StillAfter(all: seq<Path>, kids: seq<Path>, d: Path, names: seq<Name>)
    requires d in all && kids == Under(d, names) && forall b | 0 < b < |all| :: AfterParent(all, b)
    ensures forall b | 0 < b < |all + kids| :: AfterParent(all + kids, b)
  {
    forall b | 0 < b < |all + kids| ensures AfterParent(all + kids, b) {
      if b < |all| {
        assert AfterParent(all, b) && (all + kids)[..b] == all[..b];
      } else {
        KidOf(d, names, kids[b - |all|]);
        assert all <= (all + kids)[..b];
      }
    }
  }

  lemma KidOf(d: Path, names: seq<Name>, p: Path)
    requires p in Under(d, names)
    ensures p != [] && Parent(p) == d
  {
  }

  lemma SubdirsSorted(dirs: Dirs, d: Path, s: Dir)
    requires Tree(dirs) && d in dirs && SortedDir(dirs[d], s)
    ensures Sorted(s.subdirs) && forall p | p in Under(d, s.subdirs) :: p in dirs
  {
    assert HasChildren(dirs, d);
  }

  /** Every directory is in a finished order. */
  lemma {:induction false} AllVisited(dirs: Dirs, sorted: Dirs, order: seq<Path>, p: Path)
    requires Tree(dirs) && Visiting(dirs, sorted, order, []) && p in dirs
    ensures p in order
    decreases |p|
  {
    hide Visiting, Tree, Kids, SortedDir;
    VisitedAll(dirs, sorted, order);
    if p == [] {
      assert order[0] in order;
    } else {
      var q := Parent(p);
      NamedInParent(dirs, p);
      AllVisited(dirs, sorted, order, q);
      assert p == q + [Last(p)];
      SameSubdirs(dirs[q], sorted[q], Last(p));
      KidIn(sorted, order, q, Last(p));
    }
  }

  /** A finished visit, without its intermediate parts. */
  lemma VisitedAll(dirs: Dirs, sorted: Dirs, order: seq<Path>)
    requires Visiting(dirs, sorted, order, [])
    ensures forall p | p in order :: p in dirs && p in sorted && SortedDir(dirs[p], sorted[p])
    ensures order == [[]] + Kids(sorted, order)
  {
    hide Kids, SortedDir;
    assert order + [] == order;
  }

  lemma NamedInParent(dirs: Dirs, p: Path)
    requires Tree(dirs) && p in dirs && p != []
    ensures Parent(p) in dirs && Last(p) in dirs[Parent(p)].subdirs
  {
    assert HasParent(dirs, p);
  }

  lemma SameSubdirs(d: Dir, s: Dir, name: Name)
    requires SortedDir(d, s)
    ensures name in d.subdirs <==> name in s.subdirs
  {
  }

  lemma {:induction false} KidIn(sorted: Dirs, order: seq<Path>, q: Path, name: Name)
    requires (forall p | p in order :: p in sorted) && q in order && name in sorted[q].subdirs
    ensures q + [name] in Kids(sorted, order)
  {
    var front, d := order[..|order| - 1], order[|order| - 1];
    if d == q {
      var k :| 0 <= k < |sorted[q].subdirs| && sorted[q].subdirs[k] == name;
      assert Under(q, sorted[q].subdirs)[k] == q + [name];
    } else {
      assert q in front;
      KidIn(sorted, front, q, name);
    }
  }

  /** The breadth-first order of a tree: the root, then the sorted children of each entry in turn. */
  ghost predicate BreadthFirst(dirs: Dirs, sorted: Dirs, order: seq<Path>) {
    && dirs.Keys == sorted.Keys && (forall p | p in dirs :: SortedDir(dirs[p], sorted[p]))
    && Distinct(order) && (forall p :: p in order <==> p in dirs)
    && order == [[]] + Kids(sorted, order)
    && (forall b | 0 < b < |order| :: AfterParent(order, b))
  }

  method OrderDirs(dirs: Dirs) returns (sorted: Dirs, order: seq<Path>)
    requires Tree(dirs)
    ensures BreadthFirst(dirs, sorted, order)
  {
    sorted, order := dirs, [];
    var queue: seq<Path> := [[]];
    StartVisiting(dirs);
    hide Visiting, Tree, SortedDir;
    while queue != []
      invariant Visiting(dirs, sorted, order, queue)
      decreases |dirs.Keys| - |order|
    {
      var d := queue[0];
      Pending(dirs, sorted, order, queue);
      var names := SortSet(set n | n in sorted[d].subdirs);
      var files := SortFiles(sorted[d].files);
      IsSorted(dirs[d], Dir(names, files));
      Visit(dirs, sorted, order, queue, Dir(names, files));
      sorted := sorted[d := Dir(names, files)];
      order := order + [d];
      queue := queue[1..] + Under(d, names);
      Bounded(dirs, sorted, order, queue);
    }
    DoneVisiting(dirs, sorted, order);
  }

  lemma StartVisiting(dirs: Dirs)
    requires Tree(dirs)
    ensures Visiting(dirs, dirs, [], [[]])
  {
    var none: seq<Path> := [];
    assert none + [[]] == [[]] + Kids(dirs, none);
  }

  lemma DoneVisiting(dirs: Dirs, sorted: Dirs, order: seq<Path>)
    requires Tree(dirs) && Visiting(dirs, sorted, order, [])
    ensures BreadthFirst(dirs, sorted, order)
  {
    hide SortedDir, Tree;
    assert order + [] == order;
    forall p | p in dirs ensures p in order { AllVisited(dirs, sorted, order, p); }
  }

  lemma IsSorted(d: Dir, s: Dir)
    requires Sorted(s.subdirs) && (forall n :: n in s.subdirs <==> n in d.subdirs)
    requires ByName(s.files) && multiset(s.files) == multiset(d.files)
    ensures SortedDir(d, s)
  {
  }

  lemma Pending(dirs: Dirs, sorted: Dirs, order: seq<Path>, queue: seq<Path>)
    requires Visiting(dirs, sorted, order, queue) && queue != []
    ensures queue[0] in dirs && queue[0] in sorted && sorted[queue[0]] == dirs[queue[0]] && |order| < |dirs.Keys|
  {
    assert (order + queue)[|order|] == queue[0];
    assert order == (order + queue)[..|order|];
    DistinctFits(order + [queue[0]], dirs.Keys);
  }

  lemma Bounded(dirs: Dirs, sorted: Dirs, order: seq<Path>, queue: seq<Path>)
    requires Visiting(dirs, sorted, order, queue)
    ensures |order| <= |dirs.Keys|
  {
    assert order == (order + queue)[..|order|];
    DistinctFits(order, dirs.Keys);
  }

  // ---------- the order a path table needs ----------

  function IndexOf(order: seq<Path>, p: Path): (i: nat)
    requires p in order
    ensures i < |order| && order[i] == p
  {
    if order[0] == p then 0 else 1 + IndexOf(order[1..], p)
  }

  lemma {:induction false} KidParent(sorted: Dirs, order: seq<Path>, k: nat) returns (i: nat, j: nat)
    requires (forall p | p in order :: p in sorted) && k < |Kids(sorted, order)|
    ensures i < |order| && j < |sorted[order[i]].subdirs| &&
            Kids(sorted, order)[k] == order[i] + [sorted[order[i]].subdirs[j]]
    ensures |Kids(sorted, order[..i])| + j == k
  {
    var n := |order| - 1;
    var front := order[..n];
    if k < |Kids(sorted, front)| {
      i, j := KidParent(sorted, front, k);
      assert front[..i] == order[..i];
    } else {
      i, j := n, k - |Kids(sorted, front)|;
    }
  }

  lemma {:induction false} KidsMonotone(sorted: Dirs, order: seq<Path>, i: nat)
    requires (forall p | p in order :: p in sorted) && i < |order|
    ensures |Kids(sorted, order[..i])| + |sorted[order[i]].subdirs| <= |Kids(sorted, order)|
  {
    var n := |order| - 1;
    if i < n {
      KidsMonotone(sorted, order[..n], i);
      assert order[..n][..i] == order[..i];
    }
  }

  /** Parents come before children, and their positions never decrease along the order. */
  lemma ParentPositions(dirs: Dirs, sorted: Dirs, order: seq<Path>, a: nat, b: nat)
    requires BreadthFirst(dirs, sorted, order) && 0 < a <= b < |order|
    ensures order[a] != [] && order[b] != [] && Parent(order[a]) in order && Parent(order[b]) in order
    ensures IndexOf(order, Parent(order[a])) <= IndexOf(order, Parent(order[b])) < b
    ensures Parent(order[a]) == Parent(order[b]) && a < b ==> Less(Last(order[a]), Last(order[b]))
  {
    hide SortedDir, Kids, AfterParent, BreadthFirst;
    var i, j := ParentAt(dirs, sorted, order, a);
    var i', j' := ParentAt(dirs, sorted, order, b);
    if i' < i {
      KidsBefore(dirs, sorted, order, i', i);
    } else if i == i' {
      NamesInOrder(dirs[order[i]], sorted[order[i]], j, j');
    }
  }

  lemma KidsBefore(dirs: Dirs, sorted: Dirs, order: seq<Path>, i': nat, i: nat)
    requires BreadthFirst(dirs, sorted, order) && i' < i < |order|
    ensures |Kids(sorted, order[..i'])| + |sorted[order[i']].subdirs| <= |Kids(sorted, order[..i])|
  {
    hide SortedDir, AfterParent;
    assert order[..i][..i'] == order[..i'] && order[..i][i'] == order[i'];
    KidsMonotone(sorted, order[..i], i');
  }

  lemma ParentAt(dirs: Dirs, sorted: Dirs, order: seq<Path>, a: nat) returns (i: nat, j: nat)
    requires BreadthFirst(dirs, sorted, order) && 0 < a < |order|
    ensures i < a && order[a] != [] && order[i] == Parent(order[a]) && order[i] in order &&
            IndexOf(order, order[i]) == i
    ensures order[i] in dirs && order[i] in sorted && SortedDir(dirs[order[i]], sorted[order[i]])
    ensures j < |sorted[order[i]].subdirs| && Last(order[a]) == sorted[order[i]].subdirs[j]
    ensures (forall p | p in order[..i] :: p in sorted) && |Kids(sorted, order[..i])| + j == a - 1
  {
    hide SortedDir, Kids;
    i, j := KidParent(sorted, order, a - 1);
    assert order[a] == ([[]] + Kids(sorted, order))[a] == Kids(sorted, order)[a - 1];
    assert Parent(order[a]) == order[i];
    PositionUnique(order, i);
    assert AfterParent(order, a);
    var k :| 0 <= k < a && order[k] == order[i];
  }

  lemma NamesInOrder(d: Dir, s: Dir, j: nat, j': nat)
    requires SortedDir(d, s) && j <= j' < |s.subdirs|
    ensures j < j' ==> Less(s.subdirs[j], s.subdirs[j'])
  {
  }

  lemma PositionUnique(order: seq<Path>, i: nat)
    requires Distinct(order) && i < |order|
    ensures order[i] in order && IndexOf(order, order[i]) == i
  {
  }

  /** The path table's order: by level, and within a level by the parent's position. */
  lemma {:induction false} LevelsInOrder(dirs: Dirs, sorted: Dirs, order: seq<Path>, a: nat, b: nat)
    requires BreadthFirst(dirs, sorted, order) && a <= b < |order|
    ensures |order[a]| <= |order[b]|
    decreases b
  {
    hide BreadthFirst;
    RootFirst(dirs, sorted, order);
    if a > 0 {
      ParentPositions(dirs, sorted, order, a, b);
      LevelsInOrder(dirs, sorted, order, IndexOf(order, Parent(order[a])), IndexOf(order, Parent(order[b])));
    }
  }

  lemma RootFirst(dirs: Dirs, sorted: Dirs, order: seq<Path>)
    requires BreadthFirst(dirs, sorted, order)
    ensures |order| > 0 && order[0] == []
  {
  }
}
