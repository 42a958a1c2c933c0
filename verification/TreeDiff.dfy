/**
 Model of internal/install/treediff.go: a file-level diff of two root filesystems,
 written step by step into an output tree that overlayfs stacks above the base.

 A filesystem is a finite map from paths to entries.  The root directory itself is
 implicit: its attributes are no part of the delta.
 */
module TreeDiff {
  import opened Basics

  datatype SpecialKind = Block | Char | Fifo | Socket

  datatype Body =
    | Directory
    | Regular(content: Bytes)
    | Symlink(target: Bytes)
    | Special(kind: SpecialKind, rdev: nat)

  /** `perm` holds the nine permission bits, `special` the set-id and sticky bits. */
  datatype Meta = Meta(perm: nat, special: nat, uid: nat, gid: nat)

  datatype Entry = Entry(body: Body, meta: Meta)

  type Fs = map<Path, Entry>

  ghost predicate HasParent(fs: Fs, p: Path)
    requires p != []
  {
    |p| > 1 ==> p[..|p| - 1] in fs && fs[p[..|p| - 1]].body.Directory?
  }

  ghost predicate WellFormed(fs: Fs) {
    forall p | p in fs :: p != [] && HasParent(fs, p)
  }

  // ---------- overlayfs, the specification of what a delta means ----------

  /** A 0:0 character device is overlayfs's whiteout. */
  predicate IsWhiteout(e: Entry) {
    e.body == Special(Char, 0)
  }

  /** What `lowerdir=upper:lower` shows at a path, resolved component by component. */
  ghost function Merged(upper: Fs, lower: Fs, p: Path): Option<Entry>
    decreases |p|
  {
    if p == [] then None
    else if |p| > 1 && !ShowsDirectory(Merged(upper, lower, p[..|p| - 1])) then None
    else if p in upper then (if IsWhiteout(upper[p]) then None else Some(upper[p]))
    else if p in lower && !IsWhiteout(lower[p]) then Some(lower[p])
    else None
  }

  ghost predicate ShowsDirectory(o: Option<Entry>) {
    o.Some? && o.value.body.Directory?
  }

  /** The attributes the delta is meant to preserve.  A symlink has no permission bits of its own. */
  datatype Visible = Visible(body: Body, perm: nat, uid: nat, gid: nat)

  function View(e: Entry): Visible {
    Visible(e.body, if e.body.Symlink? then 0 else e.meta.perm, e.meta.uid, e.meta.gid)
  }

  ghost function ViewOf(o: Option<Entry>): Option<Visible> {
    if o.None? then None else Some(View(o.value))
  }

  ghost function ViewAt(fs: Fs, p: Path): Option<Visible> {
    if p in fs then Some(View(fs[p])) else None
  }

  /** `p` or one of its ancestors is on the exclude list. */
  ghost predicate Pruned(excluded: set<Path>, p: Path) {
    exists k :: 0 < k <= |p| && p[..k] in excluded
  }

  /** The paths a delta gets right: env's entry is no whiteout look-alike, and where env has a
      socket (which the delta never carries) base shows the same socket and nothing below it. */
  ghost predicate Expressible(base: Fs, env: Fs, p: Path) {
    && (p in env ==> !IsWhiteout(env[p]))
    && (p in env && IsSocket(env[p]) ==> ViewAt(base, p) == ViewAt(env, p))
    && (p !in env && AtOrBelowSocket(env, p) ==> !Shows(base, p))
  }

  ghost predicate AtOrBelowSocket(env: Fs, p: Path) {
    exists k :: 0 < k <= |p| && p[..k] in env && IsSocket(env[p[..k]])
  }

  ghost predicate Shows(lower: Fs, p: Path) {
    p in lower && !IsWhiteout(lower[p])
  }

  predicate IsSocket(e: Entry) {
    e.body.Special? && e.body.kind.Socket?
  }

  // ---------- which paths a delta has to hold ----------

  /** env has an entry here that base has not, or has differently; a symlink has no mode. */
  ghost predicate Changed(base: Fs, env: Fs, p: Path) {
    && p in env
    && (p in base ==>
          View(base[p]) != View(env[p]) || (!env[p].body.Symlink? && base[p].meta.special != env[p].meta.special))
  }

  /** base has an entry here that env, which has the directory, has not. */
  ghost predicate Gone(base: Fs, env: Fs, p: Path) {
    p != [] && p in base && p !in env && HasParent(env, p)
  }

  ghost predicate ChangedAtOrAbove(base: Fs, env: Fs, p: Path) {
    exists k :: 0 < k <= |p| && Changed(base, env, p[..k])
  }

  ghost predicate LeadsToDifference(base: Fs, env: Fs, excluded: set<Path>, p: Path) {
    exists q :: p < q && !Pruned(excluded, q) && (Changed(base, env, q) || Gone(base, env, q))
  }

  /** What is gone, what lies at or below a change (sockets apart), and the directories on the way to a
      difference. */
  ghost predicate Needed(base: Fs, env: Fs, excluded: set<Path>, p: Path) {
    && p != [] && !Pruned(excluded, p)
    && (Gone(base, env, p) ||
        (p in env && !IsSocket(env[p])
         && (ChangedAtOrAbove(base, env, p) || LeadsToDifference(base, env, excluded, p))))
  }

  /** Equal trees need nothing. */
  lemma NothingNeeded(env: Fs, excluded: set<Path>, p: Path)
    ensures !Needed(env, env, excluded, p)
  {
  }

  // ---------- comparisons of treediff.go ----------

  predicate SameType(a: Entry, b: Entry) {
    match (a.body, b.body)
    case (Directory, Directory) => true
    case (Regular(_), Regular(_)) => true
    case (Symlink(_), Symlink(_)) => true
    case (Special(k, _), Special(l, _)) => k == l
    case _ => false
  }

  predicate SameOwner(a: Entry, b: Entry) {
    a.meta.uid == b.meta.uid && a.meta.gid == b.meta.gid
  }

  predicate SameMeta(a: Entry, b: Entry) {
    SameType(a, b) && a.meta.perm == b.meta.perm && a.meta.special == b.meta.special && SameOwner(a, b)
  }

  const CHUNK := 256 * 1024

  /** One io.ReadFull: the bytes read and whether the file ended inside the buffer. */
  function ReadFull(f: Bytes, pos: nat): (r: (Bytes, bool))
    requires pos <= |f|
    ensures |r.0| <= CHUNK && pos + |r.0| <= |f| && r.0 == f[pos..pos + |r.0|]
    ensures r.1 <==> |f| - pos < CHUNK
    ensures r.1 ==> pos + |r.0| == |f|
    ensures !r.1 ==> |r.0| == CHUNK
  {
    if |f| - pos < CHUNK then (f[pos..], true) else (f[pos..pos + CHUNK], false)
  }

  /** The chunked comparison decides exact equality of the two files. */
  method SameContent(a: Bytes, b: Bytes) returns (same: bool)
    ensures same <==> a == b
  {
    var pos := 0;
    while true
      invariant pos <= |a| && pos <= |b|
      invariant a[..pos] == b[..pos]
      decreases |a| - pos
    {
      var (ca, endA) := ReadFull(a, pos);
      var (cb, endB) := ReadFull(b, pos);
      if |ca| != |cb| || ca != cb {
        return false;
      }
      assert a[..pos + |ca|] == a[..pos] + ca && b[..pos + |cb|] == b[..pos] + cb;
      if endA {
        assert a[..|a|] == a && b[..|b|] == b;
        return endB;
      }
      pos := pos + |ca|;
    }
  }

  // ---------- paths ----------

  lemma {:induction false} AncestorsAreDirectories(fs: Fs, p: Path, k: nat)
    requires WellFormed(fs) && p in fs && 0 < k < |p|
    ensures p[..k] in fs && fs[p[..k]].body.Directory?
    decreases |p|
  {
    var parent := p[..|p| - 1];
    if k < |p| - 1 {
      AncestorsAreDirectories(fs, parent, k);
      assert parent[..k] == p[..k];
    }
  }

  lemma PrunedChild(excluded: set<Path>, rel: Path, name: Name)
    ensures Pruned(excluded, rel + [name]) <==> Pruned(excluded, rel) || rel + [name] in excluded
  {
    var c := rel + [name];
    assert forall k | 0 < k <= |rel| :: c[..k] == rel[..k];
    assert c[..|c|] == c;
  }

  lemma PrunedBelow(excluded: set<Path>, q: Path, p: Path)
    requires q <= p && Pruned(excluded, q)
    ensures Pruned(excluded, p)
  {
    var k :| 0 < k <= |q| && q[..k] in excluded;
    assert p[..k] == q[..k];
  }

  function ChildNames(fs: Fs, rel: Path): set<Name> {
    set p | p in fs && |p| == |rel| + 1 && rel < p :: p[|rel|]
  }

  ghost function StrictlyBelow(fs: Fs, rel: Path): set<Path> {
    set p | p in fs && rel < p
  }

  lemma ChildInNames(fs: Fs, rel: Path, name: Name)
    ensures name in ChildNames(fs, rel) <==> rel + [name] in fs
  {
    if rel + [name] in fs {
      assert (rel + [name])[|rel|] == name;
    }
    if name in ChildNames(fs, rel) {
      var p :| p in fs && |p| == |rel| + 1 && rel < p && p[|rel|] == name;
      assert p == rel + [name];
    }
  }

  lemma BelowChildSmaller(fs: Fs, rel: Path, name: Name)
    ensures StrictlyBelow(fs, rel + [name]) <= StrictlyBelow(fs, rel)
    ensures rel + [name] in fs ==> rel + [name] in StrictlyBelow(fs, rel) - StrictlyBelow(fs, rel + [name])
  {
  }

  /** The step of `rel` towards a path below it. */
  lemma TowardsBelow(rel: Path, p: Path)
    requires rel < p
    ensures rel + [p[|rel|]] <= p
  {
    assert rel == p[..|rel|];
    assert p[..|rel| + 1] == rel + [p[|rel|]];
  }

  // ---------- system calls on the output tree ----------

  datatype Errno = Ok | EEXIST | ENOENT

  predicate ParentIsDirectory(fs: Fs, p: Path)
    requires p != []
  {
    |p| == 1 || (p[..|p| - 1] in fs && fs[p[..|p| - 1]].body.Directory?)
  }

  /** mkdir, symlink and mknod all refuse an existing name and a missing parent. */
  function Make(fs: Fs, p: Path, e: Entry): (Errno, Fs)
    requires p != []
  {
    if !ParentIsDirectory(fs, p) then (ENOENT, fs)
    else if p in fs then (EEXIST, fs)
    else (Ok, fs[p := e])
  }

  /** os.Remove: a file, or an empty directory. */
  function Unlink(fs: Fs, p: Path): Fs {
    if p in fs && (fs[p].body.Directory? ==> ChildNames(fs, p) == {}) then fs - {p} else fs
  }

  /** Removing a leaf and making it again, with other attributes in the end. */
  lemma Relinked(o: Fs, rel: Path, first: Entry, last: Entry)
    requires rel != [] && ParentIsDirectory(o, rel) && (rel in o ==> !o[rel].body.Directory?)
    ensures var (err, made) := Make(Unlink(o, rel), rel, first); err == Ok && made[rel := last] == o[rel := last]
  {
  }

  class TreeDiffer {
    const base: Fs
    const env: Fs
    const excluded: set<Path>
    /** Mode and owner the kernel gives a node before applyMeta; any value will do. */
    const initial: Meta
    var out: Fs

    constructor (base: Fs, env: Fs, excluded: set<Path>, initial: Meta)
      ensures this.base == base && this.env == env && this.excluded == excluded && this.initial == initial
      ensures out == map[]
    {
      this.base, this.env, this.excluded, this.initial := base, env, excluded, initial;
      out := map[];
    }

    /** The entry that a completed copyEntry leaves for an env entry. */
    ghost function Copied(e: Entry): Entry {
      if e.body.Symlink? then Entry(e.body, Meta(initial.perm, initial.special, e.meta.uid, e.meta.gid))
      else Entry(e.body, Meta(e.meta.perm, 0, e.meta.uid, e.meta.gid))
    }

    ghost function Whiteout(): Entry {
      Entry(Special(Char, 0), initial)
    }

    ghost predicate Inputs() {
      WellFormed(base) && WellFormed(env)
    }

    /** A delta entry repeats env's, or is a whiteout for something only base has.  The directories
        `open` and above it are being filled and still wait for their final attributes. */
    ghost predicate EntryOk(p: Path, e: Entry, open: Path) {
      && !Pruned(excluded, p) && Needed(base, env, excluded, p)
      && if p in env then
           && !IsSocket(env[p])
           && if p <= open then env[p].body.Directory? && e.body.Directory? else e == Copied(env[p])
         else p in base && e == Whiteout()
    }

    ghost predicate Sound(o: Fs, open: Path) {
      WellFormed(o) && forall p | p in o :: EntryOk(p, o[p], open)
    }

    ghost predicate Keeps(o: Fs, o': Fs) {
      forall p | p in o :: p in o' && o'[p] == o[p]
    }

    /** `p` is a finished copy at, below or above `rel`. */
    ghost predicate CopyNear(p: Path, e: Entry, rel: Path) {
      p in env && !Pruned(excluded, p) && !IsSocket(env[p]) && e == Copied(env[p]) && (rel <= p || p < rel)
    }

    /** `o'` keeps all of `o` and adds only finished copies, at, below or above `rel`. */
    ghost predicate AddsCopies(o: Fs, o': Fs, rel: Path) {
      Keeps(o, o') && forall p | p in o' && p !in o :: CopyNear(p, o'[p], rel)
    }

    /** `p` is at or below something that env changed. */
    ghost predicate Why(p: Path) {
      ChangedAtOrAbove(base, env, p)
    }

    /** What differs at `p` is in the delta; for a socket, the directories above it are. */
    ghost predicate Carried(o: Fs, p: Path)
      requires p != []
    {
      (p in env && Why(p)) || Gone(base, env, p) ==>
        if p in env && IsSocket(env[p]) then ParentIsDirectory(o, p) else p in o
    }

    /** Nothing is left to do for `p`: the delta has it, base already shows it, or it is a socket. */
    ghost predicate Settled(o: Fs, p: Path) {
      p != [] && HasParent(env, p) ==>
        && (p in o || ViewAt(base, p) == ViewAt(env, p) || (p in env && IsSocket(env[p])))
        && Carried(o, p)
    }

    lemma WhyBelow(q: Path, p: Path)
      requires q <= p && Why(q)
      ensures Why(p)
    {
      var k :| 0 < k <= |q| && Changed(base, env, q[..k]);
      assert p[..k] == q[..k];
    }

    lemma WhyHere(p: Path)
      requires p != [] && Changed(base, env, p)
      ensures Why(p)
    {
      assert p[..|p|] == p;
    }

    /** A path that did not change itself is below one that did. */
    lemma WhyAbove(p: Path)
      requires p != [] && Why(p) && !Changed(base, env, p)
      ensures Why(Parent(p))
    {
      var k :| 0 < k <= |p| && Changed(base, env, p[..k]);
      assert p[..|p|] == p;
      assert Parent(p)[..k] == p[..k];
    }

    lemma CopyNeeded(p: Path)
      requires p != [] && p in env && !IsSocket(env[p]) && !Pruned(excluded, p) && Why(p)
      ensures Needed(base, env, excluded, p)
    {
    }

    /** The directories above a difference are needed. */
    lemma ParentNeeded(rel: Path, i: nat)
      requires Inputs() && !Pruned(excluded, rel) && ParentsInEnv(rel) && 0 < i < |rel|
      requires (rel in env && Why(rel)) || Gone(base, env, rel)
      ensures !Pruned(excluded, rel[..i]) && Needed(base, env, excluded, rel[..i])
    {
      var cur := rel[..i];
      if Pruned(excluded, cur) { PrunedBelow(excluded, cur, rel); }
      assert cur < rel;
      if !Gone(base, env, rel) {
        var k :| 0 < k <= |rel| && Changed(base, env, rel[..k]);
        if k <= i {
          assert cur[..k] == rel[..k];
        } else {
          if Pruned(excluded, rel[..k]) { PrunedBelow(excluded, rel[..k], rel); }
          assert cur < rel[..k];
        }
      }
    }

    ghost predicate AllSettled(o: Fs, rel: Path) {
      forall p | rel <= p && !Pruned(excluded, p) :: Settled(o, p)
    }

    // ----- ensureParents -----

    ghost predicate ParentsInEnv(rel: Path) {
      forall k | 0 < k < |rel| :: rel[..k] in env && env[rel[..k]].body.Directory?
    }

    lemma AddParent(o: Fs, rel: Path, i: nat)
      requires Inputs() && !Pruned(excluded, rel) && ParentsInEnv(rel)
      requires 0 < i < |rel| && Sound(o, Parent(rel)) && rel[..i] !in o && ParentIsDirectory(o, rel[..i])
      requires (rel in env && Why(rel)) || Gone(base, env, rel)
      ensures var o' := o[rel[..i] := Copied(env[rel[..i]])]; Sound(o', Parent(rel)) && AddsCopies(o, o', rel)
    {
      ParentNeeded(rel, i);
      GrownWellFormed(o, rel[..i], Copied(env[rel[..i]]));
      hide Needed, Pruned, WellFormed;
    }

    lemma AddsCopiesTransitive(o: Fs, o': Fs, o'': Fs, rel: Path)
      requires AddsCopies(o, o', rel) && AddsCopies(o', o'', rel)
      ensures AddsCopies(o, o'', rel)
    {
    }

    lemma ParentFound(o: Fs, rel: Path, i: nat)
      requires ParentsInEnv(rel) && 0 < i < |rel| && Sound(o, Parent(rel)) && rel[..i] in o
      ensures o[rel[..i]].body.Directory?
    {
      assert EntryOk(rel[..i], o[rel[..i]], Parent(rel));
    }

    lemma AddsNothing(o: Fs, rel: Path)
      ensures AddsCopies(o, o, rel)
    {
    }

    method EnsureParents(rel: Path) returns (err: Errno)
      requires Inputs() && rel != [] && !Pruned(excluded, rel) && ParentsInEnv(rel)
      requires Sound(out, Parent(rel)) && ((rel in env && Why(rel)) || Gone(base, env, rel))
      modifies this`out
      ensures err == Ok && Sound(out, Parent(rel)) && AddsCopies(old(out), out, rel)
      ensures ParentIsDirectory(out, rel)
    {
      hide Sound, AddsCopies, Pruned, Why, Gone;
      AddsNothing(out, rel);
      var i := 1;
      while i < |rel|
        invariant 1 <= i <= |rel|
        invariant Sound(out, Parent(rel)) && AddsCopies(old(out), out, rel)
        invariant ParentIsDirectory(out, rel[..i])
      {
        var cur := rel[..i];
        assert rel[..i + 1][..i] == cur;
        if cur in out {
          ParentFound(out, rel, i);
        } else {
          ghost var before := out;
          var (e, made) := Make(out, cur, Entry(Directory, initial));
          if e != Ok && e != EEXIST { return e; }
          var info := env[cur];
          AddParent(out, rel, i);
          out := made[cur := Entry(Directory, Meta(info.meta.perm, 0, info.meta.uid, info.meta.gid))];
          assert out == before[cur := Copied(info)];
          AddsCopiesTransitive(old(out), before, out, rel);
        }
        i := i + 1;
      }
      assert rel[..|rel|] == rel;
      return Ok;
    }

    // ----- copyEntry -----

    /** Everything of env at and below `rel` that a delta can hold is in `o`. */
    ghost predicate Holds(o: Fs, rel: Path) {
      forall p | rel <= p && p in env && !Pruned(excluded, p) && !IsSocket(env[p]) :: p in o
    }

    lemma EnvParents(rel: Path)
      requires Inputs() && rel in env
      ensures ParentsInEnv(rel)
    {
      forall k | 0 < k < |rel| ensures rel[..k] in env && env[rel[..k]].body.Directory? {
        AncestorsAreDirectories(env, rel, k);
      }
    }

    /** Putting the finished copy of `rel` in place keeps the delta sound, whether it was there or not. */
    lemma AddCopy(o: Fs, rel: Path)
      requires Inputs() && rel in env && !Pruned(excluded, rel) && !IsSocket(env[rel]) && Why(rel)
      requires Sound(o, Parent(rel)) && ParentIsDirectory(o, rel)
      ensures rel in o ==> o[rel] == Copied(env[rel])
      ensures var o' := o[rel := Copied(env[rel])]; Sound(o', Parent(rel)) && AddsCopies(o, o', rel)
    {
      if rel in o {
        assert EntryOk(rel, o[rel], Parent(rel));
        assert o[rel := Copied(env[rel])] == o;
        AddsNothing(o, rel);
      } else {
        AddNew(o, rel);
      }
    }

    lemma AddNew(o: Fs, rel: Path)
      requires Inputs() && rel in env && !Pruned(excluded, rel) && !IsSocket(env[rel]) && rel !in o && Why(rel)
      requires Sound(o, Parent(rel)) && ParentIsDirectory(o, rel)
      ensures var o' := o[rel := Copied(env[rel])]; Sound(o', Parent(rel)) && AddsCopies(o, o', rel)
    {
      CopyNeeded(rel);
      hide Needed, Pruned;
    }

    lemma NothingBelowLeaf(rel: Path, p: Path)
      requires Inputs() && rel in env && !env[rel].body.Directory? && rel < p
      ensures p !in env && !HasParent(env, p)
    {
      assert p[..|rel|] == rel && (|p| > |rel| + 1 ==> Parent(p)[..|rel|] == rel);
      if p in env {
        AncestorsAreDirectories(env, p, |rel|);
      } else if HasParent(env, p) && |p| > |rel| + 1 {
        AncestorsAreDirectories(env, Parent(p), |rel|);
      }
    }

    lemma HoldsLeaf(o: Fs, rel: Path)
      requires Inputs() && rel in env && !env[rel].body.Directory? && (rel in o || IsSocket(env[rel]))
      ensures Holds(o, rel)
    {
      forall p | rel <= p && p in env ensures p == rel {
        if p != rel { NothingBelowLeaf(rel, p); }
      }
    }

    lemma SocketAbsent(o: Fs, rel: Path)
      requires rel != [] && rel in env && IsSocket(env[rel]) && Sound(o, Parent(rel))
      ensures rel !in o && Unlink(o, rel) == o
    {
      assert rel in o ==> EntryOk(rel, o[rel], Parent(rel));
    }

    /** The symlink, regular-file, device, fifo and socket arms of copyEntry. */
    method CopyLeaf(rel: Path) returns (err: Errno)
      requires Inputs() && rel in env && !Pruned(excluded, rel) && !env[rel].body.Directory? && Why(rel)
      requires Sound(out, Parent(rel)) && ParentIsDirectory(out, rel)
      modifies this`out
      ensures err == Ok && Sound(out, Parent(rel)) && AddsCopies(old(out), out, rel)
      ensures rel in out || IsSocket(env[rel])
    {
      hide Needed, Why, Pruned, Sound, AddsCopies, Unlink, Make;
      var info := env[rel];
      if IsSocket(info) {
        SocketAbsent(out, rel);
        AddsNothing(out, rel);
        out := Unlink(out, rel);
        return Ok;
      }
      AddCopy(out, rel);
      Relinked(out, rel, Entry(info.body, initial), Copied(info));
      out := Unlink(out, rel);
      var (e, made) := Make(out, rel, Entry(info.body, initial));
      if e != Ok { return e; }
      // lchown for a symlink, applyMeta for everything else
      var meta := if info.body.Symlink? then Meta(initial.perm, initial.special, info.meta.uid, info.meta.gid)
                  else Meta(info.meta.perm, 0, info.meta.uid, info.meta.gid);
      out := made[rel := Entry(info.body, meta)];
      return Ok;
    }

    method CopyEntry(rel: Path) returns (err: Errno)
      requires Inputs() && rel in env && !Pruned(excluded, rel) && Why(rel)
      requires Sound(out, Parent(rel))
      modifies this`out
      ensures err == Ok && Sound(out, Parent(rel)) && AddsCopies(old(out), out, rel) && Holds(out, rel)
      ensures ParentIsDirectory(out, rel)
      decreases StrictlyBelow(env, rel), 1
    {
      hide Needed, Why, Pruned, Sound;
      EnvParents(rel);
      err := EnsureParents(rel);
      if err != Ok { return; }
      ghost var parents := out;
      if env[rel].body.Directory? {
        err := CopyDirectory(rel);
      } else {
        err := CopyLeaf(rel);
        HoldsLeaf(out, rel);
      }
      AddsCopiesTransitive(old(out), parents, out, rel);
    }

    /** The state of the delta while the directory `rel` is being filled. */
    ghost predicate Filling(o: Fs, o': Fs, rel: Path) {
      && Sound(o', rel) && rel in o' && Keeps(o, o')
      && forall p | p in o' && p !in o && p != rel :: CopyNear(p, o'[p], rel)
    }

    lemma StartFilling(o: Fs, rel: Path)
      requires Inputs() && rel in env && !Pruned(excluded, rel) && env[rel].body.Directory? && Why(rel)
      requires Sound(o, Parent(rel)) && ParentIsDirectory(o, rel)
      ensures rel in o ==> Filling(o, o, rel)
      ensures rel !in o ==> Filling(o, o[rel := Entry(Directory, initial)], rel)
    {
      CopyNeeded(rel);
      hide Needed, Pruned, EntryOk;
      var o' := if rel in o then o else o[rel := Entry(Directory, initial)];
      if rel !in o { GrownWellFormed(o, rel, Entry(Directory, initial)); }
      forall p | p in o' ensures EntryOk(p, o'[p], rel) {
        if p == rel { OpenEntry(o, rel); } else { StaysOk(p, o[p], rel); }
      }
    }

    lemma GrownWellFormed(o: Fs, rel: Path, e: Entry)
      requires WellFormed(o) && rel != [] && rel !in o && ParentIsDirectory(o, rel)
      ensures WellFormed(o[rel := e])
    {
    }

    /** A directory that is there, or is made now, may be filled. */
    lemma OpenEntry(o: Fs, rel: Path)
      requires Inputs() && rel in env && !Pruned(excluded, rel) && env[rel].body.Directory?
      requires Needed(base, env, excluded, rel) && Sound(o, Parent(rel))
      ensures EntryOk(rel, if rel in o then o[rel] else Entry(Directory, initial), rel)
    {
      hide Needed, Pruned;
      assert rel in o ==> EntryOk(rel, o[rel], Parent(rel));
    }

    lemma StaysOk(p: Path, e: Entry, rel: Path)
      requires p != rel && rel != [] && EntryOk(p, e, Parent(rel))
      ensures EntryOk(p, e, rel)
    {
      hide Needed, Pruned;
      assert p <= rel ==> p == rel[..|p|] == Parent(rel)[..|p|];
    }

    lemma ContinueFilling(o: Fs, o': Fs, o'': Fs, rel: Path, name: Name)
      requires Filling(o, o', rel) && Sound(o'', rel) && AddsCopies(o', o'', rel + [name])
      ensures Filling(o, o'', rel)
    {
    }

    lemma FinishFilling(o: Fs, o': Fs, rel: Path)
      requires Inputs() && rel in env && !Pruned(excluded, rel) && env[rel].body.Directory?
      requires Sound(o, Parent(rel)) && Filling(o, o', rel)
      ensures var o'' := o'[rel := Copied(env[rel])]; Sound(o'', Parent(rel)) && AddsCopies(o, o'', rel)
    {
      hide Needed, Pruned, AddsCopies;
      assert EntryOk(rel, o'[rel], rel);
      var o'' := o'[rel := Copied(env[rel])];
      FilledAdds(o, o', rel);
      forall p | p in o'' ensures EntryOk(p, o''[p], Parent(rel)) {
        if p != rel {
          assert EntryOk(p, o'[p], rel);
          if p in o { assert EntryOk(p, o[p], Parent(rel)); }
        }
      }
    }

    lemma FilledAdds(o: Fs, o': Fs, rel: Path)
      requires Inputs() && rel in env && !Pruned(excluded, rel) && env[rel].body.Directory?
      requires Sound(o, Parent(rel)) && Filling(o, o', rel)
      ensures AddsCopies(o, o'[rel := Copied(env[rel])], rel)
    {
      hide Needed, Pruned;
      if rel in o { assert EntryOk(rel, o[rel], Parent(rel)); }
    }

    method CopyDirectory(rel: Path) returns (err: Errno)
      requires Inputs() && rel in env && !Pruned(excluded, rel) && env[rel].body.Directory? && Why(rel)
      requires Sound(out, Parent(rel)) && ParentIsDirectory(out, rel)
      modifies this`out
      ensures err == Ok && Sound(out, Parent(rel)) && AddsCopies(old(out), out, rel) && Holds(out, rel)
      decreases StrictlyBelow(env, rel), 0
    {
      hide Needed, Why, Pruned;
      StartFilling(out, rel);
      var (e, made) := Make(out, rel, Entry(Directory, initial));
      if e != Ok && e != EEXIST { return e; }
      out := made;
      var todo := ChildNames(env, rel);
      while todo != {}
        invariant Filling(old(out), out, rel)
        invariant todo <= ChildNames(env, rel)
        invariant forall n | n in ChildNames(env, rel) && n !in todo :: Holds(out, rel + [n])
      {
        var name :| name in todo;
        todo := todo - {name};
        var child := rel + [name];
        PrunedChild(excluded, rel, name);
        if child in excluded {
          PrunedAway(out, child);
          continue;
        }
        ChildInNames(env, rel, name);
        BelowChildSmaller(env, rel, name);
        assert Parent(child) == rel;
        ghost var before := out;
        WhyBelow(rel, child);
        err := CopyEntry(child);
        if err != Ok { return; }
        ContinueFilling(old(out), before, out, rel, name);
      }
      HoldsDirectory(out, rel);
      FinishFilling(old(out), out, rel);
      var info := env[rel];
      out := out[rel := Entry(Directory, Meta(info.meta.perm, 0, info.meta.uid, info.meta.gid))];
      assert Entry(Directory, Meta(info.meta.perm, 0, info.meta.uid, info.meta.gid)) == Copied(info);
      return Ok;
    }

    lemma PrunedAway(o: Fs, child: Path)
      requires Pruned(excluded, child)
      ensures Holds(o, child) && AllSettled(o, child)
    {
      forall p | child <= p ensures Pruned(excluded, p) { PrunedBelow(excluded, child, p); }
    }

    lemma HoldsDirectory(o: Fs, rel: Path)
      requires Inputs() && rel in o
      requires forall n | n in ChildNames(env, rel) :: Holds(o, rel + [n])
      ensures Holds(o, rel)
    {
      forall p | rel <= p && p in env && !Pruned(excluded, p) && !IsSocket(env[p]) ensures p in o {
        if p != rel {
          TowardsBelow(rel, p);
          var child := rel + [p[|rel|]];
          if child != p {
            assert child == p[..|child|];
            AncestorsAreDirectories(env, p, |child|);
          }
          ChildInNames(env, rel, p[|rel|]);
          assert Holds(o, child);
        }
      }
    }

    // ----- whiteout, diffEntry, diffDir -----

    /** What a diff step may do below or above `rel`: keep everything, add copies and whiteouts. */
    ghost predicate Diffs(o: Fs, o': Fs, rel: Path) {
      Keeps(o, o') && forall p | p in o' && p !in o :: rel <= p || (p < rel && p in env)
    }

    lemma ExactIsOpen(o: Fs, rel: Path)
      requires Inputs() && Sound(o, []) && ParentsInEnv(rel) && rel != []
      ensures Sound(o, Parent(rel))
    {
      forall p | p in o ensures EntryOk(p, o[p], Parent(rel)) {
        assert EntryOk(p, o[p], []);
        if p <= Parent(rel) { assert p == rel[..|p|]; }
      }
    }

    /** A copy made from a finished delta leaves a finished delta. */
    lemma CopyIsExact(o: Fs, o': Fs, rel: Path)
      requires Sound(o, []) && rel != [] && Sound(o', Parent(rel)) && AddsCopies(o, o', rel)
      ensures Sound(o', []) && Diffs(o, o', rel)
    {
      hide Needed, Pruned;
      forall p | p in o' ensures EntryOk(p, o'[p], []) {
        if p in o { assert EntryOk(p, o[p], []); }
            else { assert CopyNear(p, o'[p], rel) && EntryOk(p, o'[p], Parent(rel)); }
      }
    }

    lemma WhiteoutParents(rel: Path)
      requires Inputs() && rel != [] && HasParent(env, rel)
      ensures ParentsInEnv(rel)
    {
      if |rel| > 1 {
        EnvParents(Parent(rel));
        forall k | 0 < k < |rel| ensures rel[..k] in env && env[rel[..k]].body.Directory? {
          if k < |rel| - 1 { assert Parent(rel)[..k] == rel[..k]; }
        }
      }
    }

    lemma AddWhiteout(o: Fs, o': Fs, rel: Path)
      requires Inputs() && rel != [] && rel in base && rel !in env && !Pruned(excluded, rel) && rel !in o
      requires Sound(o', []) && Diffs(o, o', rel) && ParentIsDirectory(o', rel)
      requires AddsCopies(o, o', rel) && HasParent(env, rel)
      ensures rel !in o'
      ensures var o'' := o'[rel := Whiteout()]; Sound(o'', []) && Diffs(o, o'', rel)
    {
      assert Needed(base, env, excluded, rel);
      assert rel !in o';
      GrownWellFormed(o', rel, Whiteout());
      hide Needed, Pruned, WellFormed;
    }

    method WriteWhiteout(rel: Path) returns (err: Errno)
      requires Inputs() && rel in base && rel !in env && !Pruned(excluded, rel)
      requires HasParent(env, rel) && Sound(out, []) && rel !in out
      modifies this`out
      ensures err == Ok && Sound(out, []) && Diffs(old(out), out, rel) && rel in out
    {
      assert Gone(base, env, rel);
      hide Sound, AddsCopies, Diffs, Pruned, HasParent, Gone, Why;
      WhiteoutParents(rel);
      ExactIsOpen(out, rel);
      err := EnsureParents(rel);
      if err != Ok { return; }
      CopyIsExact(old(out), out, rel);
      AddWhiteout(old(out), out, rel);
      var (e, made) := Make(out, rel, Entry(Special(Char, 0), initial));
      if e != Ok { return e; }
      out := made;
    }

    /** The parent of an env entry that was copied with its directory is there. */
    lemma ParentHeld(o: Fs, rel: Path, p: Path)
      requires Inputs() && Sound(o, []) && Holds(o, rel) && rel < p && !Pruned(excluded, p) && p in env
      ensures ParentIsDirectory(o, p)
    {
      if |p| > 1 {
        var q := Parent(p);
        if Pruned(excluded, q) { PrunedBelow(excluded, q, p); }
        hide Pruned, Needed;
        assert q in env && rel <= q;
        assert EntryOk(q, o[q], []);
      }
    }

    lemma SettledByCopy(o: Fs, rel: Path)
      requires Inputs() && rel in env && Sound(o, []) && Holds(o, rel) && ParentIsDirectory(o, rel)
      requires env[rel].body.Directory? && rel in base ==> !base[rel].body.Directory?
      ensures AllSettled(o, rel)
    {
      forall p | rel <= p && !Pruned(excluded, p) ensures Settled(o, p) {
        hide Sound, Why, Pruned;
        if p !in env && p != rel {
          if !env[rel].body.Directory? { NothingBelowLeaf(rel, p); }
          else if p in base {
            assert p[..|rel|] == rel;
            AncestorsAreDirectories(base, p, |rel|);
          }
        } else if p != rel {
          ParentHeld(o, rel, p);
        }
      }
    }

    lemma SettledStays(o: Fs, o': Fs, rel: Path)
      requires AllSettled(o, rel) && Keeps(o, o')
      ensures AllSettled(o', rel)
    {
      hide Why, Pruned;
      forall p | rel <= p && !Pruned(excluded, p) ensures Settled(o', p) { assert Settled(o, p); }
    }

    /** Where something above changed, everything from there on has been copied. */
    ghost predicate CopiedFrom(o: Fs, rel: Path) {
      Why(rel) ==> Holds(o, rel)
    }

    lemma StaysCopied(o: Fs, o': Fs, rel: Path)
      requires CopiedFrom(o, rel) && Keeps(o, o')
      ensures CopiedFrom(o', rel)
    {
    }

    /** An unchanged entry below a change has been copied. */
    lemma CarriedFromAbove(o: Fs, rel: Path)
      requires Inputs() && Sound(o, []) && rel in env && !Pruned(excluded, rel) && !Changed(base, env, rel)
      requires CopiedFrom(o, Parent(rel))
      ensures Carried(o, rel) && CopiedFrom(o, rel)
    {
      if Why(rel) {
        WhyAbove(rel);
        ParentHeld(o, Parent(rel), rel);
      }
    }

    /** An unchanged non-directory needs no delta entry of its own. */
    lemma SettledLeaf(o: Fs, rel: Path)
      requires Inputs() && rel in base && rel in env && !env[rel].body.Directory?
      requires Sound(o, []) && !Pruned(excluded, rel) && !Changed(base, env, rel) && CopiedFrom(o, Parent(rel))
      ensures AllSettled(o, rel)
    {
      CarriedFromAbove(o, rel);
      forall p | rel <= p ensures Settled(o, p) {
        if p != rel { NothingBelowLeaf(rel, p); }
      }
    }

    lemma SettledDirectory(o: Fs, rel: Path)
      requires Inputs() && rel in base && rel in env && !IsSocket(env[rel])
      requires forall p | rel < p && !Pruned(excluded, p) :: Settled(o, p)
      requires rel in o || (!Changed(base, env, rel) && Carried(o, rel))
      ensures AllSettled(o, rel)
    {
      forall p | rel <= p && !Pruned(excluded, p) ensures Settled(o, p) {
        if p != rel { assert rel < p; }
      }
    }

    method CopyChanged(rel: Path) returns (err: Errno)
      requires Inputs() && rel in env && !Pruned(excluded, rel) && Sound(out, []) && Changed(base, env, rel)
      modifies this`out
      ensures err == Ok && Sound(out, []) && Diffs(old(out), out, rel) && Holds(out, rel) && ParentIsDirectory(out, rel)
      ensures forall p | p in out && p !in old(out) :: p in env
    {
      EnvParents(rel);
      ExactIsOpen(out, rel);
      WhyHere(rel);
      err := CopyEntry(rel);
      CopyIsExact(old(out), out, rel);
    }

    /** A path present in both trees, by type. */
    method DiffEntry(rel: Path) returns (err: Errno)
      requires Inputs() && rel in base && rel in env && !Pruned(excluded, rel)
      requires Sound(out, []) && forall p | p in out && rel < p :: p in env
      requires CopiedFrom(out, Parent(rel))
      modifies this`out
      ensures err == Ok && Sound(out, []) && Diffs(old(out), out, rel) && AllSettled(out, rel)
      decreases StrictlyBelow(base, rel) + StrictlyBelow(env, rel), 1
    {
      hide Sound, Why, Pruned, Holds, AllSettled, CopiedFrom;
      var b, e := base[rel], env[rel];
      if e.body.Directory? && SameType(b, e) {
        err := DiffDirectory(rel);
      } else if !SameType(b, e) {
        err := CopyChanged(rel);
        SettledByCopy(out, rel);
      } else if e.body.Symlink? {
        if b.body.target == e.body.target && SameOwner(b, e) {
          SettledLeaf(out, rel);
          return Ok;
        }
        err := CopyChanged(rel);
        SettledByCopy(out, rel);
      } else if e.body.Regular? {
        if |b.body.content| == |e.body.content| && SameMeta(b, e) {
          var same := SameContent(b.body.content, e.body.content);
          if same {
            SettledLeaf(out, rel);
            return Ok;
          }
        }
        err := CopyChanged(rel);
        SettledByCopy(out, rel);
      } else {
        if SameMeta(b, e) && b.body.rdev == e.body.rdev {
          SettledLeaf(out, rel);
          return Ok;
        }
        err := CopyChanged(rel);
        SettledByCopy(out, rel);
      }
    }

    /** The directory case: the directory itself only when its attributes changed, then what is in it. */
    method DiffDirectory(rel: Path) returns (err: Errno)
      requires Inputs() && rel in base && rel in env && !Pruned(excluded, rel)
      requires base[rel].body.Directory? && env[rel].body.Directory?
      requires Sound(out, []) && forall p | p in out && rel < p :: p in env
      requires CopiedFrom(out, Parent(rel))
      modifies this`out
      ensures err == Ok && Sound(out, []) && Diffs(old(out), out, rel) && AllSettled(out, rel)
      decreases StrictlyBelow(base, rel) + StrictlyBelow(env, rel), 1, 0
    {
      hide Sound, Why, Pruned, AllSettled;
      var b, e := base[rel], env[rel];
      if !SameMeta(b, e) {
        err := CopyChanged(rel);
        if err != Ok { return; }
        assert CopiedFrom(out, rel);
      } else {
        CarriedFromAbove(out, rel);
      }
      ghost var copied := out;
      err := DiffDir(rel);
      SettledDirectory(out, rel);
    }

    ghost predicate IsDirectoryOrRoot(fs: Fs, rel: Path) {
      rel == [] || (rel in fs && fs[rel].body.Directory?)
    }

    /** Children `todo` of `rel` are still to be visited. */
    ghost predicate Visiting(o: Fs, o': Fs, rel: Path, todo: set<Name>) {
      && Sound(o', []) && Diffs(o, o', rel)
      && (forall p | p in o' && rel < p && p[|rel|] in todo :: p in env)
      && (forall n | n !in todo :: AllSettled(o', rel + [n]))
    }

    lemma StartVisiting(o: Fs, rel: Path, todo: set<Name>)
      requires Inputs() && Sound(o, []) && forall p | p in o && rel < p :: p in env
      requires todo == ChildNames(base, rel) + ChildNames(env, rel)
      ensures Visiting(o, o, rel, todo)
    {
      forall n | n !in todo ensures AllSettled(o, rel + [n]) {
        ChildInNames(base, rel, n);
        ChildInNames(env, rel, n);
        forall p | rel + [n] <= p ensures Settled(o, p) {
          Absent(base, rel + [n], p);
          Absent(env, rel + [n], p);
        }
      }
    }

    lemma KeepVisiting(o: Fs, o': Fs, o'': Fs, rel: Path, todo: set<Name>, name: Name)
      requires name in todo && Visiting(o, o', rel, todo) && Sound(o'', []) && Diffs(o', o'', rel + [name])
      requires AllSettled(o'', rel + [name])
      ensures Visiting(o, o'', rel, todo - {name})
    {
      var child := rel + [name];
      assert child[|rel|] == name;
      forall n | n !in todo - {name} ensures AllSettled(o'', rel + [n]) {
        if n != name { SettledStays(o', o'', rel + [n]); }
      }
      forall p | p in o'' && p !in o ensures rel <= p || (p < rel && p in env) {
        if p !in o' && p < child && p != rel { assert p < rel; }
      }
    }

    lemma DoneVisiting(o: Fs, o': Fs, rel: Path)
      requires Visiting(o, o', rel, {})
      ensures forall p | rel < p && !Pruned(excluded, p) :: Settled(o', p)
    {
      forall p | rel < p && !Pruned(excluded, p) ensures Settled(o', p) {
        TowardsBelow(rel, p);
        assert AllSettled(o', rel + [p[|rel|]]);
      }
    }

    /** A directory present in both trees.  The children are taken in any order. */
    method DiffDir(rel: Path) returns (err: Errno)
      requires Inputs() && IsDirectoryOrRoot(base, rel) && IsDirectoryOrRoot(env, rel) && !Pruned(excluded, rel)
      requires Sound(out, []) && (forall p | p in out && rel < p :: p in env) && CopiedFrom(out, rel)
      modifies this`out
      ensures err == Ok && Sound(out, []) && Diffs(old(out), out, rel)
      ensures forall p | rel < p && !Pruned(excluded, p) :: Settled(out, p)
      decreases StrictlyBelow(base, rel) + StrictlyBelow(env, rel), 0
    {
      var todo := ChildNames(base, rel) + ChildNames(env, rel);
      StartVisiting(out, rel, todo);
      while todo != {}
        invariant Visiting(old(out), out, rel, todo)
        invariant todo <= ChildNames(base, rel) + ChildNames(env, rel)
      {
        var name :| name in todo;
        ghost var before, todo0 := out, todo;
        todo := todo - {name};
        var child := rel + [name];
        ChildInNames(base, rel, name);
        ChildInNames(env, rel, name);
        PrunedChild(excluded, rel, name);
        if child in excluded {
          PrunedAway(out, child);
        } else {
          StaysCopied(old(out), out, rel);
          err := VisitChild(rel, name);
          if err != Ok { return; }
        }
        KeepVisiting(old(out), before, out, rel, todo0, name);
      }
      DoneVisiting(old(out), out, rel);
      return Ok;
    }

    /** The switch of diffDir: deleted, new, or present on both sides. */
    method VisitChild(rel: Path, name: Name) returns (err: Errno)
      requires Inputs() && IsDirectoryOrRoot(env, rel) && !Pruned(excluded, rel + [name])
      requires rel + [name] in base || rel + [name] in env
      requires Sound(out, []) && forall p | p in out && rel + [name] <= p :: p in env
      requires CopiedFrom(out, rel)
      modifies this`out
      ensures err == Ok && Sound(out, []) && Diffs(old(out), out, rel + [name]) && AllSettled(out, rel + [name])
      decreases StrictlyBelow(base, rel) + StrictlyBelow(env, rel), 0, 0
    {
      var child := rel + [name];
      assert Parent(child) == rel;
      if child in base && child !in env {
        err := WriteWhiteout(child);
        SettledByWhiteout(out, child);
      } else if child !in base {
        err := CopyChanged(child);
        SettledByCopy(out, child);
      } else {
        BelowChildSmaller(base, rel, name);
        BelowChildSmaller(env, rel, name);
        assert child in StrictlyBelow(base, rel) + StrictlyBelow(env, rel)
            && child !in StrictlyBelow(base, child) + StrictlyBelow(env, child);
        err := DiffEntry(child);
      }
    }

    lemma SettledByWhiteout(o: Fs, rel: Path)
      requires Inputs() && rel != [] && rel !in env && rel in o
      ensures AllSettled(o, rel)
    {
      forall p | rel <= p && !Pruned(excluded, p) ensures Settled(o, p) {
        if p != rel {
          Absent(env, rel, p);
          if |p| == |rel| + 1 { assert Parent(p) == rel; } else { Absent(env, rel, Parent(p)); }
        }
      }
    }
  }

  lemma Absent(fs: Fs, rel: Path, p: Path)
    requires WellFormed(fs) && rel != [] && rel !in fs && rel <= p
    ensures p !in fs
  {
    assert p[..|rel|] == rel;
    if p in fs && p != rel { AncestorsAreDirectories(fs, p, |rel|); }
  }

  lemma SocketAbove(env: Fs, p: Path)
    requires WellFormed(env) && |p| > 1 && AtOrBelowSocket(env, p)
    ensures AtOrBelowSocket(env, Parent(p)) <==> !(p in env && IsSocket(env[p]))
    ensures AtOrBelowSocket(env, Parent(p)) ==> !HasParent(env, p) && p !in env
  {
    var k :| 0 < k <= |p| && p[..k] in env && IsSocket(env[p[..k]]);
    var q := Parent(p);
    assert p[..|p|] == p;
    if k < |p| { assert q[..k] == p[..k]; }
    if AtOrBelowSocket(env, q) {
      var j :| 0 < j <= |q| && q[..j] in env && IsSocket(env[q[..j]]);
      assert q[..j] == p[..j] && q[..|q|] == q;
      if p in env { AncestorsAreDirectories(env, p, j); }
      else if q in env && j < |q| { AncestorsAreDirectories(env, q, j); }
    }
  }

  /** A settled delta leaves base showing through at and below env's sockets ... */
  lemma {:induction false} SocketsShowBase(d: TreeDiffer, o: Fs, p: Path)
    requires d.Inputs() && d.Sound(o, []) && d.AllSettled(o, []) && !Pruned(d.excluded, p)
    requires AtOrBelowSocket(d.env, p)
    ensures Merged(o, d.base, p) == if Shows(d.base, p) then Some(d.base[p]) else None
    decreases |p|, 0
  {
    assert p !in o by {
      if p in o {
        assert d.EntryOk(p, o[p], []);
        var k :| 0 < k <= |p| && p[..k] in d.env && IsSocket(d.env[p[..k]]);
        assert p[..|p|] == p;
        if k < |p| { AncestorsAreDirectories(o, p, k); }
      }
    }
    if |p| > 1 {
      var q := Parent(p);
      if Pruned(d.excluded, q) { PrunedBelow(d.excluded, q, p); }
      SocketAbove(d.env, p);
      if AtOrBelowSocket(d.env, q) {
        SocketsShowBase(d, o, q);
      } else {
        SettledDeltaShowsEnv(d, o, q);
      }
    }
  }

  /** ... and shows env at every path it can express, and at no other. */
  lemma {:induction false} SettledDeltaShowsEnv(d: TreeDiffer, o: Fs, p: Path)
    requires d.Inputs() && d.Sound(o, []) && d.AllSettled(o, []) && p != [] && !Pruned(d.excluded, p)
    ensures ViewOf(Merged(o, d.base, p)) == ViewAt(d.env, p) <==> Expressible(d.base, d.env, p)
    decreases |p|, 1
  {
    assert d.Settled(o, p);
    if AtOrBelowSocket(d.env, p) {
      SocketsShowBase(d, o, p);
      var k :| 0 < k <= |p| && p[..k] in d.env && IsSocket(d.env[p[..k]]);
      assert p[..|p|] == p;
      if p in d.env && k < |p| { AncestorsAreDirectories(d.env, p, k); }
      return;
    }
    assert p[..|p|] == p;
    if p in o { assert d.EntryOk(p, o[p], []); }
    if |p| > 1 {
      var q := Parent(p);
      if Pruned(d.excluded, q) { PrunedBelow(d.excluded, q, p); }
      assert !AtOrBelowSocket(d.env, q) by { assert forall k | 0 < k <= |q| :: q[..k] == p[..k]; }
      SettledDeltaShowsEnv(d, o, q);
      if q in o { assert d.EntryOk(q, o[q], []); }
    }
  }

  /** TreeDiff succeeds on every pair of trees, and stacking its output over the base reproduces
      env at a path below the root that is not excluded exactly when that path is expressible.  The
      output holds exactly what is needed. */
  method TreeDiff(base: Fs, env: Fs, excluded: set<Path>, initial: Meta) returns (err: Errno, out: Fs)
    requires WellFormed(base) && WellFormed(env)
    ensures err == Ok && WellFormed(out)
    ensures forall p | p != [] && !Pruned(excluded, p) ::
              ViewOf(Merged(out, base, p)) == ViewAt(env, p) <==> Expressible(base, env, p)
    ensures forall p | !Pruned(excluded, p) && AtOrBelowSocket(env, p) ::
              Merged(out, base, p) == if Shows(base, p) then Some(base[p]) else None
    ensures forall p :: p in out <==> Needed(base, env, excluded, p)
    ensures base == env ==> out == map[]
    ensures forall p | p in out && p !in env :: p in base && IsWhiteout(out[p])
    ensures forall p | p in out && p in env :: View(out[p]) == View(env[p])
  {
    var d := new TreeDiffer(base, env, excluded, initial);
    assert !Pruned(excluded, []);
    err := d.DiffDir([]);
    out := d.out;
    assert d.AllSettled(out, []) by {
      forall p: Path | [] <= p && !Pruned(excluded, p) ensures d.Settled(out, p) {
        if p != [] { assert [] < p; }
      }
    }
    forall p: Path | p != [] && !Pruned(excluded, p)
      ensures ViewOf(Merged(out, base, p)) == ViewAt(env, p) <==> Expressible(base, env, p)
    {
      SettledDeltaShowsEnv(d, out, p);
    }
    forall p | !Pruned(excluded, p) && AtOrBelowSocket(env, p)
      ensures Merged(out, base, p) == if Shows(base, p) then Some(base[p]) else None
    {
      SocketsShowBase(d, out, p);
    }
    forall p | p in out ensures d.EntryOk(p, out[p], []) { }
    forall p ensures p in out <==> Needed(base, env, excluded, p) { ExactlyNeeded(d, out, p); }
    if base == env {
      forall p ensures p !in out { NothingNeeded(env, excluded, p); }
    }
  }

  /** A sound and settled delta holds exactly the paths it has to. */
  lemma ExactlyNeeded(d: TreeDiffer, o: Fs, p: Path)
    requires d.Inputs() && d.Sound(o, []) && d.AllSettled(o, [])
    ensures p in o <==> Needed(d.base, d.env, d.excluded, p)
  {
    if p in o {
      assert d.EntryOk(p, o[p], []);
    } else if Needed(d.base, d.env, d.excluded, p) {
      assert d.Settled(o, p);
      var q :| p < q && !Pruned(d.excluded, q) && (Changed(d.base, d.env, q) || Gone(d.base, d.env, q));
      assert d.Settled(o, q);
      if Changed(d.base, d.env, q) { d.WhyHere(q); }
      LeadsInto(o, p, q);
    }
  }

  /** The directories above an entry, or above the directory it would be in, are there. */
  lemma LeadsInto(o: Fs, p: Path, q: Path)
    requires WellFormed(o) && p != [] && p < q && (q in o || ParentIsDirectory(o, q))
    ensures p in o
  {
    assert q[..|p|] == p;
    if q in o {
      AncestorsAreDirectories(o, q, |p|);
    } else if |p| < |q| - 1 {
      assert Parent(q)[..|p|] == p;
      AncestorsAreDirectories(o, Parent(q), |p|);
    }
  }

  /** A file that env turned into a socket: the delta TreeDiff makes leaves the file visible. */
  method SocketIsLost(meta: Meta, initial: Meta) returns (base: Fs, env: Fs, out: Fs)
    ensures var p := [[115]];
            && base == map[p := Entry(Regular([]), meta)] && env == map[p := Entry(Special(Socket, 0), meta)]
            && Merged(out, base, p) == Some(base[p]) && ViewOf(Merged(out, base, p)) != ViewAt(env, p)
  {
    var p: Path := [[115]];
    base, env := map[p := Entry(Regular([]), meta)], map[p := Entry(Special(Socket, 0), meta)];
    var err;
    err, out := TreeDiff(base, env, {}, initial);
    assert p[..1] == p && !Pruned({}, p) && AtOrBelowSocket(env, p);
  }
}
