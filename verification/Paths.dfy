/**
 Slash paths: what Go's path.Clean("/" + s) leaves of a name, split into its components
 (splitClean of internal/oci/unpack.go).
 */
module Paths {
  import opened Basics
  import opened Strings

  /** A component that a cleaned path can have. */
  predicate Plain(n: Name) {
    n != [] && n != DOT && n != DOTDOT && SLASH !in n
  }

  ghost predicate PlainParts(p: Path) {
    forall c | c in p :: Plain(c)
  }

  /** One component on top of a rooted path: ".." goes up, but never above the root. */
  function Step(acc: Path, c: Bytes): Path {
    if c == [] || c == DOT then acc
    else if c == DOTDOT then (if acc == [] then [] else acc[..|acc| - 1])
    else acc + [c]
  }

  function Steps(acc: Path, cs: seq<Bytes>): Path
    decreases |cs|
  {
    if cs == [] then acc else Steps(Step(acc, cs[0]), cs[1..])
  }

  function SplitClean(s: Bytes): Path {
    Steps([], Split(s, SLASH))
  }

  lemma {:induction false} StepsPlain(acc: Path, cs: seq<Bytes>)
    requires PlainParts(acc) && forall c | c in cs :: SLASH !in c
    ensures PlainParts(Steps(acc, cs))
    decreases |cs|
  {
    if cs != [] { StepsPlain(Step(acc, cs[0]), cs[1..]); }
  }

  /** No "", ".", ".." or slash survives cleaning. */
  lemma SplitCleanPlain(s: Bytes)
    ensures PlainParts(SplitClean(s))
  {
    StepsPlain([], Split(s, SLASH));
  }

  function Join(p: Path): Bytes {
    if p == [] then [] else if |p| == 1 then p[0] else p[0] + [SLASH] + Join(p[1..])
  }

  lemma {:induction false} SplitJoin(p: Path)
    requires PlainParts(p) && p != []
    ensures Split(Join(p), SLASH) == p
  {
    assert p[0] in p;
    SplitOne(p[0], SLASH);
    if |p| > 1 {
      assert forall c | c in p[1..] :: c in p;
      SplitJoin(p[1..]);
      SplitAt(p[0], Join(p[1..]), SLASH);
    }
  }

  lemma {:induction false} StepsAppend(acc: Path, p: Path)
    requires PlainParts(p)
    ensures Steps(acc, p) == acc + p
    decreases |p|
  {
    if p != [] {
      assert p[0] in p && forall c | c in p[1..] :: c in p;
      StepsAppend(acc + [p[0]], p[1..]);
    }
  }

  lemma {:induction false} StepsConcat(acc: Path, cs: seq<Bytes>, ds: seq<Bytes>)
    ensures Steps(acc, cs + ds) == Steps(Steps(acc, cs), ds)
    decreases |cs|
  {
    if cs == [] {
      assert cs + ds == ds;
    } else {
      assert (cs + ds)[1..] == cs[1..] + ds;
      StepsConcat(Step(acc, cs[0]), cs[1..], ds);
    }
  }

  /** Cleaning goes on where the part before a slash left off. */
  lemma CleanAfter(a: Bytes, b: Bytes)
    ensures SplitClean(a + [SLASH] + b) == Steps(SplitClean(a), Split(b, SLASH))
  {
    SplitAt(a, b, SLASH);
    StepsConcat([], Split(a, SLASH), Split(b, SLASH));
  }

  lemma OneStep(acc: Path, c: Bytes)
    requires SLASH !in c
    ensures Steps(acc, Split(c, SLASH)) == Step(acc, c)
  {
    SplitOne(c, SLASH);
    assert Steps(acc, [c]) == Steps(Step(acc, c), [c][1..]);
  }

  /** The rules of path.Clean: a double slash, a trailing one and "/./" say nothing, ".." takes back
      the component before it, and at the root there is nothing to take back. */
  lemma CleanRules(a: Bytes, b: Bytes, c: Name)
    requires Plain(c)
    ensures SplitClean(a + [SLASH]) == SplitClean(a) && SplitClean([SLASH] + b) == SplitClean(b)
    ensures SplitClean(a + [SLASH] + ([SLASH] + b)) == SplitClean(a + [SLASH] + b)
    ensures SplitClean(a + [SLASH] + DOT) == SplitClean(a) && SplitClean(DOT + [SLASH] + b) == SplitClean(b)
    ensures SplitClean(DOTDOT + [SLASH] + b) == SplitClean(b)
    ensures SplitClean(a + [SLASH] + c) == SplitClean(a) + [c]
    ensures SplitClean(a + [SLASH] + c + [SLASH] + DOTDOT) == SplitClean(a)
  {
    hide SplitClean;
    var x := SplitClean(a);
    CleanAfter(a, []);
    OneStep(x, []);
    assert a + [SLASH] + [] == a + [SLASH];
    CleanAfter([], b);
    OneStep([], []);
    assert [] + [SLASH] + b == [SLASH] + b;
    CleanOne([]);
    CleanOne(DOT);
    CleanOne(DOTDOT);
    CleanIs(b);
    CleanAfter(a + [SLASH], b);
    CleanAfter(a, b);
    assert a + [SLASH] + ([SLASH] + b) == a + [SLASH] + [SLASH] + b;
    CleanAfter(a, DOT);
    OneStep(x, DOT);
    CleanAfter(DOT, b);
    CleanAfter(DOTDOT, b);
    CleanAfter(a, c);
    OneStep(x, c);
    CleanAfter(a + [SLASH] + c, DOTDOT);
    OneStep(x + [c], DOTDOT);
  }

  lemma CleanIs(b: Bytes)
    ensures SplitClean(b) == Steps([], Split(b, SLASH))
  {
  }

  lemma CleanOne(c: Bytes)
    requires SLASH !in c
    ensures SplitClean(c) == Step([], c)
  {
    OneStep([], c);
  }

  /** Every path of plain components is what some name cleans to. */
  lemma CleanJoin(p: Path)
    requires PlainParts(p)
    ensures SplitClean(Join(p)) == p
  {
    if p == [] {
      var one := Split([], SLASH);
      assert one == [[]] && one[1..] == [];
      assert Steps([], one) == Steps(Step([], one[0]), one[1..]);
    } else {
      SplitJoin(p);
      StepsAppend([], p);
    }
  }
}
