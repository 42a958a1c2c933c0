/**
 Slices of concatenations, stated once so that byte-level proofs stay small.
 */
module Seqs {
  ghost predicate Distinct<T>(s: seq<T>) {
    forall i, j | 0 <= i < j < |s| :: s[i] != s[j]
  }

  lemma {:induction false} DistinctFits<T>(s: seq<T>, all: set<T>)
    requires Distinct(s) && forall x | x in s :: x in all
    ensures |s| <= |all|
  {
    if s != [] {
      var last := s[|s| - 1];
      assert last !in s[..|s| - 1];
      DistinctFits(s[..|s| - 1], all - {last});
    }
  }

  lemma SliceOfSlice<T>(s: seq<T>, a: nat, b: nat, c: nat, d: nat)
    requires a <= b <= |s| && c <= d <= b - a
    ensures s[a..b][c..d] == s[a + c..a + d]
  {
    var x := s[a..b];
    assert forall i | c <= i < d :: x[i] == s[a + i];
  }

  lemma SliceInPrefix<T>(p: seq<T>, s: seq<T>, i: nat, j: nat)
    requires p <= s && i <= j <= |p|
    ensures s[i..j] == p[i..j]
  {
  }

  lemma SliceInSuffix<T>(x: seq<T>, y: seq<T>, i: nat, j: nat)
    requires i <= j <= |y|
    ensures (x + y)[|x| + i..|x| + j] == y[i..j]
  {
  }

  lemma Middle<T>(x: seq<T>, y: seq<T>, z: seq<T>)
    ensures (x + y + z)[|x|..|x| + |y|] == y
  {
  }

  lemma Assoc<T>(x: seq<T>, y: seq<T>, z: seq<T>)
    ensures x + y + z == x + (y + z)
  {
  }

  /** Concatenation of all parts. */
  function Flat<T>(ss: seq<seq<T>>): seq<T> {
    if ss == [] then [] else Flat(ss[..|ss| - 1]) + ss[|ss| - 1]
  }

  lemma FlatNothing<T>()
    ensures Flat<T>([]) == []
  {
  }

  lemma FlatSnoc<T>(ss: seq<seq<T>>, x: seq<T>)
    ensures Flat(ss + [x]) == Flat(ss) + x
  {
    assert (ss + [x])[..|ss|] == ss;
  }

  /** Part `i` sits right after the parts before it. */
  lemma {:induction false} FlatAt<T>(ss: seq<seq<T>>, i: nat)
    requires i < |ss|
    ensures var o := |Flat(ss[..i])|; o + |ss[i]| <= |Flat(ss)| && Flat(ss)[o..o + |ss[i]|] == ss[i]
  {
    var front := ss[..|ss| - 1];
    if i < |ss| - 1 {
      FlatAt(front, i);
      assert front[..i] == ss[..i];
      var o := |Flat(ss[..i])|;
      SliceInPrefix(Flat(front), Flat(ss), o, o + |ss[i]|);
    }
  }
}
