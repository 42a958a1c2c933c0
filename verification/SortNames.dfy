/**
 sort.Strings as this project needs it: the names of a map, once each, in byte-wise order.
 */
module SortNames {
  import opened Basics
  import opened Codec

  ghost predicate Sorted(s: seq<Name>) {
    forall i, j | 0 <= i < j < |s| :: Less(s[i], s[j])
  }

  function Insert(s: seq<Name>, n: Name): seq<Name> {
    if s == [] || Less(n, s[0]) then [n] + s else [s[0]] + Insert(s[1..], n)
  }

  lemma {:induction false} InsertSorted(s: seq<Name>, n: Name)
    requires Sorted(s) && n !in s
    ensures Sorted(Insert(s, n))
    ensures forall x :: x in Insert(s, n) <==> x == n || x in s
  {
    if s == [] {
    } else if Less(n, s[0]) {
      forall j | 0 <= j < |s| ensures Less(n, s[j]) {
        if j > 0 { LessTransitive(n, s[0], s[j]); }
      }
    } else {
      LessTotal(n, s[0]);
      InsertSorted(s[1..], n);
      var t := Insert(s[1..], n);
      forall j | 0 <= j < |t| ensures Less(s[0], t[j]) {
        assert t[j] in t;
        if t[j] in s[1..] { var k :| 0 <= k < |s| - 1 && s[1..][k] == t[j]; assert Less(s[0], s[k + 1]); }
      }
      assert forall x :: x in s <==> x == s[0] || x in s[1..];
    }
  }

  method SortSet(names: set<Name>) returns (s: seq<Name>)
    ensures s == SortedNames(names)
    ensures Sorted(s) && forall x :: x in s <==> x in names
  {
    s := [];
    var todo := names;
    while todo != {}
      invariant todo <= names && Sorted(s)
      invariant forall x :: x in s <==> x in names && x !in todo
    {
      var n :| n in todo;
      InsertSorted(s, n);
      s := Insert(s, n);
      todo := todo - {n};
    }
    SortedUnique(s, SortedNames(names));
  }

  lemma {:induction false} SortExists(names: set<Name>)
    ensures exists s: seq<Name> :: Sorted(s) && forall x :: x in s <==> x in names
    decreases |names|
  {
    if names == {} {
      assert Sorted([]) && forall x :: x in [] <==> x in names;
    } else {
      var n :| n in names;
      SortExists(names - {n});
      var s: seq<Name> :| Sorted(s) && forall x :: x in s <==> x in names - {n};
      InsertSorted(s, n);
      assert forall x :: x in Insert(s, n) <==> x in names;
    }
  }

  /** The names in order. */
  ghost function SortedNames(names: set<Name>): (s: seq<Name>)
    ensures Sorted(s) && forall x :: x in s <==> x in names
  {
    SortExists(names);
    var s: seq<Name> :| Sorted(s) && forall x :: x in s <==> x in names;
    s
  }

  /** The order is unique, so the traversals built on it are deterministic. */
  lemma {:induction false} SortedUnique(a: seq<Name>, b: seq<Name>)
    requires Sorted(a) && Sorted(b) && forall x :: x in a <==> x in b
    ensures a == b
    decreases |a|
  {
    assert (a == [] || a[0] in a) && (b == [] || b[0] in b);
    if a != [] {
      assert a[0] in b;
      assert b != [] && b[0] in a;
      FirstIsLeast(a, b[0]);
      FirstIsLeast(b, a[0]);
      LessTotal(a[0], b[0]);
      assert a[0] == b[0];
      forall x ensures x in a[1..] <==> x in b[1..] {
        TailDrops(a, x);
        TailDrops(b, x);
      }
      SortedUnique(a[1..], b[1..]);
      assert a == [a[0]] + a[1..] && b == [b[0]] + b[1..];
    }
  }

  lemma FirstIsLeast(s: seq<Name>, x: Name)
    requires Sorted(s) && x in s
    ensures x == s[0] || Less(s[0], x)
  {
  }

  lemma TailDrops(s: seq<Name>, x: Name)
    requires Sorted(s) && s != []
    ensures x in s[1..] <==> x in s && x != s[0]
  {
    LessTotal(s[0], s[0]);
    if x in s && x != s[0] { var k :| 0 <= k < |s| && s[k] == x; assert s[1..][k - 1] == x; }
    if x in s[1..] { var k :| 0 <= k < |s| - 1 && s[1..][k] == x; assert Less(s[0], s[k + 1]); }
  }
}
