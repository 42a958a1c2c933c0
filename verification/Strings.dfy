/**
 strings.Split of Go: a string cut at every occurrence of a separator byte.
 */
module Strings {
  import opened Basics

  function Split(s: Bytes, sep: byte): (r: seq<Bytes>)
    ensures |r| > 0 && forall c | c in r :: sep !in c
  {
    if s == [] then [[]]
    else if s[0] == sep then [[]] + Split(s[1..], sep)
    else var r := Split(s[1..], sep); [[s[0]] + r[0]] + r[1..]
  }

  /** A separator ends the parts before it and starts the parts after it. */
  lemma {:induction false} SplitAt(a: Bytes, b: Bytes, sep: byte)
    ensures Split(a + [sep] + b, sep) == Split(a, sep) + Split(b, sep)
  {
    var s := a + [sep] + b;
    if a == [] {
      assert s[1..] == b;
    } else {
      SplitAt(a[1..], b, sep);
      assert s[0] == a[0] && s[1..] == a[1..] + [sep] + b;
      FirstOf(a[0], Split(a[1..], sep), Split(b, sep));
    }
  }

  lemma FirstOf(c: byte, r: seq<Bytes>, t: seq<Bytes>)
    requires r != []
    ensures [[c] + (r + t)[0]] + (r + t)[1..] == [[c] + r[0]] + r[1..] + t
    ensures [[]] + (r + t) == [[]] + r + t
  {
  }

  lemma {:induction false} SplitOne(a: Bytes, sep: byte)
    ensures |Split(a, sep)| == 1 <==> sep !in a
    ensures sep !in a ==> Split(a, sep) == [a]
  {
    if a != [] {
      SplitOne(a[1..], sep);
      assert a == [a[0]] + a[1..];
    }
  }
}
