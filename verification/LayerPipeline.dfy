/**
 Model of layerPipeline in internal/oci/unpack.go: fetches run ahead and finish in any order, bodies
 are handed out in index order.
 */
module LayerPipeline {
  import opened Basics

  datatype Next<R> = Layer(result: R) | NoMore | Waiting

  class Pipeline<R> {
    const n: nat
    const depth: nat
    /** What fetching layer `i` yields, a body or an error. */
    const get: nat -> R
    var slots: seq<Option<R>>
    var cur: nat
    var started: nat
    /** Every launch, in order. */
    var launches: seq<nat>
    /** Fetches that have delivered. */
    var finished: set<nat>
    /** Everything next has returned. */
    ghost var returned: seq<R>

    ghost predicate Valid()
      reads this
    {
      && depth >= 1 && cur <= started == Min(n, cur + depth) && |slots| == n
      && launches == seq(started, (i: nat) => i)
      && (forall i | i in finished :: i < started)
      && (forall i | 0 <= i < n :: slots[i] == if i in finished && i >= cur then Some(get(i)) else None)
      && (forall i | 0 <= i < cur :: i in finished)
      && returned == seq(cur, (i: nat) => get(i))
    }

    constructor (n: nat, depth: int, get: nat -> R)
      ensures Valid() && this.n == n && this.get == get && cur == 0 && this.depth == (if depth < 1 then 1 else depth)
    {
      var d: nat := if depth < 1 then 1 else depth;
      this.n, this.depth, this.get := n, d, get;
      slots := seq(n, _ => None);
      cur, finished, returned := 0, {}, [];
      var start := if d > n then n else d;
      var log: seq<nat> := [];
      for i := 0 to start
        invariant log == seq(i, (k: nat) => k)
      {
        log := log + [i];
      }
      launches, started := log, start;
    }

    /** A fetch goroutine delivers; each launched fetch does so once. */
    method Complete(i: nat)
      requires Valid()
      modifies this`slots, this`finished
      ensures Valid()
      ensures finished == if i < started then old(finished) + {i} else old(finished)
    {
      if i < started && i !in finished {
        slots := slots[i := Some(get(i))];
        finished := finished + {i};
      }
    }

    /** Waits for the slot of the next index while fetches finish in the order `done`. */
    method Await(done: seq<nat>) returns (rest: seq<nat>)
      requires Valid() && cur < n
      modifies this`slots, this`finished
      ensures Valid() && |rest| <= |done| && rest == done[|done| - |rest|..]
      ensures cur !in finished ==> rest == [] && cur !in done
      ensures cur in old(finished) ==> rest == done
      ensures old(finished) <= finished && forall k | 0 <= k < |done| - |rest| && done[k] < started ::
              done[k] in finished
      ensures forall k | 0 <= k < |done| - |rest| - 1 :: done[k] != cur
    {
      rest := done;
      while rest != [] && cur !in finished
        invariant Valid() && |rest| <= |done| && rest == done[|done| - |rest|..] && old(finished) <= finished
        invariant cur in old(finished) ==> rest == done
        invariant forall k | 0 <= k < |done| - |rest| && done[k] < started :: done[k] in finished
        invariant forall k | 0 <= k < |done| - |rest| - 1 :: done[k] != cur
        invariant cur !in finished ==> forall k | 0 <= k < |done| - |rest| :: done[k] != cur
        decreases |rest|
      {
        hide Valid;
        Complete(rest[0]);
        rest := rest[1..];
      }
    }

    /** next, while fetches finish in the order `done`: the result for the next index, whatever
        finished first.  The slot it waits on is always launched. */
    method Take(done: seq<nat>) returns (r: Next<R>, rest: seq<nat>)
      requires Valid()
      modifies this
      ensures Valid() && |rest| <= |done| && rest == done[|done| - |rest|..]
      ensures r.NoMore? <==> old(cur) == n
      ensures r.Waiting? ==> rest == [] && old(cur) !in finished && old(cur) !in done
      ensures old(cur) in old(finished) ==> rest == done
      ensures old(finished) <= finished && forall k | 0 <= k < |done| - |rest| && done[k] < old(started) ::
              done[k] in finished
      ensures forall k | 0 <= k < |done| - |rest| - 1 :: done[k] != old(cur)
      ensures r.Layer? ==> r.result == get(old(cur)) && cur == old(cur) + 1 && returned == old(returned) + [r.result]
      ensures !r.Layer? ==> cur == old(cur) && returned == old(returned)
      ensures old(launches) <= launches && (old(cur) < n ==> old(cur) in old(launches))
    {
      hide Valid;
      rest := done;
      Launched();
      if cur >= n { return NoMore, rest; }
      rest := Await(done);
      if cur !in finished { return Waiting, rest; }
      var f := HandOut();
      r := Layer(f);
    }

    lemma Launched()
      requires Valid()
      ensures cur <= n && (cur < n ==> cur in launches)
    {
      if cur < n { assert launches[cur] == cur; }
    }

    /** The result leaves its slot, and one more fetch starts. */
    method HandOut() returns (f: R)
      requires Valid() && cur < n && cur in finished
      modifies this`slots, this`cur, this`returned, this`launches, this`started
      ensures Valid() && f == get(old(cur)) && cur == old(cur) + 1 && returned == old(returned) + [f]
      ensures old(launches) <= launches
    {
      f := slots[cur].value;
      slots := slots[cur := None];
      cur, returned := cur + 1, returned + [f];
      if started < n {
        launches := launches + [started];
        started := started + 1;
      }
    }
  }
}
