/**
 Model of Client.Unpack in internal/oci/unpack.go: layers fetched ahead, applied strictly in order,
 and each verified once its body is closed.
 */
module Unpack {
  import opened Basics
  import opened LayerApply
  import opened VerifiedLayer
  import RR = ResumingReader
  import LP = LayerPipeline

  /** What the outside decides about one layer: the bytes the registry serves for it (None when the
      fetch fails), how the decoder reads them, and what the network does meanwhile. */
  datatype Weather = Weather(served: Option<Bytes>, demands: seq<Demand>, events: seq<RR.Event>)

  /** Decompression and tar parsing: the entries of a blob. */
  type Parser = Bytes -> seq<Header>

  /** The entries of the first `n` layers, one after the other. */
  ghost function Entries(ws: seq<Weather>, parse: Parser, n: nat): seq<Header>
    requires n <= |ws|
  {
    if n == 0 then [] else
    var body := ws[n - 1].served;
    Entries(ws, parse, n - 1) + if body.Some? then parse(body.value) else []
  }

  /** The bytes served for layer `i` are the ones its descriptor names. */
  ghost predicate Genuine(ws: seq<Weather>, layers: seq<Descriptor>, sha: Bytes -> Bytes, i: nat)
    requires i < |layers| == |ws|
  {
    ws[i].served.Some? && Matches(layers[i], sha, ws[i].served.value)
  }

  /** The blob store takes every file body of layer `i`. */
  ghost predicate Storable(ws: seq<Weather>, parse: Parser, skip: Bytes -> bool, i: nat)
    requires i < |ws|
  {
    ws[i].served.Some? ==> forall h | h in parse(ws[i].served.value) :: !RefusedBody(h, skip)
  }

  function Budget(attempts: int): nat {
    if attempts < 1 then RR.DEFAULT_ATTEMPTS else attempts
  }

  /** The fetch works, the decoder does not give up, and the network brings the body with no more
      interruptions than the reader has attempts. */
  ghost predicate Fair(w: Weather, attempts: int) {
    && w.served.Some? && Content(w.demands)
    && RR.Serves(w.served.value, w.events, 0, RR.Pump(0, [], false), 0, Budget(attempts))
  }

  /** One layer: fetched body to applied entries.  `read` tells whether the decoder was content and the
      network brought the whole body, or more than its declared size. */
  method UnpackLayer(fs: RootFs, want: Descriptor, body: Bytes, w: Weather, attempts: int, sha: Bytes -> Bytes,
                     parse: Parser, skip: Bytes -> bool, ghost earlier: seq<Header>) returns (ok: bool, read: bool)
    requires Valid(fs.nodes) && forall p :: Get(fs.nodes, p) == Shown(earlier, skip, p)
    modifies fs
    ensures Valid(fs.nodes)
    ensures ok <==> read && Matches(want, sha, body) && forall h | h in parse(body) :: !RefusedBody(h, skip)
    ensures ok ==> (forall p :: Get(fs.nodes, p) == Shown(earlier + parse(body), skip, p))
                   && AsTold(fs.nodes, earlier + parse(body), skip)
    ensures w.served == Some(body) && Fair(w, attempts) ==> read
  {
    hide *;
    FairIsSmooth(w, body, attempts);
    var reader := new RR.Reader(body, attempts);
    var v := new VerifyingReader(reader, want, sha);
    var stored := fs.ApplyAll(earlier, parse(body), skip);
    var closed, applied := ConsumeLayer(v, w.demands, w.events);
    read := applied && (v.eof || v.overLimit);
    ok := stored && closed;
  }

  lemma FairIsSmooth(w: Weather, body: Bytes, attempts: int)
    ensures Budget(attempts) == if attempts < 1 then RR.DEFAULT_ATTEMPTS else attempts
    ensures w.served == Some(body) && Fair(w, attempts) ==>
              && Content(w.demands)
              && RR.Smooth(RR.Snap(body, [RR.Pump(0, [], false)], Some(0), 0, [], false, RR.Fine, Budget(attempts)),
                  w.events)
  {
    hide RR.Serves;
  }

  // ---------- the order in which fetches finish ----------

  /** Every fetch finishes, and none before it is launched: that takes a layer `depth` places before it
      to be handed out. */
  ghost predicate InTime(done: seq<nat>, n: nat, depth: nat) {
    && (forall i | 0 <= i < n :: i in done)
    && (forall j | 0 <= j < |done| :: done[j] < n && Launchable(done, j, depth))
  }

  ghost predicate Launchable(done: seq<nat>, j: nat, depth: nat)
    requires j < |done|
  {
    forall i | 0 <= i && i + depth <= done[j] :: i in done[..j]
  }

  ghost predicate AllIn(done: seq<nat>, k: nat, finished: set<nat>)
    requires k <= |done|
  {
    forall j | 0 <= j < k :: done[j] in finished
  }

  /** The fetches reported while waiting for `cur` were all launched. */
  lemma StillAllIn(done: seq<nat>, n: nat, depth: nat, cur: nat, k: nat, m: nat, before: set<nat>, after: set<nat>)
    requires InTime(done, n, depth) && k <= m <= |done| && AllIn(done, k, before) && before <= after
    requires cur in before ==> m == k
    requires forall j | k <= j < m - 1 :: done[j] != cur
    requires forall j | k <= j < m && done[j] < n && done[j] < cur + depth :: done[j] in after
    ensures AllIn(done, m, after)
  {
    forall j | k <= j < m ensures done[j] in after {
      assert Launchable(done, j, depth);
      NotBefore(done, cur, k, j, before);
    }
  }

  lemma NotBefore(done: seq<nat>, cur: nat, k: nat, j: nat, finished: set<nat>)
    requires k <= j < |done| && AllIn(done, k, finished) && cur !in finished
    requires forall i | k <= i < j :: done[i] != cur
    ensures cur !in done[..j]
  {
  }

  /** next, with fetches that finish in time: it never waits in vain. */
  method Fetch<R>(pipe: LP.Pipeline<R>, done: seq<nat>, k: nat) returns (f: LP.Next<R>, m: nat)
    requires pipe.Valid() && pipe.cur < pipe.n && k <= |done|
    requires InTime(done, pipe.n, pipe.depth) ==> AllIn(done, k, pipe.finished)
    modifies pipe
    ensures pipe.Valid() && m <= |done| && f != LP.NoMore
    ensures f.Layer? ==> f.result == pipe.get(old(pipe.cur)) && pipe.cur == old(pipe.cur) + 1
    ensures InTime(done, pipe.n, pipe.depth) ==> f.Layer? && AllIn(done, m, pipe.finished)
  {
    hide InTime, AllIn;
    ghost var cur, before := pipe.cur, pipe.finished;
    var rest;
    f, rest := pipe.Take(done[k..]);
    m := |done| - |rest|;
    if InTime(done, pipe.n, pipe.depth) {
      StillAllIn(done, pipe.n, pipe.depth, cur, k, m, before, pipe.finished);
      Arrives(done, pipe.n, pipe.depth, cur, k, pipe.finished);
    }
  }

  lemma Arrives(done: seq<nat>, n: nat, depth: nat, cur: nat, k: nat, finished: set<nat>)
    requires InTime(done, n, depth) && cur < n && k <= |done| && AllIn(done, k, finished)
    ensures cur in finished || cur in done[k..]
  {
    assert cur in done;
    var j :| 0 <= j < |done| && done[j] == cur;
    assert j >= k ==> done[k..][j - k] == cur;
  }

  // ---------- the whole image ----------

  lemma StartsEmpty(nodes: Tree, ws: seq<Weather>, parse: Parser, skip: Bytes -> bool)
    requires nodes == map[[] := NEW_DIR]
    ensures forall p :: Get(nodes, p) == Shown(Entries(ws, parse, 0), skip, p)
    ensures AsTold(nodes, Entries(ws, parse, 0), skip)
  {
  }

  lemma LayerSettled(layers: seq<Descriptor>, ws: seq<Weather>, sha: Bytes -> Bytes, parse: Parser,
                     skip: Bytes -> bool, i: nat, ok: bool,
                     read: bool)
    requires i < |layers| == |ws| && ws[i].served.Some?
    requires var body := ws[i].served.value;
             ok <==> read && Matches(layers[i], sha, body) && forall h | h in parse(body) :: !RefusedBody(h, skip)
    ensures ok <==> read && Good(layers, ws, sha, parse, skip, i)
    ensures Entries(ws, parse, i + 1) == Entries(ws, parse, i) + parse(ws[i].served.value)
  {
  }

  datatype Outcome =
    | Done(root: RootFs)
    | NotFetched(at: nat)   // the fetch failed, or has not finished
    | Interrupted(at: nat)  // the decoder or the network gave up
    | Rejected(at: nat)     // the bytes are not the descriptor's, or the store refused a body

  /** The layer's bytes are its descriptor's, and its files can be stored. */
  ghost predicate Good(layers: seq<Descriptor>, ws: seq<Weather>, sha: Bytes -> Bytes, parse: Parser,
                       skip: Bytes -> bool, i: nat)
    requires i < |layers| == |ws|
  {
    Genuine(ws, layers, sha, i) && Storable(ws, parse, skip, i)
  }

  /** Unpack.  Whatever order the fetches finish in and whatever the network does, a tree that is
      returned comes from layers whose bytes are all genuine, and shows the latest word of their
      entries taken in manifest order; a layer that is rejected deserves it.  When fetches finish in
      time and the network is fair to each layer, good layers are all it takes. */
  method Unpack(layers: seq<Descriptor>, ws: seq<Weather>, done: seq<nat>, ahead: int, attempts: int,
                sha: Bytes -> Bytes, parse: Parser, skip: Bytes -> bool) returns (r: Outcome)
    requires |ws| == |layers|
    ensures r.Done? ==>
              && fresh(r.root) && Valid(r.root.nodes)
              && (forall i | 0 <= i < |layers| :: Good(layers, ws, sha, parse, skip, i))
              && (forall p :: Get(r.root.nodes, p) == Shown(Entries(ws, parse, |layers|), skip, p))
              && AsTold(r.root.nodes, Entries(ws, parse, |layers|), skip)
    ensures !r.Done? ==> r.at < |layers| && forall i | 0 <= i < r.at :: Good(layers, ws, sha, parse, skip, i)
    ensures r.Rejected? ==> ws[r.at].served.Some? && !Good(layers, ws, sha, parse, skip, r.at)
    ensures InTime(done, |layers|, if ahead < 1 then 1 else ahead) &&
            (forall i | 0 <= i < |ws| :: Fair(ws[i], attempts)) ==>
              && (r.Done? <==> forall i | 0 <= i < |layers| :: Good(layers, ws, sha, parse, skip, i))
              && (r.Done? || r.Rejected?)
  {
    hide Valid, Shown, Get, AsTold, Matches, RefusedBody, Genuine, Storable, Good, Entries, InTime, AllIn, Fair;
    var fs := new RootFs();
    StartsEmpty(fs.nodes, ws, parse, skip);
    var fetched: nat -> Option<Bytes> := (i: nat) => if i < |ws| then ws[i].served else None;
    var pipe := new LP.Pipeline(|layers|, ahead, fetched);
    var k: nat := 0;
    assert AllIn(done, 0, pipe.finished) by { NoneYet(done, pipe.finished); }
    for i := 0 to |layers|
      invariant pipe.Valid() && pipe.cur == i && pipe.n == |layers| && pipe.get == fetched && fresh(pipe) && fresh(fs)
      invariant pipe.depth == (if ahead < 1 then 1 else ahead) && k <= |done|
      invariant InTime(done, pipe.n, pipe.depth) ==> AllIn(done, k, pipe.finished)
      invariant Valid(fs.nodes)
      invariant forall j | 0 <= j < i :: Good(layers, ws, sha, parse, skip, j)
      invariant forall p :: Get(fs.nodes, p) == Shown(Entries(ws, parse, i), skip, p)
      invariant AsTold(fs.nodes, Entries(ws, parse, i), skip)
    {
      hide LP.Pipeline.Valid;
      var f;
      f, k := Fetch(pipe, done, k);
      FairIsServed(ws[i], attempts);
      if !f.Layer? || f.result.None? { return NotFetched(i); }
      var ok, read := UnpackLayer(fs, layers[i], f.result.value, ws[i], attempts, sha, parse, skip,
          Entries(ws, parse, i));
      LayerSettled(layers, ws, sha, parse, skip, i, ok, read);
      if !ok { return if read then Rejected(i) else Interrupted(i); }
    }
    return Done(fs);
  }

  lemma FairIsServed(w: Weather, attempts: int)
    ensures Fair(w, attempts) ==> w.served.Some?
  {
    hide RR.Serves;
  }

  lemma NoneYet(done: seq<nat>, finished: set<nat>)
    ensures AllIn(done, 0, finished)
  {
  }
}
