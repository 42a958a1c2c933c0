/**
 Model of internal/oci/resume.go: a layer download that survives stalls and broken connections.

 Everything the network and the scheduler decide (how much a pump reads, when a chunk or a timer
 arrives, whether a reopen works) is an event, and every method takes an arbitrary list of them.
 The transport honours the offset contract: a stream opened at `o` delivers the blob's bytes from
 `o` on, and ends with io.EOF only when they are all delivered.
 */
module ResumingReader {
  import opened Basics

  datatype Error = NoError | EOF | Broken

  datatype Chunk = Chunk(b: Bytes, err: Error)

  datatype Event =
    | PumpRead(pump: nat, n: nat, err: Error)  // some pump's Read returns, even an abandoned one's
    | Receive                                  // the select takes the channel
    | Stall                                    // the select takes the timer
    | Opened(ok: bool)                         // an open call returns

  /** A pump: its stream's position, the chunks it has sent or is sending, and whether it ended. */
  datatype Pump = Pump(pos: nat, queue: seq<Chunk>, done: bool)

  const BUFFER: nat := 32 * 1024

  /** One Read of a stream positioned at `pos`.  A connection that breaks off early is an error, not
      an end, and a read at the end answers with it. */
  function StreamRead(blob: Bytes, pos: nat, n: nat, err: Error): Chunk
    requires pos <= |blob|
  {
    var k := Min(Min(n, BUFFER), |blob| - pos);
    var err' := if err == EOF && pos + k < |blob| then Broken
                else if err == NoError && n > 0 && pos == |blob| then EOF
                else err;
    Chunk(blob[pos..pos + k], err')
  }

  /** One turn of a pump: it holds one chunk in the channel and one it is trying to send. */
  function PumpStep(blob: Bytes, p: Pump, n: nat, err: Error): Pump
    requires p.pos <= |blob|
  {
    if p.done || |p.queue| >= 2 then p else
    var c := StreamRead(blob, p.pos, n, err);
    Pump(p.pos + |c.b|, p.queue + [c], c.err != NoError)
  }

  /** The queue continues the blob at `next`, and only its last chunk can carry an error. */
  ghost predicate Follows(blob: Bytes, next: nat, queue: seq<Chunk>, pos: nat, done: bool)
    decreases |queue|
  {
    if queue == [] then next == pos <= |blob|
    else
      var c := queue[0];
      && next + |c.b| <= |blob| && c.b == blob[next..next + |c.b|]
      && (c.err == EOF ==> next + |c.b| == |blob|)
      && (c.err != NoError ==> done && |queue| == 1)
      && Follows(blob, next + |c.b|, queue[1..], pos, done)
  }

  lemma {:induction false} FollowsStep(blob: Bytes, next: nat, p: Pump, n: nat, err: Error)
    requires Follows(blob, next, p.queue, p.pos, p.done) && p.pos <= |blob|
    ensures var p' := PumpStep(blob, p, n, err); Follows(blob, next, p'.queue, p'.pos, p'.done)
    decreases |p.queue|
  {
    if !p.done && |p.queue| < 2 {
      FollowsSnoc(blob, next, p.queue, p.pos, StreamRead(blob, p.pos, n, err));
    }
  }

  lemma {:induction false} FollowsSnoc(blob: Bytes, next: nat, queue: seq<Chunk>, pos: nat, c: Chunk)
    requires Follows(blob, next, queue, pos, false) && pos + |c.b| <= |blob| && c.b == blob[pos..pos + |c.b|]
    requires c.err == EOF ==> pos + |c.b| == |blob|
    ensures Follows(blob, next, queue + [c], pos + |c.b|, c.err != NoError)
    decreases |queue|
  {
    if queue == [] {
      assert [c][1..] == [];
    } else {
      FollowsSnoc(blob, next + |queue[0].b|, queue[1..], pos, c);
      assert (queue + [c])[1..] == queue[1..] + [c];
    }
  }

  lemma StepInBlob(blob: Bytes, p: Pump, n: nat, err: Error)
    requires p.pos <= |blob|
    ensures PumpStep(blob, p, n, err).pos <= |blob|
  {
  }

  // ---------- a network that is good enough ----------

  /** The events from the next return of an open call on. */
  function FromOpen(events: seq<Event>): (rest: seq<Event>)
    ensures |rest| <= |events| && (rest != [] ==> rest[0].Opened?)
  {
    if events == [] || events[0].Opened? then events else FromOpen(events[1..])
  }

  /** What is left of the events once one of the next `tries` open calls has worked. */
  function AfterReopen(events: seq<Event>, tries: nat): (rest: Option<seq<Event>>)
    ensures rest.Some? ==> |rest.value| < |events|
    decreases tries
  {
    var e := FromOpen(events);
    if tries == 0 || e == [] then None else if e[0].ok then Some(e[1..]) else AfterReopen(e[1..], tries - 1)
  }

  /** The network serves the blob from `off` on, through pump `i` as it is now and its successors: in any
      interleaving of reads, receives and stalls, with other pumps reading in between, the end of the
      stream is received before more than `attempts` stalls and broken connections, each followed by an
      open call that works within three. */
  ghost predicate Serves(blob: Bytes, events: seq<Event>, i: nat, p: Pump, off: nat, attempts: nat)
    decreases |events|
  {
    && p.pos <= |blob| && off <= |blob| && events != []
    && match events[0]
       case PumpRead(j, n, err) =>
         Serves(blob, events[1..], i, if j == i then PumpStep(blob, p, n, err) else p, off, attempts)
       case Receive =>
         if p.queue == [] then Serves(blob, events[1..], i, p, off, attempts)
         else
           var c := p.queue[0];
           (match c.err
            case NoError => Serves(blob, events[1..], i, p.(queue := p.queue[1..]), off + |c.b|, attempts)
            case EOF => true
            case Broken => Reconnects(blob, events[1..], i, off + |c.b|, attempts))
       case Stall => Reconnects(blob, events[1..], i, off, attempts)
       case Opened(_) => Serves(blob, events[1..], i, p, off, attempts)
  }

  ghost predicate Reconnects(blob: Bytes, events: seq<Event>, i: nat, off: nat, attempts: nat)
    decreases |events|
  {
    var rest := AfterReopen(events, MAX_REOPENS);
    attempts > 0 && rest.Some? && Serves(blob, rest.value, i + 1, Pump(off, [], false), off, attempts - 1)
  }

  /** A network that does: every read brings some bytes and is received, until `left` bytes have come,
      and there are at most `attempts` interruptions. */
  ghost predicate Steady(events: seq<Event>, i: nat, left: nat, attempts: nat)
    decreases |events|
  {
    && events != []
    && match events[0]
       case PumpRead(j, n, err) =>
         var got := Min(Min(n, BUFFER), left);
         && j == i && |events| >= 2 && events[1] == Receive
         && (match err
             case NoError => n > 0 && (left == 0 || Steady(events[2..], i, left - got, attempts))
             case EOF => got == left
             case Broken => SteadyAgain(events[2..], i, left - got, attempts))
       case Stall => SteadyAgain(events[1..], i, left, attempts)
       case _ => false
  }

  ghost predicate SteadyAgain(events: seq<Event>, i: nat, left: nat, attempts: nat)
    decreases |events|
  {
    var rest := AfterReopen(events, MAX_REOPENS);
    attempts > 0 && rest.Some? && Steady(rest.value, i + 1, left, attempts - 1)
  }

  /** Reads that are received one by one do serve the blob. */
  lemma {:induction false} SteadyServes(blob: Bytes, events: seq<Event>, i: nat, off: nat, attempts: nat)
    requires off <= |blob| && Steady(events, i, |blob| - off, attempts)
    ensures Serves(blob, events, i, Pump(off, [], false), off, attempts)
    decreases |events|
  {
    hide AfterReopen;
    match events[0] {
      case PumpRead(_, n, err) =>
        var c := StreamRead(blob, off, n, err);
        assert PumpStep(blob, Pump(off, [], false), n, err) == Pump(off + |c.b|, [c], c.err != NoError);
        assert events[1..][1..] == events[2..] && [c][1..] == [];
        if c.err == NoError {
          SteadyServes(blob, events[2..], i, off + |c.b|, attempts);
        } else if c.err == Broken {
          AgainReconnects(blob, events[2..], i, off + |c.b|, attempts);
        }
      case Stall => AgainReconnects(blob, events[1..], i, off, attempts);
    }
  }

  lemma {:induction false} AgainReconnects(blob: Bytes, events: seq<Event>, i: nat, off: nat, attempts: nat)
    requires off <= |blob| && SteadyAgain(events, i, |blob| - off, attempts)
    ensures Reconnects(blob, events, i, off, attempts)
    decreases |events|
  {
    hide AfterReopen;
    SteadyServes(blob, AfterReopen(events, MAX_REOPENS).value, i + 1, off, attempts - 1);
  }

  /** A reader's fields between two events. */
  datatype Snap = Snap(blob: Bytes, pumps: seq<Pump>, cur: Option<nat>, off: nat, pend: Bytes, stash: bool,
      err: Failure, attempts: nat)

  /** From here the network serves the rest; an error that is held back is followed by a reconnection. */
  ghost predicate Smooth(s: Snap, events: seq<Event>) {
    && s.err != Stalled && s.pumps != []
    && (s.err == Eof ||
        var i, off := |s.pumps| - 1, s.off + |s.pend|;
        if s.stash then Reconnects(s.blob, events, i, off, s.attempts)
        else s.cur == Some(i) && Serves(s.blob, events, i, s.pumps[i], off, s.attempts))
  }

  lemma SmoothGoesOn(s: Snap, events: seq<Event>)
    requires Smooth(s, events)
    ensures s.err != Stalled && (s.err == Fine && !s.stash ==> events != [])
  {
  }

  /** Handing out pending bytes changes nothing for the network. */
  lemma DeliveryIsSmooth(s: Snap, n: nat, events: seq<Event>)
    requires Smooth(s, events) && n <= |s.pend|
    ensures Smooth(s.(off := s.off + n, pend := s.pend[n..]), events)
  {
    hide Serves, Reconnects;
  }

  function Received(s: Snap): Snap
    requires s.pumps != [] && s.pumps[|s.pumps| - 1].queue != []
  {
    var i := |s.pumps| - 1;
    var p := s.pumps[i];
    s.(pumps := s.pumps[i := p.(queue := p.queue[1..])], pend := p.queue[0].b,
       err := if p.queue[0].err == EOF then Eof else Fine)
  }

  /** What an event does to a reader that waits leaves it well served. */
  lemma NextEvent(s: Snap, events: seq<Event>)
    requires Smooth(s, events) && s.pend == [] && s.err == Fine && !s.stash
    ensures events != [] && s.pumps != [] && s.cur == Some(|s.pumps| - 1)
    ensures var p := s.pumps[|s.pumps| - 1];
            match events[0]
            case PumpRead(_, _, _) => p.pos <= |s.blob|
            case Receive =>
              if p.queue == [] then Smooth(s, events[1..])
              else if p.queue[0].err == Broken then Smooth(Received(s).(stash := true), events[1..])
              else Smooth(Received(s), events[1..])
            case Stall => Smooth(s.(stash := true), events[1..])
            case Opened(_) => Smooth(s, events[1..])
  {
    hide Reconnects, PumpStep;
  }

  /** A read of any pump; only the current one matters. */
  lemma PumpIsSmooth(s: Snap, events: seq<Event>, pumps: seq<Pump>)
    requires Smooth(s, events) && s.pend == [] && s.err == Fine && !s.stash && events[0].PumpRead?
    requires |pumps| == |s.pumps| && s.pumps[|pumps| - 1].pos <= |s.blob|
    requires var i, e := |pumps| - 1, events[0];
             pumps[i] == if e.pump == i then PumpStep(s.blob, s.pumps[i], e.n, e.err) else s.pumps[i]
    ensures Smooth(s.(pumps := pumps), events[1..])
  {
    hide Reconnects, PumpStep;
  }

  /** A reconnection is smooth again. */
  lemma ReconnectIsSmooth(s: Snap, events: seq<Event>, pumps: seq<Pump>)
    requires s.pend == [] && s.pumps != [] && Reconnects(s.blob, events, |s.pumps| - 1, s.off, s.attempts)
    requires |pumps| == |s.pumps| + 1 && pumps[|s.pumps|] == Pump(s.off, [], false)
    ensures AfterReopen(events, MAX_REOPENS).Some? && s.attempts > 0
    ensures var s' := s.(pumps := pumps, cur := Some(|s.pumps|), stash := false, err := Fine,
            attempts := s.attempts - 1);
            Smooth(s', AfterReopen(events, MAX_REOPENS).value)
  {
    hide AfterReopen, Serves;
  }

  lemma ReconnectWorks(s: Snap, events: seq<Event>)
    requires s.stash && s.err == Fine && Smooth(s, events)
    ensures AfterReopen(events, MAX_REOPENS).Some? && s.attempts > 0
    ensures Reconnects(s.blob, events, |s.pumps| - 1, s.off + |s.pend|, s.attempts)
  {
    hide AfterReopen, Serves;
  }

  const MAX_REOPENS := 3
  const DEFAULT_ATTEMPTS := 4

  /** What Read returns; Waiting when the events ran out before it could. */
  datatype Result = Data(b: Bytes) | End | Failed | Closed | Waiting

  datatype Failure = Fine | Eof | Stalled

  class Reader {
    const blob: Bytes
    const budget: nat
    var pumps: seq<Pump>
    var cur: Option<nat>
    var off: nat
    var pend: Bytes
    var stash: bool
    var closed: bool
    var err: Failure
    var attempts: nat
    var opens: nat
    /** Everything Read has returned. */
    ghost var delivered: Bytes

    /** The current pump continues where the handed-out and the pending bytes end. */
    ghost predicate Attached()
      reads this
    {
      match cur
      case None => true
      case Some(i) => i < |pumps| && Follows(blob, off + |pend|, pumps[i].queue, pumps[i].pos, pumps[i].done)
    }

    ghost predicate Valid()
      reads this
    {
      && off + |pend| <= |blob| && delivered == blob[..off] && pend == blob[off..off + |pend|]
      && (forall p | p in pumps :: p.pos <= |blob|)
      && Attached()
      && (cur.None? ==> err == Stalled || closed)
      && (err == Eof ==> off + |pend| == |blob|)
      && attempts <= budget && opens <= 1 + MAX_REOPENS * (budget - attempts)
      && (err == Stalled ==> pend == [])
    }

    function Now(): Snap
      reads this
    {
      Snap(blob, pumps, cur, off, pend, stash, err, attempts)
    }

    /** newResumingReader, once its first open has worked. */
    constructor (blob: Bytes, attempts: int)
      ensures Valid() && this.blob == blob && off == 0 && delivered == [] && opens == 1 && !closed
      ensures this.attempts == budget && Now() == Snap(blob, [Pump(0, [], false)], Some(0), 0, [], false, Fine, budget)
      ensures budget == if attempts < 1 then DEFAULT_ATTEMPTS else attempts
    {
      this.blob := blob;
      var given: nat := if attempts < 1 then DEFAULT_ATTEMPTS else attempts;
      this.attempts, budget := given, given;
      pumps, cur := [Pump(0, [], false)], Some(0);
      off, pend, stash, closed, err, opens := 0, [], false, false, Fine, 1;
      delivered := [];
    }

    /** A step of the environment: some pump reads. */
    method StepPump(i: nat, n: nat, err: Error)
      requires Valid()
      modifies this`pumps
      ensures Valid()
      ensures |pumps| == |old(pumps)| && (i >= |old(pumps)| ==> pumps == old(pumps))
      ensures forall p | i < |old(pumps)| && p == old(pumps)[i] && p.pos <= |blob| ::
                pumps == old(pumps)[i := PumpStep(blob, p, n, err)]
    {
      hide Follows, PumpStep;
      if i < |pumps| {
        assert pumps[i] in pumps;
        StepInBlob(blob, pumps[i], n, err);
        if cur == Some(i) { FollowsStep(blob, off + |pend|, pumps[i], n, err); }
        pumps := pumps[i := PumpStep(blob, pumps[i], n, err)];
      }
    }

    /** Waits for an open call to return; abandoned pumps may still be reading meanwhile. */
    method AwaitOpen(events: seq<Event>) returns (rest: seq<Event>, answer: Option<bool>)
      requires Valid()
      modifies this`pumps
      ensures Valid() && |rest| <= |events| && (answer.None? ==> rest == [])
      ensures |pumps| == |old(pumps)|
      ensures var e := FromOpen(events);
              if e == [] then answer == None else answer == Some(e[0].ok) && rest == e[1..]
    {
      hide Follows, PumpStep, StreamRead;
      rest := events;
      while rest != [] && !rest[0].Opened?
        invariant |rest| <= |events| && Valid()
        invariant |pumps| == |old(pumps)| && FromOpen(rest) == FromOpen(events)
      {
        if rest[0].PumpRead? { StepPump(rest[0].pump, rest[0].n, rest[0].err); }
        rest := rest[1..];
      }
      if rest == [] { return rest, None; }
      return rest[1..], Some(rest[0].ok);
    }

    /** attach: a new pump, whose stream starts at the current offset. */
    method Attach()
      requires Valid() && pend == [] && !closed && err == Stalled
      modifies this`pumps, this`cur, this`err
      ensures Valid() && err == Fine && pumps == old(pumps) + [Pump(off, [], false)] && cur == Some(|old(pumps)|)
    {
      pumps := pumps + [Pump(off, [], false)];
      cur := Some(|pumps| - 1);
      err := Fine;
    }

    /** resume: reopens at the current offset, or sets the error. */
    method Resume(events: seq<Event>) returns (ok: bool, rest: seq<Event>, waiting: bool)
      requires Valid() && pend == [] && !closed && err == Fine
      modifies this
      ensures Valid() && off == old(off) && pend == [] && delivered == old(delivered) && !closed
      ensures |rest| <= |events| && stash == old(stash)
      ensures old(opens) <= opens <= old(opens) + MAX_REOPENS && attempts <= old(attempts)
      ensures !waiting ==> (ok <==> err == Fine) && (!ok ==> err == Stalled)
      ensures waiting ==> !ok && err == Stalled && rest == []
      ensures !ok && !waiting ==> old(attempts) == 0 || opens == old(opens) + MAX_REOPENS
      ensures ok ==> cur.Some? && cur.value < |pumps| && pumps[cur.value] == Pump(off, [], false)
      ensures AfterReopen(events, MAX_REOPENS).Some? && old(attempts) > 0 ==>
                && ok && rest == AfterReopen(events, MAX_REOPENS).value && attempts == old(attempts) - 1
                && |pumps| == |old(pumps)| + 1 && cur == Some(|old(pumps)|)
    {
      hide PumpStep, StreamRead, Follows, FromOpen;
      rest, waiting, ok := events, false, false;
      cur := None;
      err := Stalled;
      if attempts == 0 { return; }
      attempts := attempts - 1;
      var retry := 0;
      while retry < MAX_REOPENS
        invariant retry <= MAX_REOPENS && |rest| <= |events|
        invariant opens == old(opens) + retry && attempts == old(attempts) - 1
        invariant Valid() && off == old(off) && pend == [] && delivered == old(delivered) && !closed &&
                  stash == old(stash)
        invariant err == Stalled && cur.None?
        invariant AfterReopen(events, MAX_REOPENS).Some? ==>
                    AfterReopen(rest, MAX_REOPENS - retry) == AfterReopen(events, MAX_REOPENS)
        invariant |pumps| == |old(pumps)|
      {
        var answer;
        rest, answer := AwaitOpen(rest);
        opens := opens + 1;
        if answer.None? { return false, rest, true; }
        var worked := answer.value;
        if worked {
          Attach();
          return true, rest, false;
        }
        retry := retry + 1;
      }
    }

    lemma AtEnd()
      requires Valid() && err == Eof && pend == []
      ensures off == |blob|
    {
    }

    /** Hands out pending bytes. */
    method Deliver(len: nat) returns (b: Bytes)
      requires Valid() && pend != []
      modifies this
      ensures Valid() && old(off) <= off && b == blob[old(off)..off] && off == old(off) + Min(len, |old(pend)|)
      ensures |b| <= len && |b| <= |old(pend)| && (len > 0 ==> b != [])
      ensures unchanged(this`closed) && unchanged(this`opens) &&
              Now() == old(Now()).(off := off, pend := old(pend)[|b|..])
      ensures delivered == old(delivered) + b
    {
      var n := Min(len, |pend|);
      b := pend[..n];
      assert b == blob[off..off + n];
      assert pend[n..] == blob[off + n..off + n + |pend[n..]|];
      assert blob[..off + n] == blob[..off] + blob[off..off + n];
      pend, off, delivered := pend[n..], off + n, delivered + b;
    }

    /** Takes the next chunk off the channel. */
    method Take(i: nat) returns (c: Chunk)
      requires Valid() && pend == [] && err == Fine && cur == Some(i) && i < |pumps| && pumps[i].queue != []
      modifies this`pumps, this`pend, this`err
      ensures Valid() && c == old(pumps)[i].queue[0] && pend == c.b && off == old(off)
      ensures pumps == old(pumps)[i := old(pumps)[i].(queue := old(pumps)[i].queue[1..])]
      ensures err == if c.err == EOF then Eof else Fine
    {
      var p := pumps[i];
      c := p.queue[0];
      assert p in pumps;
      pumps := pumps[i := p.(queue := p.queue[1..])];
      pend := c.b;
      if c.err == EOF { err := Eof; }
    }

    /** The select: what one event does to a Read with nothing pending; `stop` when the call ends. */
    method Select(events: seq<Event>) returns (stop: Option<Result>, rest: seq<Event>)
      requires Valid() && pend == [] && !closed && err == Fine && !stash && events != []
      modifies this
      ensures Valid() && |rest| < |events| && off == old(off) && delivered == old(delivered) && !closed
      ensures old(opens) <= opens && (stop.None? ==> err != Stalled)
      ensures stop.Some? ==> pend == []
      ensures stop.None? || stop == Some(End) || stop == Some(Failed) || stop == Some(Waiting)
      ensures events[0].Receive? && old(pumps[cur.value].queue) != [] ==>
                var c := old(pumps[cur.value].queue[0]); c.b != [] ==>
                    stop.None? && pend == c.b && stash == (c.err == Broken)
      ensures stop == Some(End) ==> off == |blob| && err == Eof
      ensures stop == Some(Failed) ==> err == Stalled && (attempts == 0 || opens >= old(opens) + MAX_REOPENS)
      ensures stop == Some(Waiting) ==> rest == []
      ensures old(Smooth(Now(), events)) ==> Smooth(Now(), rest) && (stop.None? || stop == Some(End))
    {
      hide Follows, PumpStep, StreamRead, Smooth;
      rest, stop := events[1..], None;
      ghost var before := Now();
      ghost var smooth := Smooth(before, events);
      if smooth { NextEvent(before, events); }
      match events[0] {
        case PumpRead(i, n, err) =>
          StepPump(i, n, err);
          if smooth { PumpIsSmooth(before, events, pumps); }
        case Receive => stop, rest := ReceiveChunk(events);
        case Stall => stop, rest := Retry(rest);
        case Opened(_) =>
      }
    }

    /** The select's channel case. */
    method ReceiveChunk(events: seq<Event>) returns (stop: Option<Result>, rest: seq<Event>)
      requires Valid() && pend == [] && !closed && err == Fine && !stash && events != [] && events[0].Receive?
      modifies this
      ensures Valid() && |rest| < |events| && off == old(off) && delivered == old(delivered) && !closed
      ensures old(opens) <= opens && (stop.None? ==> err != Stalled)
      ensures stop.Some? ==> pend == []
      ensures stop.None? || stop == Some(End) || stop == Some(Failed) || stop == Some(Waiting)
      ensures old(pumps[cur.value].queue) != [] ==>
                var c := old(pumps[cur.value].queue[0]); c.b != [] ==>
                    stop.None? && pend == c.b && stash == (c.err == Broken)
      ensures stop == Some(End) ==> off == |blob| && err == Eof
      ensures stop == Some(Failed) ==> err == Stalled && (attempts == 0 || opens >= old(opens) + MAX_REOPENS)
      ensures stop == Some(Waiting) ==> rest == []
      ensures old(Smooth(Now(), events)) ==> Smooth(Now(), rest) && (stop.None? || stop == Some(End))
    {
      hide Follows, PumpStep, StreamRead, Smooth;
      rest, stop := events[1..], None;
      ghost var before := Now();
      if Smooth(before, events) { NextEvent(before, events); }
      var i := cur.value;
      if pumps[i].queue != [] {
        var c := Take(i);
        if c.err == EOF {
          if pend == [] { stop := Some(End); }
        } else if c.err == Broken {
          if pend != [] { stash := true; } else { stop, rest := Retry(rest); }
        }
      }
    }

    /** resume as Read uses it, for an error that is held back or has just arrived. */
    method Retry(events: seq<Event>) returns (stop: Option<Result>, rest: seq<Event>)
      requires Valid() && pend == [] && !closed && err == Fine
      modifies this
      ensures Valid() && |rest| <= |events| && off == old(off) && delivered == old(delivered) && !closed && pend == []
      ensures old(opens) <= opens && !stash
      ensures stop.None? ==> err == Fine
      ensures stop.None? || stop == Some(Failed) || stop == Some(Waiting)
      ensures stop == Some(Failed) ==> err == Stalled && (attempts == 0 || opens >= old(opens) + MAX_REOPENS)
      ensures stop == Some(Waiting) ==> rest == []
      ensures old(Smooth(Now().(stash := true), events)) ==> stop.None? && Smooth(Now(), rest)
    {
      hide Follows, Smooth, Reconnects, AfterReopen;
      ghost var before := Now();
      ghost var smooth := Smooth(before.(stash := true), events);
      stash := false;
      if smooth { ReconnectWorks(before.(stash := true), events); }
      var ok, more, waiting := Resume(events);
      if smooth { ReconnectIsSmooth(before.(stash := true), events, pumps); }
      rest := more;
      stop := if waiting then Some(Waiting) else if ok then None else Some(Failed);
    }

    /** Read: at most `len` bytes.  Whatever the events, what it returns continues the blob exactly
        where the previous call stopped, and the end is reported only at the end.  It fails only when
        the attempts are used up or three reopens in a row failed. */
    method Read(len: nat, events: seq<Event>) returns (r: Result, rest: seq<Event>)
      requires Valid()
      modifies this
      ensures Valid() && |rest| <= |events|
      ensures r.Data? ==>
                old(off) <= off && r.b == blob[old(off)..off] && |r.b| <= len && delivered == old(delivered) + r.b
      ensures r.Data? && len > 0 ==> r.b != []
      ensures !r.Data? ==> off == old(off) && delivered == old(delivered)
      ensures r.End? ==> off == |blob| && err == Eof && pend == []
      ensures old(pend) != [] && !closed ==> r.Data? && |r.b| == Min(len, |old(pend)|) && opens == old(opens)
      ensures old(pend) == [] && old(err) == Stalled && !closed ==> r == Failed
      ensures old(err) == Eof && old(pend) == [] ==> err == Eof && pend == [] && (!closed ==> r == End)
      ensures r.Failed? ==> err == Stalled && (old(err) == Fine ==> attempts == 0 || opens >= old(opens) + MAX_REOPENS)
      ensures r.Waiting? ==> rest == []
      ensures old(Smooth(Now(), events)) && !closed ==> (r.Data? || r.End?) && Smooth(Now(), rest)
      ensures closed == old(closed) && (r.Closed? <==> closed)
      ensures old(closed) ==> opens == old(opens)
    {
      hide Valid, Min, Smooth;
      rest := events;
      ghost var smooth := Smooth(Now(), events) && !closed;
      while true
        invariant Valid() && |rest| <= |events| && off == old(off) && delivered == old(delivered) &&
                  closed == old(closed)
        invariant (closed ==> opens == old(opens)) && old(opens) <= opens
        invariant old(err) == Fine || (err == old(err) && pend == old(pend))
        invariant old(err) == Fine ==> err != Stalled
        invariant old(pend) != [] ==> pend == old(pend) && opens == old(opens)
        invariant smooth ==> Smooth(Now(), rest)
        decreases |rest|, |pend|, if stash then 1 else 0
      {
        if closed { return Closed, rest; }
        if smooth { SmoothGoesOn(Now(), rest); }
        if pend != [] {
          ghost var before := Now();
          var b := Deliver(len);
          if smooth { DeliveryIsSmooth(before, |b|, rest); }
          return Data(b), rest;
        }
        if err == Eof {
          AtEnd();
          return End, rest;
        }
        if err == Stalled { return Failed, rest; }
        if stash {
          var stop;
          stop, rest := Retry(rest);
          if stop.Some? { return stop.value, rest; }
          continue;
        }
        if rest == [] { return Waiting, rest; }
        var stop;
        stop, rest := Select(rest);
        if stop.Some? { return stop.value, rest; }
      }
    }

    method Close()
      requires Valid()
      modifies this`closed, this`cur
      ensures Valid() && closed
    {
      closed := true;
      cur := None;
    }
  }
}
