/**
 Model of opfsArena, opfsSliceReader and hybridStore in cmd/tbwasm/opfsstore.go, on top of the
 writable file streams of the origin private file system: writes go to a swap copy at a cursor and
 become visible only when the stream is closed.
 */
module OpfsArena {
  import opened Basics
  import opened ArenaRefs
  import opened Seqs

  /** Writing `b` at `pos` of a swap file, over what is there. */
  function Overwrite(swap: Bytes, pos: nat, b: Bytes): Bytes
    requires pos <= |swap|
  {
    swap[..pos] + b + if pos + |b| <= |swap| then swap[pos + |b|..] else []
  }

  /** Where Blob.slice puts a bound: a negative one counts from the end, and all are clamped. */
  function Bound(f: Bytes, x: int): (r: nat)
    ensures r <= |f| && (0 <= x <= |f| ==> r == x)
  {
    if x < 0 then (if |f| + x < 0 then 0 else |f| + x) else Min(x, |f|)
  }

  function Slice(f: Bytes, start: int, end: int): Bytes {
    if Bound(f, end) <= Bound(f, start) then [] else f[Bound(f, start)..Bound(f, end)]
  }

  const SLICE_CHUNK: nat := 4 * 1024 * 1024

  /** opfsSliceReader: the chunked reads add up to the slice, cut to the declared size. */
  method ReadSlice(blob: Bytes, size: int) returns (b: Bytes)
    ensures b == if size <= 0 then [] else blob[..Min(size, |blob|)]
  {
    b := [];
    var pos := 0;
    while pos < size
      invariant 0 <= pos && (pos <= size || pos == 0) && b == blob[..Min(pos, |blob|)]
      decreases size - pos
    {
      var end := pos + SLICE_CHUNK;
      if end > size { end := size; }
      b := b + Slice(blob, pos, end);
      pos := end;
    }
  }

  /** What a source yields: chunks, then the end or an error. */
  datatype Source = Source(chunks: seq<Bytes>, failed: bool)

  function Content(chunks: seq<Bytes>): Bytes {
    if chunks == [] then [] else Content(chunks[..|chunks| - 1]) + chunks[|chunks| - 1]
  }

  class Arena {
    const prefix: Bytes
    /** The file as last committed, and the stream's swap copy and cursor. */
    var committed: Bytes
    var swap: Bytes
    var cursor: nat
    var file: Bytes
    var off: nat
    var sealed: bool
    /** The first `off` bytes: what the refs handed out so far stand for. */
    ghost var log: Bytes

    ghost predicate Valid()
      reads this
    {
      && |log| == off && COLON !in prefix
      && if sealed then log <= committed && file == committed
         else log <= swap && off <= cursor <= |swap|
    }

    /** The bytes between `off` and the cursor: only a Put that failed part-way leaves any. */
    ghost function Leftover(): Bytes
      requires Valid()
      reads this
    {
      if sealed then [] else swap[off..cursor]
    }

    constructor (prefix: Bytes)
      requires COLON !in prefix
      ensures Valid() && log == [] && off == 0 && Leftover() == [] && this.prefix == prefix
    {
      this.prefix := prefix;
      committed, swap, file, log := [], [], [], [];
      cursor, off, sealed := 0, 0, false;
    }

    /** sealLocked: commits the stream and takes a new snapshot. */
    method Seal()
      requires Valid()
      modifies this
      ensures Valid() && sealed && log == old(log) && off == old(off) && Leftover() == []
    {
      if sealed { return; }
      committed := swap;
      file := committed;
      sealed := true;
    }

    /** reopenLocked: a new stream over the existing data, with the cursor back at `off`. */
    method Reopen()
      requires Valid()
      modifies this
      ensures Valid() && !sealed && log == old(log) && off == old(off)
      ensures Leftover() == old(Leftover()) && file == old(file)
    {
      if !sealed { return; }
      swap, cursor := committed, off;
      sealed := false;
    }

    /** Put.  The stream takes `writes` chunks before it fails.  The ref covers the next bytes of the
        log; it reads back as the source's bytes when no earlier Put failed part-way since the last
        seal, and otherwise the left-over bytes come first. */
    method Put(src: Source, writes: nat) returns (r: Option<(Bytes, nat)>)
      requires Valid()
      modifies this
      ensures Valid() && !sealed && old(log) <= log
      ensures r.Some? <==> !src.failed && |src.chunks| <= writes
      ensures r.Some? ==>
                var data := Content(src.chunks);
                && r.value == (Format(prefix, old(off), |data|), |data|) && off == old(off) + |data|
                && Leftover() == (old(Leftover()) + data)[|data|..]
                && log == old(log) + (old(Leftover()) + data)[..|data|]
      ensures r.None? ==>
                && log == old(log) && off == old(off)
                && Leftover() == old(Leftover()) + Content(src.chunks[..Min(writes, |src.chunks|)])
    {
      hide Content, Format;
      Reopen();
      var n := WriteChunks(src.chunks, writes);
      if n.None? || src.failed {
        assert src.chunks[..|src.chunks|] == src.chunks;
        return None;
      }
      r := Some((Format(prefix, off, n.value), n.value));
      Taken(swap, log, cursor, n.value);
      off, log := off + n.value, swap[..off + n.value];
    }

    /** Put's loop: the number of bytes, or None when the stream failed first. */
    method WriteChunks(chunks: seq<Bytes>, writes: nat) returns (n: Option<nat>)
      requires Valid() && !sealed
      modifies this`swap, this`cursor
      ensures Valid() && n == if |chunks| <= writes then Some(|Content(chunks)|) else None
      ensures Leftover() == old(Leftover()) + Content(chunks[..Min(writes, |chunks|)])
      ensures |chunks| <= writes ==> Leftover() == old(Leftover()) + Content(chunks)
    {
      var k := 0;
      assert chunks[..|chunks|] == chunks;
      for i := 0 to |chunks|
        invariant Valid() && i <= writes && k == |Content(chunks[..i])|
        invariant Leftover() == old(Leftover()) + Content(chunks[..i])
      {
        if i == writes { return None; }
        var b := chunks[i];
        assert chunks[..i + 1][..i] == chunks[..i];
        Written(swap, off, cursor, b);
        Assoc(old(Leftover()), Content(chunks[..i]), b);
        swap, cursor := Overwrite(swap, cursor, b), cursor + |b|;
        k := k + |b|;
      }
      n := Some(k);
    }

    /** Open: what the file's slice reads as, even before a seal; for a range inside the log, its
        bytes. */
    method Open(ref: Bytes) returns (r: Option<Bytes>)
      requires Valid()
      modifies this
      ensures Valid() && log == old(log) && off == old(off)
      ensures r.Some? || old(Leftover()) == [] ==> Leftover() == []
      ensures r.None? <==> Parse(ref).None? || Parse(ref).value.prefix != prefix
      ensures r.Some? ==> log <= file && r.value == ReadBack(file, Parse(ref).value)
      ensures r.Some? ==>
                var p := Parse(ref).value;
                0 <= p.off && 0 <= p.len && p.off + p.len <= off ==> r.value == log[p.off..p.off + p.len]
    {
      hide Parse, ReadBack;
      var p := Parse(ref);
      if p.None? || p.value.prefix != prefix { return None; }
      if !sealed {
        Seal();
        Reopen();
      }
      var b := ReadRange(file, p.value);
      r := Some(b);
      if 0 <= p.value.off && 0 <= p.value.len && p.value.off + p.value.len <= off { InLog(log, file, p.value); }
    }
  }

  /** What a reader of the slice that a ref names yields. */
  function ReadBack(file: Bytes, p: Ref): Bytes {
    var slice := Slice(file, p.off, p.off + p.len);
    if p.len <= 0 then [] else slice[..Min(p.len, |slice|)]
  }

  method ReadRange(file: Bytes, p: Ref) returns (b: Bytes)
    ensures b == ReadBack(file, p)
  {
    hide Slice;
    b := ReadSlice(Slice(file, p.off, p.off + p.len), p.len);
  }

  lemma InLog(log: Bytes, file: Bytes, p: Ref)
    requires log <= file && 0 <= p.off && 0 <= p.len && p.off + p.len <= |log|
    ensures ReadBack(file, p) == log[p.off..p.off + p.len]
  {
  }

  /** The next `n` bytes of the stream join the log, and the rest stays between it and the cursor. */
  lemma Taken(swap: Bytes, log: Bytes, cursor: nat, n: nat)
    requires log <= swap && |log| + n <= cursor <= |swap|
    ensures swap[..|log| + n] == log + swap[|log|..cursor][..n]
    ensures swap[|log| + n..cursor] == swap[|log|..cursor][n..]
  {
  }

  lemma Written(swap: Bytes, off: nat, cursor: nat, b: Bytes)
    requires off <= cursor <= |swap|
    ensures var s := Overwrite(swap, cursor, b);
            cursor + |b| <= |s| && s[..off] == swap[..off] && s[off..cursor + |b|] == swap[off..cursor] + b
  {
  }

  /** A call on an arena, in any run. */
  datatype Call = DoPut(src: Source, writes: nat) | DoOpen(ref: Bytes) | DoSeal

  datatype Answer = Handed(ref: Option<Bytes>) | Read(body: Option<Bytes>) | Sealed

  predicate Succeeds(c: Call) {
    c.DoPut? && !c.src.failed && |c.src.chunks| <= c.writes
  }

  /** A Put that fails has written nothing. */
  predicate NotPartWay(c: Call) {
    c.DoPut? && !Succeeds(c) ==> Content(c.src.chunks[..Min(c.writes, |c.src.chunks|)]) == []
  }

  /** What the successful Puts of a run stored, in order. */
  function PutsOf(calls: seq<Call>): seq<Bytes> {
    if calls == [] then [] else
    var c := calls[|calls| - 1];
    PutsOf(calls[..|calls| - 1]) + if Succeeds(c) then [Content(c.src.chunks)] else []
  }

  /** A ref handed out and the bytes it was handed out for. */
  datatype Stored = Stored(off: nat, data: Bytes)

  function RefOf(prefix: Bytes, s: Stored): Bytes {
    Format(prefix, s.off, |s.data|)
  }

  ghost predicate Backed(log: Bytes, s: Stored) {
    s.off + |s.data| <= |log| && log[s.off..s.off + |s.data|] == s.data
  }

  /** The ranges handed out follow one another without gap or overlap. */
  ghost predicate Consecutive(refs: seq<Stored>, end: nat) {
    if refs == [] then end == 0
    else var last := refs[|refs| - 1];
      last.off + |last.data| == end && Consecutive(refs[..|refs| - 1], last.off)
  }

  /** What call `c` answered, when the refs in `before` had been handed out and it handed out `now`. */
  ghost predicate Answered(prefix: Bytes, c: Call, before: seq<Stored>, now: seq<Stored>, answer: Answer) {
    match c
    case DoPut(src, _) =>
      if Succeeds(c) then |now| == 1 && now[0].data == Content(src.chunks) &&
          answer == Handed(Some(RefOf(prefix, now[0])))
      else now == [] && answer == Handed(None)
    case DoOpen(ref) =>
      now == [] && forall s | s in before && s.off + |s.data| <= MAX_INT64 && ref == RefOf(prefix, s) ::
          answer == Read(Some(s.data))
    case DoSeal => now == [] && answer == Sealed
  }

  /** The refs handed out before call `i`. */
  ghost function Before(calls: seq<Call>, refs: seq<Stored>, i: nat): seq<Stored>
    requires i <= |calls|
  {
    refs[..Min(|PutsOf(calls[..i])|, |refs|)]
  }

  /** The run went as it should: every Put that could succeed was handed a ref of its own, every Open
      of a ref handed out before it returned what that Put stored, through every seal and reopen. */
  ghost predicate RunsWell(prefix: Bytes, calls: seq<Call>, refs: seq<Stored>, answers: seq<Answer>) {
    && |answers| == |calls| && |refs| == |PutsOf(calls)|
    && (forall k | 0 <= k < |refs| :: refs[k].data == PutsOf(calls)[k])
    && forall i | 0 <= i < |calls| :: AnsweredAt(prefix, calls, refs, answers, i)
  }

  ghost predicate AnsweredAt(prefix: Bytes, calls: seq<Call>, refs: seq<Stored>, answers: seq<Answer>, i: nat)
    requires i < |calls| == |answers|
  {
    var before := Before(calls, refs, i);
    var after := Before(calls, refs, i + 1);
    before <= after && Answered(prefix, calls[i], before, after[|before|..], answers[i])
  }

  /** One call: the refs so far stay backed, and the answer is right. */
  method Perform(a: Arena, c: Call, refs: seq<Stored>) returns (answer: Answer, now: seq<Stored>)
    requires a.Valid() && a.Leftover() == [] && NotPartWay(c)
    requires Consecutive(refs, a.off) && forall s | s in refs :: Backed(a.log, s)
    modifies a
    ensures a.Valid() && a.Leftover() == []
    ensures Consecutive(refs + now, a.off) && forall s | s in refs + now :: Backed(a.log, s)
    ensures Answered(a.prefix, c, refs, now, answer)
  {
    hide Format, Parse, Content;
    now := [];
    assert refs + [] == refs;
    match c {
      case DoPut(_, _) => answer, now := PerformPut(a, c, refs);
      case DoOpen(ref) =>
        forall s | s in refs && s.off + |s.data| <= MAX_INT64
          ensures Parse(RefOf(a.prefix, s)) == Some(Ref(a.prefix, s.off, |s.data|))
        {
          ParseInvertsFormat(a.prefix, s.off, |s.data|);
        }
        var body := a.Open(ref);
        assert forall s | s in refs :: Backed(a.log, s);
        return Read(body), [];
      case DoSeal =>
        a.Seal();
        return Sealed, [];
    }
  }

  method PerformPut(a: Arena, c: Call, refs: seq<Stored>) returns (answer: Answer, now: seq<Stored>)
    requires a.Valid() && a.Leftover() == [] && c.DoPut? && NotPartWay(c)
    requires Consecutive(refs, a.off) && forall s | s in refs :: Backed(a.log, s)
    modifies a
    ensures a.Valid() && a.Leftover() == []
    ensures Consecutive(refs + now, a.off) && forall s | s in refs + now :: Backed(a.log, s)
    ensures Answered(a.prefix, c, refs, now, answer)
  {
    hide Format, Content;
    ghost var before := a.log;
    var data := Content(c.src.chunks);
    var s := Stored(a.off, data);
    var r := a.Put(c.src, c.writes);
    assert [] + data == data && data[..|data|] == data && data[|data|..] == [];
    assert refs + [] == refs;
    if r.None? { return Handed(None), []; }
    forall s' | s' in refs ensures Backed(a.log, s') {
      assert Backed(before, s');
      BackedStays(before, a.log, s');
    }
    assert (refs + [s])[..|refs|] == refs;
    return Handed(Some(r.value.0)), [s];
  }

  /** Any run of calls in which no Put fails part-way. */
  method Run(a: Arena, calls: seq<Call>) returns (refs: seq<Stored>, answers: seq<Answer>)
    requires a.Valid() && a.off == 0 && a.Leftover() == [] && forall c | c in calls :: NotPartWay(c)
    modifies a
    ensures a.Valid() && a.Leftover() == [] && Consecutive(refs, a.off)
    ensures forall s | s in refs :: Backed(a.log, s)
    ensures RunsWell(a.prefix, calls, refs, answers)
  {
    hide Answered, NotPartWay, Backed, Consecutive, RunsWell;
    refs, answers := [], [];
    assert Consecutive([], 0) by { NothingHanded(); }
    RunStarts(a.prefix, calls);
    for i := 0 to |calls|
      invariant a.Valid() && a.Leftover() == [] && Consecutive(refs, a.off)
      invariant forall s | s in refs :: Backed(a.log, s)
      invariant RunsWell(a.prefix, calls[..i], refs, answers)
    {
      assert calls[i] in calls;
      var answer, now := Perform(a, calls[i], refs);
      RunGoesOn(a.prefix, calls, i, refs, answers, now, answer);
      refs, answers := refs + now, answers + [answer];
    }
    assert calls[..|calls|] == calls;
  }

  lemma NothingHanded()
    ensures Consecutive([], 0)
  {
  }

  lemma RunStarts(prefix: Bytes, calls: seq<Call>)
    ensures RunsWell(prefix, calls[..0], [], [])
  {
  }

  lemma PutsMore(calls: seq<Call>, i: nat)
    requires i < |calls|
    ensures PutsOf(calls[..i + 1]) == PutsOf(calls[..i]) + if Succeeds(calls[i]) then [Content(calls[i].src.chunks)]
            else []
  {
    assert calls[..i + 1][..i] == calls[..i];
  }

  lemma {:induction false} PutsPrefix(calls: seq<Call>, i: nat, j: nat)
    requires i <= j <= |calls|
    ensures PutsOf(calls[..i]) <= PutsOf(calls[..j])
    decreases j
  {
    if i < j {
      PutsPrefix(calls, i, j - 1);
      PutsMore(calls, j - 1);
    }
  }

  lemma RunGoesOn(prefix: Bytes, calls: seq<Call>, i: nat, refs: seq<Stored>, answers: seq<Answer>, now: seq<Stored>,
                  answer: Answer)
    requires i < |calls| && RunsWell(prefix, calls[..i], refs, answers)
    requires Answered(prefix, calls[i], refs, now, answer)
    ensures RunsWell(prefix, calls[..i + 1], refs + now, answers + [answer])
  {
    hide Content, AnsweredAt;
    var more, refs', answers' := calls[..i + 1], refs + now, answers + [answer];
    PutsMore(calls, i);
    forall k | 0 <= k <= i ensures AnsweredAt(prefix, more, refs', answers', k) {
      if k < i {
        StillAnswered(prefix, calls, i, refs, answers, now, answer, k);
      } else {
        NowAnswered(prefix, calls, i, refs, answers, now, answer);
      }
    }
  }

  /** Later refs change no earlier answer. */
  lemma StillAnswered(prefix: Bytes, calls: seq<Call>, i: nat, refs: seq<Stored>, answers: seq<Answer>,
                      now: seq<Stored>, answer: Answer, k: nat)
    requires k < i < |calls| && |answers| == i && |refs| == |PutsOf(calls[..i])|
    requires AnsweredAt(prefix, calls[..i], refs, answers, k)
    ensures AnsweredAt(prefix, calls[..i + 1], refs + now, answers + [answer], k)
  {
    hide PutsOf, Answered;
    var more := calls[..i + 1];
    PutsPrefix(calls, k, i);
    PutsPrefix(calls, k + 1, i);
    assert calls[..i][..k] == more[..k] == calls[..k] && calls[..i][..k + 1] == more[..k + 1] == calls[..k + 1];
    assert Before(more, refs + now, k) == Before(calls[..i], refs, k);
    assert Before(more, refs + now, k + 1) == Before(calls[..i], refs, k + 1);
  }

  lemma NowAnswered(prefix: Bytes, calls: seq<Call>, i: nat, refs: seq<Stored>, answers: seq<Answer>,
                    now: seq<Stored>, answer: Answer)
    requires i < |calls| && |answers| == i && |refs| == |PutsOf(calls[..i])|
    requires |refs + now| == |PutsOf(calls[..i + 1])| && Answered(prefix, calls[i], refs, now, answer)
    ensures AnsweredAt(prefix, calls[..i + 1], refs + now, answers + [answer], i)
  {
    hide PutsOf, Answered;
    var more := calls[..i + 1];
    assert more[..i] == calls[..i] && more[..i + 1] == more;
    assert Before(more, refs + now, i) == refs && Before(more, refs + now, i + 1) == refs + now;
  }

  lemma BackedStays(log: Bytes, log': Bytes, s: Stored)
    requires Backed(log, s) && log <= log'
    ensures Backed(log', s)
  {
  }

  // ---------- the two arenas of hybridStore ----------

  const LAYERS: Bytes := [97]
  const POST: Bytes := [111]

  lemma RoutedByPrefix(off: nat, len: nat)
    ensures [111, 58] <= Format(POST, off, len) && !([111, 58] <= Format(LAYERS, off, len))
  {
    assert Format(POST, off, len)[..2] == [111, 58];
    assert Format(LAYERS, off, len)[0] == 97;
  }

  /** hybridStore.Open: a ref handed out by either arena reads that arena's bytes. */
  method OpenHybrid(arena: Arena, post: Arena?, ref: Bytes) returns (r: Option<Bytes>)
    requires arena.Valid() && arena.prefix == LAYERS && arena != post
    requires post != null ==> post.Valid() && post.prefix == POST
    modifies arena, post
    ensures arena.Valid() && arena.log == old(arena.log) && (post != null ==> post.Valid() && post.log == old(post.log))
    ensures forall s: Stored | Backed(arena.log, s) && |arena.log| <= MAX_INT64 &&
            ref == Format(LAYERS, s.off, |s.data|) ::
              r == Some(s.data)
    ensures forall s: Stored | post != null && Backed(post.log, s) && |post.log| <= MAX_INT64 &&
            ref == Format(POST, s.off, |s.data|) ::
              r == Some(s.data)
  {
    hide Format, Parse;
    forall s: Stored | s.off <= MAX_INT64 && |s.data| <= MAX_INT64
      ensures Parse(Format(LAYERS, s.off, |s.data|)) == Some(Ref(LAYERS, s.off, |s.data|))
      ensures Parse(Format(POST, s.off, |s.data|)) == Some(Ref(POST, s.off, |s.data|))
      ensures [111, 58] <= Format(POST, s.off, |s.data|) && !([111, 58] <= Format(LAYERS, s.off, |s.data|))
    {
      ParseInvertsFormat(LAYERS, s.off, |s.data|);
      ParseInvertsFormat(POST, s.off, |s.data|);
      RoutedByPrefix(s.off, |s.data|);
    }
    if [111, 58] <= ref {
      if post == null { return None; }
      r := post.Open(ref);
    } else {
      r := arena.Open(ref);
    }
  }

  /** A Put that fails after some bytes makes the next ref stand for the wrong bytes: "AB" is written,
      the source fails, and then "C" reads back as "A". */
  method FailedPutShifts() returns (a: Arena, ref: Bytes, body: Option<Bytes>)
    ensures fresh(a) && a.Valid() && ref == Format([97], 0, 1) && a.log == [65] && body == Some([65])
  {
    hide Format, Parse;
    a := new Arena([97]);
    OneChunk([65, 66]);
    OneChunk([67]);
    var r := a.Put(Source([[65, 66]], true), 1);
    assert [[65, 66]][..1] == [[65, 66]];
    assert a.Leftover() == [65, 66];
    r := a.Put(Source([[67]], false), 1);
    assert ([65, 66] + [67])[..1] == [65];
    ref := r.value.0;
    ParseInvertsFormat([97], 0, 1);
    assert a.log == [65] && a.log[0..1] == [65];
    body := a.Open(ref);
  }

  lemma OneChunk(b: Bytes)
    ensures Content([b]) == b
  {
    assert [b][..0] == [];
  }
}
