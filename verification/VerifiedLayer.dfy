/**
 Model of verifyingReader in internal/oci/client.go and of how internal/oci/unpack.go consumes a
 layer: application, finishLayer, and Close.  SHA-256 is any function of the bytes.
 */
module VerifiedLayer {
  import opened Basics
  import opened ResumingReader

  datatype Descriptor = Descriptor(digest: Bytes, size: nat)

  class VerifyingReader {
    const body: Reader
    const want: Descriptor
    const sha: Bytes -> Bytes
    var seen: nat
    var eof: bool
    var overLimit: bool
    /** The bytes written to the hash. */
    var hashed: Bytes

    /** Everything the body returned went into the hash, and never more than one byte too many. */
    ghost predicate Valid()
      reads this, body
    {
      && body.Valid() && hashed == body.delivered && seen == |hashed|
      && (want.size > 0 ==> seen <= want.size + 1)
      && (overLimit <==> want.size > 0 && seen > want.size)
      && (eof ==> body.off == |body.blob| && body.err == Eof && body.pend == [])
    }

    constructor (body: Reader, want: Descriptor, sha: Bytes -> Bytes)
      requires body.Valid() && body.delivered == []
      ensures Valid() && this.body == body && this.want == want && this.sha == sha && !eof
    {
      this.body, this.want, this.sha := body, want, sha;
      seen, eof, overLimit, hashed := 0, false, false, [];
    }

    /** Read into a buffer of `len` bytes; with a declared size, one byte past it at most.  `tooLong`
        is the size error, which can come with the last bytes. */
    method Read(len: nat, events: seq<Event>) returns (r: Result, tooLong: bool, rest: seq<Event>)
      requires Valid()
      modifies this, body
      ensures Valid() && |rest| <= |events| && body.closed == old(body.closed)
      ensures tooLong <==> overLimit
      ensures old(overLimit) ==> r == Failed && unchanged(body)
      ensures eof <==> old(eof) || r.End?
      ensures old(eof) ==> body.off == old(body.off) && (!overLimit && !body.closed ==> r.End?)
      ensures r.Data? ==> old(body.off) <= body.off && r.b == body.blob[old(body.off)..body.off] && |r.b| <= len
      ensures r.Data? && len > 0 ==> old(body.off) < body.off
      ensures old(Smooth(body.Now(), events)) && !body.closed ==>
                Smooth(body.Now(), rest) && (old(overLimit) || r.Data? || r.End?)
    {
      hide Smooth;
      if overLimit { return Failed, true, events; }
      var limit := len;
      if want.size > 0 {
        var remaining := want.size - seen;
        if remaining < len { limit := remaining + 1; }
      }
      assert limit <= len;
      r, rest := body.Read(limit, events);
      if r.Data? {
        hashed := hashed + r.b;
        seen := seen + |r.b|;
      }
      if want.size > 0 && seen > want.size {
        overLimit := true;
        return r, true, rest;
      }
      if r.End? { eof := true; }
      tooLong := false;
    }

    /** Close never reads on; it reports what the bytes seen so far prove. */
    method Close() returns (ok: bool)
      requires Valid()
      modifies body
      ensures Valid() && body.closed && body.delivered == old(body.delivered)
      ensures ok <==> !overLimit && (eof ==> (want.size > 0 ==> seen == want.size) && sha(hashed) == want.digest)
    {
      ok := !overLimit;
      if eof {
        if want.size > 0 && seen != want.size { ok := false; }
        if sha(hashed) != want.digest { ok := false; }
      }
      body.Close();
    }
  }

  /** One read that the decoder or the tar reader makes, and whether it gives up on what it got. */
  datatype Demand = Demand(len: nat, giveUp: bool)

  /** The decoder never gives up. */
  ghost predicate Content(demands: seq<Demand>) {
    forall d | d in demands :: !d.giveUp
  }

  /** The application of a layer: the decoder reads as it likes and may fail at any point ... */
  method Decode(v: VerifyingReader, demands: seq<Demand>, events: seq<Event>) returns (ok: bool, rest: seq<Event>)
    requires v.Valid()
    modifies v, v.body
    ensures v.Valid() && |rest| <= |events| && v.body.closed == old(v.body.closed)
    ensures ok ==> Content(demands)
    ensures old(Smooth(v.body.Now(), events)) && !v.body.closed && Content(demands) ==> ok && Smooth(v.body.Now(), rest)
  {
    hide Smooth;
    rest := events;
    for i := 0 to |demands|
      invariant v.Valid() && |rest| <= |events| && v.body.closed == old(v.body.closed)
      invariant Content(demands[..i])
      invariant old(Smooth(v.body.Now(), events)) && !v.body.closed ==> Smooth(v.body.Now(), rest)
    {
      var r, tooLong;
      assert demands[i] in demands;
      r, tooLong, rest := v.Read(demands[i].len, rest);
      if demands[i].giveUp { return false, rest; }
      if r.Waiting? { return false, rest; }
    }
    assert demands[..|demands|] == demands;
    return true, rest;
  }

  /** ... then finishLayer drains what is left, and succeeds only at the end of the stream. */
  method Finish(v: VerifyingReader, events: seq<Event>) returns (ok: bool, rest: seq<Event>)
    requires v.Valid()
    modifies v, v.body
    ensures v.Valid() && v.body.closed == old(v.body.closed)
    ensures !v.body.closed ==> (ok <==> v.eof && !v.overLimit)
    ensures ok ==> v.eof && !v.overLimit
    ensures old(Smooth(v.body.Now(), events)) && !v.body.closed ==> v.eof || v.overLimit
  {
    hide Smooth;
    rest := events;
    while true
      invariant v.Valid() && v.body.closed == old(v.body.closed)
      invariant old(Smooth(v.body.Now(), events)) && !v.body.closed ==> Smooth(v.body.Now(), rest)
      decreases |v.body.blob| - v.body.off
    {
      var r, tooLong;
      r, tooLong, rest := v.Read(4 * 1024 * 1024, rest);
      if tooLong { return false, rest; }
      if r.End? { return true, rest; }
      if !r.Data? { return false, rest; }
    }
  }

  /** Applying a layer (`applied` is what the decoder and the tar reader made of it) and closing its
      body both succeed exactly when the whole blob was read, it hashes to the descriptor's digest,
      and it has any declared size; whatever the network did meanwhile.  With a network that is good
      enough and a decoder that does not give up, matching bytes are all it takes. */
  method ConsumeLayer(v: VerifyingReader, demands: seq<Demand>, events: seq<Event>) returns (ok: bool, applied: bool)
    requires v.Valid() && !v.body.closed
    modifies v, v.body
    ensures v.Valid() && v.body.closed
    ensures ok <==> applied && v.eof && Matches(v.want, v.sha, v.body.blob)
    ensures applied ==> Content(demands)
    ensures v.overLimit ==> !Matches(v.want, v.sha, v.body.blob)
    ensures old(Smooth(v.body.Now(), events)) && Content(demands) ==>
              applied && (v.eof || v.overLimit) && (ok <==> Matches(v.want, v.sha, v.body.blob))
  {
    hide Smooth;
    var rest;
    var finished := false;
    applied, rest := Decode(v, demands, events);
    if applied { finished, rest := Finish(v, rest); }
    var closed := v.Close();
    ok := applied && finished && closed;
    assert v.body.blob[..|v.body.blob|] == v.body.blob;
  }

  /** The bytes are the ones the descriptor names. */
  ghost predicate Matches(want: Descriptor, sha: Bytes -> Bytes, blob: Bytes) {
    sha(blob) == want.digest && (want.size > 0 ==> |blob| == want.size)
  }
}
