/**
 The Capsule Protocol (section 3 of RFC 9297): the wire form of a capsule and the
 decoder that reassembles capsules from whatever chunks the stream delivers.
 */
module CapsuleProtocol {
  import opened Common
  import Varint

  datatype Capsule = Capsule(kind: nat, value: Bytes)

  datatype Error =
    | ValueTooLarge(kind: nat, len: nat, max: nat)
    | IncompleteAtEndOfStream(buffered: nat)

  // ---------------------------------------------------------------------------
  // Encoding
  // ---------------------------------------------------------------------------

  /** A capsule that can be written: both header fields are varints by construction. */
  predicate Encodable(c: Capsule) {
    c.kind <= Varint.MAX && |c.value| <= Varint.MAX
  }

  function Header(kind: nat, len: nat): Bytes
    requires kind <= Varint.MAX && len <= Varint.MAX
  {
    Varint.Encode(kind).value + Varint.Encode(len).value
  }

  /** A capsule can be written exactly when its type and its length can. */
  lemma EncodableIs(c: Capsule)
    ensures Encodable(c) <==> Varint.Encode(c.kind).Ok? && Varint.Encode(|c.value|).Ok?
  {
  }

  function Encode(c: Capsule): (wire: Bytes)
    requires Encodable(c)
    ensures |wire| == Varint.EncodedLen(c.kind) + Varint.EncodedLen(|c.value|) + |c.value|
  {
    Header(c.kind, |c.value|) + c.value
  }

  function EncodeAll(cs: seq<Capsule>): Bytes
    requires forall c :: c in cs ==> Encodable(c)
  {
    if cs == [] then [] else Encode(cs[0]) + EncodeAll(cs[1..])
  }

  // ---------------------------------------------------------------------------
  // Decoding, as a function of the buffered bytes
  // ---------------------------------------------------------------------------

  datatype Step =
    | NeedMore
    | TooLarge(kind: nat, len: nat)
    | Got(capsule: Capsule, used: nat)

  /** What the head of the buffer says: not enough bytes, a length over the limit, or a capsule. */
  function Next(buf: Bytes, max: nat): (step: Step)
    ensures step.Got? ==> 0 < step.used <= |buf|
  {
    var kind := Varint.Decode(buf);
    if kind.UnexpectedEnd? then NeedMore
    else
      var len := Varint.Decode(buf[kind.len..]);
      if len.UnexpectedEnd? then NeedMore
      else if len.value > max then TooLarge(kind.value, len.value)
      else
        var header := kind.len + len.len;
        if |buf| < header + len.value then NeedMore
        else Got(Capsule(kind.value, buf[header..header + len.value]), header + len.value)
  }

  /** The outcome of popping capsules until none is complete: what came out, what is
      left in the buffer, and whether a declared length was over the limit. */
  datatype Drained = Drained(capsules: seq<Capsule>, rest: Bytes, error: Option<Error>)

  function Drain(buf: Bytes, max: nat): Drained
    decreases |buf|
  {
    match Next(buf, max)
    case NeedMore => Drained([], buf, None)
    case TooLarge(kind, len) => Drained([], buf, Some(ValueTooLarge(kind, len, max)))
    case Got(c, used) =>
      var more := Drain(buf[used..], max);
      Drained([c] + more.capsules, more.rest, more.error)
  }

  /** The same drain with capsules emitted before it. */
  function Prepend(capsules: seq<Capsule>, d: Drained): Drained {
    Drained(capsules + d.capsules, d.rest, d.error)
  }

  lemma PrependTwice(a: seq<Capsule>, b: seq<Capsule>, d: Drained)
    ensures Prepend(a, Prepend(b, d)) == Prepend(a + b, d)
  {
    assert a + (b + d.capsules) == (a + b) + d.capsules;
  }

  lemma DrainUnrolls(buf: Bytes, max: nat)
    ensures var step := Next(buf, max);
            Drain(buf, max) ==
              if step.NeedMore? then Drained([], buf, None)
              else if step.TooLarge? then Drained([], buf, Some(ValueTooLarge(step.kind, step.len, max)))
              else Prepend([step.capsule], Drain(buf[step.used..], max))
  {
  }

  lemma DrainOfNothing(max: nat)
    ensures Drain([], max) == Drained([], [], None)
  {
    assert Next([], max).NeedMore?;
  }

  /** How a stream ends: with the error that stopped it, or with the end-of-stream check. */
  function Verdict(d: Drained): Option<Error> {
    if d.error.Some? then d.error
    else if d.rest != [] then Some(IncompleteAtEndOfStream(|d.rest|))
    else None
  }

  /** Popping after `more` has arrived, given what an earlier drain left: an error stops the stream. */
  function Resume(d: Drained, more: Bytes, max: nat): Drained {
    if d.error.Some? then d.(rest := d.rest + more)
    else
      var next := Drain(d.rest + more, max);
      Drained(d.capsules + next.capsules, next.rest, next.error)
  }

  /** Push and drain, chunk by chunk. */
  function Feed(chunks: seq<Bytes>, max: nat): Drained {
    if chunks == [] then Drained([], [], None)
    else Resume(Feed(chunks[..|chunks| - 1], max), Last(chunks), max)
  }

  // ---------------------------------------------------------------------------
  // Chunk independence
  // ---------------------------------------------------------------------------

  /** A decision taken on the head of the buffer is not changed by later bytes. */
  lemma NextExtends(buf: Bytes, more: Bytes, max: nat)
    requires !Next(buf, max).NeedMore?
    ensures Next(buf + more, max) == Next(buf, max)
  {
    hide Varint.Decode;
    var kind := Varint.Decode(buf);
    assert (buf + more)[kind.len..] == buf[kind.len..] + more;
    Varint.DecodeExtends(buf, more);
    Varint.DecodeExtends(buf[kind.len..], more);
    if Next(buf, max).Got? {
      var header := kind.len + Varint.Decode(buf[kind.len..]).len;
      var used := Next(buf, max).used;
      assert (buf + more)[header..used] == buf[header..used];
    }
  }

  /** Draining can be split at any byte: the heart of chunk independence. */
  lemma {:induction false} DrainSplits(buf: Bytes, more: Bytes, max: nat)
    ensures Drain(buf + more, max) == Resume(Drain(buf, max), more, max)
    decreases |buf|
  {
    hide Next;
    match Next(buf, max)
    case NeedMore =>
    case TooLarge(_, _) =>
      NextExtends(buf, more, max);
    case Got(c, used) =>
      NextExtends(buf, more, max);
      DrainSplits(buf[used..], more, max);
      assert (buf + more)[used..] == buf[used..] + more;
      var d, e := Drain(buf, max), Drain(buf[used..], max);
      if e.error.None? {
        var next := Drain(e.rest + more, max);
        assert [c] + (e.capsules + next.capsules) == ([c] + e.capsules) + next.capsules;
      }
  }

  /** However a byte stream is cut into chunks, pushing and draining yields the same
      capsules, leaves the same bytes buffered, and ends with the same verdict as
      decoding the whole stream at once. */
  lemma {:induction false} ChunkIndependence(chunks: seq<Bytes>, max: nat)
    ensures Feed(chunks, max) == Drain(Flatten(chunks), max)
    ensures Verdict(Feed(chunks, max)) == Verdict(Drain(Flatten(chunks), max))
  {
    hide Next;
    if chunks == [] {
      DrainOfNothing(max);
    } else {
      var before := chunks[..|chunks| - 1];
      ChunkIndependence(before, max);
      DrainSplits(Flatten(before), Last(chunks), max);
      FlattenAppend(before, Last(chunks));
      assert chunks == before + [Last(chunks)];
    }
  }

  /** Two ways of cutting one stream cannot be told apart. */
  lemma SameStreamSameCapsules(a: seq<Bytes>, b: seq<Bytes>, max: nat)
    requires Flatten(a) == Flatten(b)
    ensures Feed(a, max) == Feed(b, max)
  {
    ChunkIndependence(a, max);
    ChunkIndependence(b, max);
  }

  lemma NextIsWithinTheLimit(buf: Bytes, max: nat)
    requires Next(buf, max).Got?
    ensures |Next(buf, max).capsule.value| <= max && Next(buf, max).capsule.kind <= Varint.MAX
  {
    Varint.DecodedValuesFit(buf);
  }

  /** What a drain leaves is a suffix of the input that holds no further complete
      capsule, and everything it emitted is within the limit. */
  lemma {:induction false} DrainAccounts(buf: Bytes, max: nat)
    ensures |Drain(buf, max).rest| <= |buf|
    ensures buf[|buf| - |Drain(buf, max).rest|..] == Drain(buf, max).rest
    ensures !Next(Drain(buf, max).rest, max).Got?
    ensures Drain(buf, max).error.Some? <==> Next(Drain(buf, max).rest, max).TooLarge?
    ensures forall c :: c in Drain(buf, max).capsules ==> |c.value| <= max && c.kind <= Varint.MAX
    decreases |buf|
  {
    hide Next, Drain;
    DrainUnrolls(buf, max);
    if Next(buf, max).Got? {
      var used := Next(buf, max).used;
      NextIsWithinTheLimit(buf, max);
      DrainAccounts(buf[used..], max);
      DropTwice(buf, used, |buf| - used - |Drain(buf, max).rest|);
    }
  }

  /** A drain that ends without error holds back at most a header less one byte plus a
      value: the buffer is bounded by the limit, not by the stream. */
  lemma {:induction false} BufferIsBounded(buf: Bytes, max: nat)
    requires Drain(buf, max).error.None?
    ensures |Drain(buf, max).rest| <= max + 15
  {
    hide Drain;
    DrainAccounts(buf, max);
  }

  /** The bound is reached for every limit a length can express: a header spelled as wide
      as it goes, and all of a longest value but its last byte. */
  lemma BufferBoundIsTight(max: nat)
    requires max <= Varint.MAX
    ensures exists buf: Bytes :: Drain(buf, max).error.None? && |Drain(buf, max).rest| == max + 15
  {
    hide Drain, Varint.Decode, Varint.Wide;
    var kind, len := Varint.Wide(0, 8), Varint.Wide(max, 8);
    var rest := if max == 0 then len[..7] else len + Zeros(max - 1);
    var buf := kind + rest;
    Varint.WideRoundTrip(0, 8, rest);
    Cut(kind, rest);
    if max == 0 {
      Varint.WideIsAnnounced(max, 8);
      Varint.TooShort(rest);
    } else {
      Varint.WideRoundTrip(max, 8, Zeros(max - 1));
    }
    assert Next(buf, max).NeedMore?;
    DrainUnrolls(buf, max);
  }

  function Zeros(n: nat): (s: Bytes)
    ensures |s| == n
  {
    if n == 0 then [] else Zeros(n - 1) + [0]
  }

  // ---------------------------------------------------------------------------
  // Round trip
  // ---------------------------------------------------------------------------

  lemma NextOfEncoded(c: Capsule, rest: Bytes, max: nat)
    requires Encodable(c)
    ensures |c.value| <= max ==> Next(Encode(c) + rest, max) == Got(c, |Encode(c)|)
    ensures |c.value| > max ==> Next(Encode(c) + rest, max) == TooLarge(c.kind, |c.value|)
  {
    var kind, len := Varint.Encode(c.kind).value, Varint.Encode(|c.value|).value;
    var wire := Encode(c) + rest;
    assert wire == kind + (len + (c.value + rest));
    Varint.RoundTrip(c.kind, len + (c.value + rest));
    Varint.RoundTrip(|c.value|, c.value + rest);
    assert wire[|kind|..] == len + (c.value + rest);
    var header := |kind| + |len|;
    assert wire[header..header + |c.value|] == c.value;
  }

  /** Any list of capsules within the limit decodes to itself, with nothing left over;
      and if bytes follow, decoding goes on with them. */
  lemma {:induction false} EncodedCapsulesDecode(cs: seq<Capsule>, more: Bytes, max: nat)
    requires forall c :: c in cs ==> Encodable(c) && |c.value| <= max
    ensures Drain(EncodeAll(cs) + more, max) == Prepend(cs, Drain(more, max))
  {
    hide Next, Drain, Encode;
    if cs == [] {
      assert EncodeAll(cs) + more == more;
    } else {
      var first, tail := Encode(cs[0]), EncodeAll(cs[1..]) + more;
      assert EncodeAll(cs) + more == first + tail;
      NextOfEncoded(cs[0], tail, max);
      DrainUnrolls(first + tail, max);
      assert (first + tail)[|first|..] == tail;
      EncodedCapsulesDecode(cs[1..], more, max);
      PrependTwice([cs[0]], cs[1..], Drain(more, max));
      assert [cs[0]] + cs[1..] == cs;
    }
  }

  /** Encode, cut anywhere, feed: the same capsules come out and the stream ends cleanly. */
  lemma RoundTripAcrossChunks(cs: seq<Capsule>, chunks: seq<Bytes>, max: nat)
    requires forall c :: c in cs ==> Encodable(c) && |c.value| <= max
    requires Flatten(chunks) == EncodeAll(cs)
    ensures Feed(chunks, max) == Drained(cs, [], None)
    ensures Verdict(Feed(chunks, max)).None?
  {
    ChunkIndependence(chunks, max);
    EncodedCapsulesDecode(cs, [], max);
    assert EncodeAll(cs) + [] == EncodeAll(cs);
    DrainOfNothing(max);
  }

  // ---------------------------------------------------------------------------
  // The decoder object
  // ---------------------------------------------------------------------------

  /** The streaming decoder. `pushed` is everything it was ever given and `emitted`
      everything it ever returned. */
  class CapsuleDecoder {
    var buf: Bytes
    const maxValueLen: nat
    ghost var pushed: Bytes
    ghost var emitted: seq<Capsule>

    /** What was emitted and what is buffered are, between them, the drain of the stream so far. */
    ghost predicate Valid()
      reads this
    {
      var d := Drain(buf, maxValueLen);
      Drain(pushed, maxValueLen) == Drained(emitted + d.capsules, d.rest, d.error)
    }

    constructor (maxValueLen: nat)
      ensures Valid() && buf == [] && pushed == [] && emitted == [] && this.maxValueLen == maxValueLen
    {
      this.maxValueLen := maxValueLen;
      buf, pushed, emitted := [], [], [];
    }

    method Push(chunk: Bytes)
      requires Valid()
      modifies this
      ensures Valid() && buf == old(buf) + chunk && pushed == old(pushed) + chunk && emitted == old(emitted)
    {
      hide Drain;
      DrainSplits(pushed, chunk, maxValueLen);
      DrainSplits(buf, chunk, maxValueLen);
      ghost var d := Drain(buf, maxValueLen);
      ghost var next := Drain(d.rest + chunk, maxValueLen);
      assert (emitted + d.capsules) + next.capsules == emitted + (d.capsules + next.capsules);
      buf := buf + chunk;
      pushed := pushed + chunk;
    }

    /** Pop the next complete capsule, if there is one. Nothing is consumed otherwise. */
    method NextCapsule() returns (r: Result<Option<Capsule>, Error>)
      requires Valid()
      modifies this
      ensures Valid() && pushed == old(pushed)
      ensures var step := Next(old(buf), maxValueLen);
              if step.Got? then
                r == Ok(Some(step.capsule)) && buf == old(buf)[step.used..] && emitted == old(emitted) + [step.capsule]
              else
                && buf == old(buf) && emitted == old(emitted)
                && r == if step.NeedMore? then Ok(None) else Err(ValueTooLarge(step.kind, step.len, maxValueLen))
    {
      hide Drain, Varint.Decode;
      DrainUnrolls(buf, maxValueLen);
      var kind := Varint.DecodeSlice(buf);
      if kind.UnexpectedEnd? {
        return Ok(None);
      }
      var len := Varint.DecodeSlice(buf[kind.len..]);
      if len.UnexpectedEnd? {
        return Ok(None);
      }
      if len.value > maxValueLen {
        return Err(ValueTooLarge(kind.value, len.value, maxValueLen));
      }
      var header := kind.len + len.len;
      var total := header + len.value;
      if |buf| < total {
        return Ok(None);
      }
      var c := Capsule(kind.value, buf[header..total]);
      PrependTwice(emitted, [c], Drain(buf[total..], maxValueLen));
      buf := buf[total..];
      emitted := emitted + [c];
      return Ok(Some(c));
    }

    /** Pop until nothing is complete: the loop every caller runs after a push. */
    method DrainBuffer() returns (capsules: seq<Capsule>, error: Option<Error>)
      requires Valid()
      modifies this
      ensures Valid() && pushed == old(pushed) && emitted == old(emitted) + capsules
      ensures Drain(old(buf), maxValueLen) == Drained(capsules, buf, error)
      ensures Drain(pushed, maxValueLen) == Drained(emitted, buf, error)
      ensures error.None? ==> |buf| <= maxValueLen + 15
    {
      hide Next, Drain;
      capsules := [];
      error := None;
      var done := false;
      while !done
        invariant Valid() && pushed == old(pushed) && emitted == old(emitted) + capsules
        invariant Drain(old(buf), maxValueLen) == Prepend(capsules, Drain(buf, maxValueLen))
        invariant if done then Drain(buf, maxValueLen) == Drained([], buf, error) else error == None
        decreases if done then 0 else |buf| + 1
      {
        DrainUnrolls(buf, maxValueLen);
        var r := NextCapsule();
        if r.Err? {
          error := Some(r.error);
          done := true;
        } else if r.value.None? {
          done := true;
        } else {
          PrependTwice(capsules, [r.value.value], Drain(buf, maxValueLen));
          capsules := capsules + [r.value.value];
        }
      }
      if error.None? {
        BufferIsBounded(old(buf), maxValueLen);
      }
    }

    method Finish() returns (error: Option<Error>)
      ensures error == if buf == [] then None else Some(IncompleteAtEndOfStream(|buf|))
    {
      if buf == [] {
        return None;
      }
      return Some(IncompleteAtEndOfStream(|buf|));
    }
  }

  /** Feed a whole stream to a fresh decoder in the given chunks, stopping at the first
      error, and close it: the outcome depends only on the bytes. */
  method DecodeStream(chunks: seq<Bytes>, max: nat) returns (capsules: seq<Capsule>, verdict: Option<Error>)
    ensures capsules == Drain(Flatten(chunks), max).capsules
    ensures verdict == Verdict(Drain(Flatten(chunks), max))
  {
    var decoder := new CapsuleDecoder(max);
    capsules := [];
    var i := 0;
    DrainOfNothing(max);
    while i < |chunks|
      invariant i <= |chunks| && decoder.Valid() && decoder.maxValueLen == max && fresh(decoder)
      invariant decoder.pushed == Flatten(chunks[..i]) && decoder.emitted == capsules
      invariant Drain(decoder.pushed, max) == Drained(capsules, decoder.buf, None)
    {
      FlattenAppend(chunks[..i], chunks[i]);
      assert chunks[..i + 1] == chunks[..i] + [chunks[i]];
      decoder.Push(chunks[i]);
      var more, error := decoder.DrainBuffer();
      capsules := capsules + more;
      if error.Some? {
        ErrorEndsTheStream(chunks, i + 1, max);
        return capsules, error;
      }
      i := i + 1;
    }
    assert chunks[..i] == chunks;
    verdict := decoder.Finish();
  }

  /** Once a prefix of the stream is in error, so is the stream, with the same capsules. */
  lemma ErrorEndsTheStream(chunks: seq<Bytes>, n: nat, max: nat)
    requires n <= |chunks| && Drain(Flatten(chunks[..n]), max).error.Some?
    ensures var d, e := Drain(Flatten(chunks), max), Drain(Flatten(chunks[..n]), max);
            d.capsules == e.capsules && d.error == e.error
  {
    FlattenSplits(chunks, n);
    DrainSplits(Flatten(chunks[..n]), Flatten(chunks[n..]), max);
  }

  lemma {:induction false} FlattenSplits(ss: seq<Bytes>, n: nat)
    requires n <= |ss|
    ensures Flatten(ss) == Flatten(ss[..n]) + Flatten(ss[n..])
  {
    if n == 0 {
      assert ss[..0] == [] && ss[0..] == ss;
    } else {
      FlattenSplits(ss[1..], n - 1);
      assert ss[1..][..n - 1] == ss[..n][1..];
      assert ss[1..][n - 1..] == ss[n..];
    }
  }
}
