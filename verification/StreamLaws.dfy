/** What a stream does to any handler, and where a message with an unknown id ends it. */
module StreamLaws {
  import opened Bytes
  import opened Messages
  import opened Framing
  import opened ReadLoops

  /** The handler on a list of messages, until one fails. */
  ghost function Dispatch<S>(h: Handler<S>, s: S, frames: seq<seq<byte>>): Handled<S>
    decreases |frames|
  {
    if frames == [] then Handled(s, Running)
    else
      var r := h(s, frames[0]);
      if r.status.Running? then Dispatch(h, r.state, frames[1..]) else r
  }

  /** Every complete message in front of something else reaches the handler, in order, until
      one fails; then the loop is where it would be on the rest alone. */
  lemma {:induction false} LoopDispatches<S>(h: Handler<S>, s: S, elements: seq<Element>, tail: seq<byte>)
    requires AllFrames(elements) && tail != []
    ensures var r, whole := Dispatch(h, s, FramesOf(elements)), Loop(h, s, BytesOf(elements) + tail);
            if r.status.Running? then whole == Loop(h, r.state, tail)
            else whole.state == r.state && whole.status == r.status
    decreases |elements|
  {
    if elements == [] {
      assert BytesOf(elements) + tail == tail;
    } else {
      var e, rest, more := BytesOfOne(elements[0]), elements[1..], BytesOf(elements[1..]) + tail;
      assert BytesOf(elements) + tail == e + more;
      if elements[0].Frame? {
        var frames := FramesOf(elements);
        assert frames[0] == e && frames[1..] == FramesOf(rest);
        LoopOnFrame(h, s, e, more);
        if h(s, e).status.Running? {
          LoopDispatches(h, h(s, e).state, rest, tail);
        }
      } else {
        assert FramesOf(elements) == FramesOf(rest);
        LoopSkipsKeepAlive(h, s, more);
        LoopDispatches(h, s, rest, tail);
      }
    }
  }

  /** A complete message with an id past the last one. */
  predicate IsUnknown(m: seq<byte>) {
    |m| >= BASE_SIZE && Get32(m) + LENGTH_SIZE == |m| && m[4] >= NUM_OF_TYPES
  }

  /** It is refused, whatever the handler and whatever follows. */
  lemma UnknownIdRefused<S>(h: Handler<S>, s: S, m: seq<byte>, more: seq<byte>)
    requires IsUnknown(m)
    ensures Loop(h, s, m + more) == Parse(true, s, m + more, Threw)
  {
    assert Get32(m + more) == Get32(m) && (m + more)[4] == m[4];
  }

  /** After a handshake, the messages before it reach the handler, nothing after it does, and
      the call throws. */
  lemma UnknownIdEndsStream<S>(h: Handler<S>, s: S, handshake: seq<byte>, elements: seq<Element>, m: seq<byte>,
                               more: seq<byte>)
    requires |handshake| == HANDSHAKE_SIZE && AllFrames(elements) && IsUnknown(m)
    ensures var r := Dispatch(h, s, FramesOf(elements));
            var whole := Process(h, false, s, handshake + (BytesOf(elements) + (m + more)));
            if r.status.Running? then whole == Parse(true, r.state, m + more, Threw)
            else whole.state == r.state && whole.status == r.status
  {
    var body := BytesOf(elements) + (m + more);
    assert (handshake + body)[HANDSHAKE_SIZE..] == body;
    LoopDispatches(h, s, elements, m + more);
    var r := Dispatch(h, s, FramesOf(elements));
    if r.status.Running? {
      UnknownIdRefused(h, r.state, m, more);
    }
  }

  /** A stream in which some call of process_message on all of it fails, for instance because
      of such a message, is not read to the end under any cut. */
  lemma FailingStreamNeverRead<S>(h: Handler<S>, shaken: bool, s: S, stream: seq<byte>, chunks: seq<seq<byte>>)
    requires Concat(chunks) == stream && !Process(h, shaken, s, stream).status.Running?
    ensures !ReadAll(h, shaken, s, [], chunks).end.Fine?
  {
    assert [] + Concat(chunks) == stream;
    if ReadAll(h, shaken, s, [], chunks).end.Fine? {
      FineReadIsOneCall(h, shaken, s, [], chunks);
    }
  }
}
