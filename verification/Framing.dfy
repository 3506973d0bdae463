/** The incremental parser of the peer byte stream (PeerProtocol::process_message), for any
    message handler. */
module Framing {
  import opened Bytes
  import opened Messages

  const HANDSHAKE_SIZE := 68

  /** How a call ended. `Undefined` stands for C++ undefined behaviour in a handler. */
  datatype Status = Running | Threw | Undefined

  datatype Handled<S> = Handled(state: S, status: Status)

  /** What a call leaves: handshake seen or not, handler state, unconsumed bytes, outcome. */
  datatype Parse<S> = Parse(shaken: bool, state: S, rest: seq<byte>, status: Status)

  type Handler<!S> = (S, seq<byte>) -> Handled<S>

  /** The message loop, after the handshake. */
  ghost function Loop<S>(h: Handler<S>, s: S, buf: seq<byte>): (r: Parse<S>)
    ensures r.shaken && |r.rest| <= |buf|
    decreases |buf|
  {
    if |buf| <= LENGTH_SIZE then Parse(true, s, buf, Running)
    else
      var size := Get32(buf);
      if size == 0 then Loop(h, s, buf[LENGTH_SIZE..])
      else if size + LENGTH_SIZE > |buf| then Parse(true, s, buf, Running)
      else if buf[4] >= NUM_OF_TYPES then Parse(true, s, buf, Threw)
      else
        var r := h(s, buf[..size + LENGTH_SIZE]);
        if r.status.Running? then Loop(h, r.state, buf[size + LENGTH_SIZE..])
        else Parse(true, r.state, buf, r.status)
  }

  /** The loop on a complete frame and whatever follows it. */
  lemma LoopOnFrame<S>(h: Handler<S>, s: S, m: seq<byte>, more: seq<byte>)
    requires IsFrame(m)
    ensures var r := h(s, m);
            Loop(h, s, m + more) == if r.status.Running? then Loop(h, r.state, more)
                                    else Parse(true, r.state, m + more, r.status)
  {
    var buf := m + more;
    assert buf[..|m|] == m && buf[|m|..] == more && Get32(buf) == Get32(m);
  }

  /** The loop on part of a frame. */
  lemma LoopOnPart<S>(h: Handler<S>, s: S, m: seq<byte>, part: seq<byte>)
    requires IsFrame(m) && |part| < |m| && part == m[..|part|]
    ensures Loop(h, s, part) == Parse(true, s, part, Running)
  {
    if |part| > LENGTH_SIZE {
      assert Get32(part) == Get32(m);
    }
  }

  /** One call of process_message. */
  ghost function Process<S>(h: Handler<S>, shaken: bool, s: S, buf: seq<byte>): (r: Parse<S>)
    ensures |r.rest| <= |buf|
  {
    if shaken then Loop(h, s, buf)
    else if |buf| < HANDSHAKE_SIZE then Parse(false, s, buf, Running)
    else Loop(h, s, buf[HANDSHAKE_SIZE..])
  }

  lemma {:induction false} LoopAppend<S>(h: Handler<S>, s: S, a: seq<byte>, b: seq<byte>)
    ensures var r := Loop(h, s, a);
            Loop(h, s, a + b) == if r.status.Running? then Loop(h, r.state, r.rest + b)
                                 else Parse(true, r.state, r.rest + b, r.status)
    decreases |a|
  {
    if |a| > LENGTH_SIZE {
      var size := Get32(a);
      assert Get32(a + b) == size;
      if size == 0 {
        assert (a + b)[LENGTH_SIZE..] == a[LENGTH_SIZE..] + b;
        LoopAppend(h, s, a[LENGTH_SIZE..], b);
      } else if size + LENGTH_SIZE <= |a| && a[4] < NUM_OF_TYPES {
        assert (a + b)[..size + LENGTH_SIZE] == a[..size + LENGTH_SIZE];
        assert (a + b)[size + LENGTH_SIZE..] == a[size + LENGTH_SIZE..] + b;
        LoopAppend(h, h(s, a[..size + LENGTH_SIZE]).state, a[size + LENGTH_SIZE..], b);
      }
    }
  }

  /** Splitting the input in two changes nothing: the leftover of the first call, put in
      front of the second part, gives the result of one call on the whole. */
  lemma ProcessAppend<S>(h: Handler<S>, shaken: bool, s: S, a: seq<byte>, b: seq<byte>)
    ensures var r := Process(h, shaken, s, a);
            Process(h, shaken, s, a + b) == if r.status.Running? then Process(h, r.shaken, r.state, r.rest + b)
                                            else Parse(r.shaken, r.state, r.rest + b, r.status)
  {
    if shaken {
      LoopAppend(h, s, a, b);
    } else if |a| >= HANDSHAKE_SIZE {
      assert (a + b)[HANDSHAKE_SIZE..] == a[HANDSHAKE_SIZE..] + b;
      LoopAppend(h, s, a[HANDSHAKE_SIZE..], b);
    }
  }

  /** Reparsing a leftover does nothing. */
  lemma LeftoverIsStuck<S>(h: Handler<S>, shaken: bool, s: S, a: seq<byte>)
    requires Process(h, shaken, s, a).status.Running?
    ensures var r := Process(h, shaken, s, a); Process(h, r.shaken, r.state, r.rest) == r
  {
    ProcessAppend(h, shaken, s, a, []);
    assert a + [] == a;
    var r := Process(h, shaken, s, a);
    assert r.rest + [] == r.rest;
  }

  function Concat<T>(parts: seq<seq<T>>): seq<T> {
    if parts == [] then [] else parts[0] + Concat(parts[1..])
  }

  lemma {:induction false} ConcatAppend<T>(a: seq<seq<T>>, b: seq<seq<T>>)
    ensures Concat(a + b) == Concat(a) + Concat(b)
  {
    if a == [] {
      assert a + b == b;
    } else {
      assert (a + b)[1..] == a[1..] + b;
      ConcatAppend(a[1..], b);
    }
  }

  /** Repeated calls, the leftover carried forward, until the chunks run out or one fails. */
  ghost function Feed<S>(h: Handler<S>, shaken: bool, s: S, rest: seq<byte>, chunks: seq<seq<byte>>): Parse<S>
    decreases |chunks|
  {
    if chunks == [] then Parse(shaken, s, rest, Running)
    else
      var r := Process(h, shaken, s, rest + chunks[0]);
      if r.status.Running? then Feed(h, r.shaken, r.state, r.rest, chunks[1..]) else r
  }

  /** Framing does not depend on how the stream was cut: any sequence of chunks leaves the
      same handler state and outcome, and while running the same leftover, as one call on
      all the bytes. */
  lemma {:induction false} ChunkingIrrelevant<S>(h: Handler<S>, shaken: bool, s: S, rest: seq<byte>,
                                                 chunks: seq<seq<byte>>)
    requires Process(h, shaken, s, rest) == Parse(shaken, s, rest, Running)
    ensures var fed, whole := Feed(h, shaken, s, rest, chunks), Process(h, shaken, s, rest + Concat(chunks));
            && fed.(rest := []) == whole.(rest := [])
            && (fed.status.Running? ==> fed.rest == whole.rest)
    decreases |chunks|
  {
    if chunks == [] {
      assert rest + Concat(chunks) == rest;
    } else {
      var r := Process(h, shaken, s, rest + chunks[0]);
      ProcessAppend(h, shaken, s, rest + chunks[0], Concat(chunks[1..]));
      assert rest + chunks[0] + Concat(chunks[1..]) == rest + Concat(chunks);
      if r.status.Running? {
        LeftoverIsStuck(h, shaken, s, rest + chunks[0]);
        ChunkingIrrelevant(h, r.shaken, r.state, r.rest, chunks[1..]);
      }
    }
  }

  // ----- the stream the client writes

  /** A handler that only remembers the frames it was given. */
  function Record(seen: seq<seq<byte>>, frame: seq<byte>): Handled<seq<seq<byte>>> {
    Handled(seen + [frame], Running)
  }

  /** A message on the wire: a frame, or a keep-alive of four zero bytes. */
  datatype Element = Frame(bytes: seq<byte>) | KeepAlive

  const KEEP_ALIVE: seq<byte> := [0, 0, 0, 0]

  function BytesOf(elements: seq<Element>): seq<byte> {
    if elements == [] then []
    else (if elements[0].Frame? then elements[0].bytes else KEEP_ALIVE) + BytesOf(elements[1..])
  }

  function FramesOf(elements: seq<Element>): seq<seq<byte>> {
    if elements == [] then []
    else (if elements[0].Frame? then [elements[0].bytes] else []) + FramesOf(elements[1..])
  }

  lemma LoopTakesFrame(seen: seq<seq<byte>>, m: seq<byte>, more: seq<byte>)
    requires IsFrame(m)
    ensures Loop(Record, seen, m + more) == Loop(Record, seen + [m], more)
  {
    LoopOnFrame(Record, seen, m, more);
  }

  /** A keep-alive is skipped, once something follows it. */
  lemma LoopSkipsKeepAlive<S>(h: Handler<S>, s: S, more: seq<byte>)
    requires more != []
    ensures Loop(h, s, KEEP_ALIVE + more) == Loop(h, s, more)
  {
    var buf := KEEP_ALIVE + more;
    assert buf[4..] == more && Get32(buf) == Get32(KEEP_ALIVE) == 0;
  }

  /** The loop gives the handler exactly the frames, in order, skips keep-alives, and then is
      where it would be on the rest alone. A keep-alive that ends the input is not yet
      skipped: the loop wants a fifth byte. */
  lemma {:induction false} StreamDispatched(seen: seq<seq<byte>>, elements: seq<Element>, tail: seq<byte>)
    requires forall i :: 0 <= i < |elements| && elements[i].Frame? ==> IsFrame(elements[i].bytes)
    requires tail == [] && elements != [] ==> elements[|elements| - 1].Frame?
    ensures Loop(Record, seen, BytesOf(elements) + tail) == Loop(Record, seen + FramesOf(elements), tail)
    decreases |elements|
  {
    if elements == [] {
      assert [] + tail == tail && seen + [] == seen;
    } else {
      var rest := elements[1..];
      var more := BytesOf(rest) + tail;
      FirstElement(seen, elements, tail);
      if elements[0].Frame? {
        LoopTakesFrame(seen, elements[0].bytes, more);
        StreamDispatched(seen + [elements[0].bytes], rest, tail);
      } else {
        SomethingLeft(rest, tail);
        LoopSkipsKeepAlive(Record, seen, more);
        StreamDispatched(seen, rest, tail);
      }
    }
  }

  lemma FirstElement(seen: seq<seq<byte>>, elements: seq<Element>, tail: seq<byte>)
    requires elements != []
    ensures elements[0].Frame? ==> BytesOf(elements) + tail == elements[0].bytes + (BytesOf(elements[1..]) + tail)
    ensures elements[0].KeepAlive? ==> BytesOf(elements) + tail == KEEP_ALIVE + (BytesOf(elements[1..]) + tail)
    ensures elements[0].Frame? ==> seen + FramesOf(elements) == seen + [elements[0].bytes] + FramesOf(elements[1..])
    ensures elements[0].KeepAlive? ==> FramesOf(elements) == FramesOf(elements[1..])
  {
    var rest := BytesOf(elements[1..]);
    if elements[0].Frame? {
      Associate(elements[0].bytes, rest, tail);
      Associate(seen, [elements[0].bytes], FramesOf(elements[1..]));
    } else {
      Associate(KEEP_ALIVE, rest, tail);
    }
  }

  lemma Associate<T>(a: seq<T>, b: seq<T>, c: seq<T>)
    ensures a + b + c == a + (b + c)
  {
  }

  lemma SomethingLeft(elements: seq<Element>, tail: seq<byte>)
    requires forall i :: 0 <= i < |elements| && elements[i].Frame? ==> IsFrame(elements[i].bytes)
    requires elements != [] || tail != []
    ensures BytesOf(elements) + tail != []
  {
    if elements != [] {
      assert elements[0].KeepAlive? || IsFrame(elements[0].bytes);
      assert |BytesOf(elements)| > 0;
    }
  }

  function AsElements(frames: seq<seq<byte>>): seq<Element> {
    seq(|frames|, i requires 0 <= i < |frames| => Frame(frames[i]))
  }

  lemma {:induction false} FramesAsElements(frames: seq<seq<byte>>)
    ensures BytesOf(AsElements(frames)) == Concat(frames) && FramesOf(AsElements(frames)) == frames
    decreases |frames|
  {
    if frames != [] {
      assert AsElements(frames)[1..] == AsElements(frames[1..]);
      FramesAsElements(frames[1..]);
      assert [frames[0]] + frames[1..] == frames;
    }
  }

  /** A handshake followed by frames parses back to exactly those frames, nothing left over. */
  lemma StreamParsesBack(handshake: seq<byte>, frames: seq<seq<byte>>)
    requires |handshake| == HANDSHAKE_SIZE
    requires forall i :: 0 <= i < |frames| ==> IsFrame(frames[i])
    ensures Process(Record, false, [], handshake + Concat(frames)) == Parse(true, frames, [], Running)
  {
    assert (handshake + Concat(frames))[HANDSHAKE_SIZE..] == Concat(frames);
    FramesAsElements(frames);
    StreamDispatched([], AsElements(frames), []);
    assert Concat(frames) + [] == Concat(frames) && [] + frames == frames;
  }
}
