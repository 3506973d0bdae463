/** The loop of the read callback, for any message handler and any cut of the stream
    (ClientLogic::on_read). */
module ReadLoops {
  import opened Bytes
  import opened Messages
  import opened Framing

  const CAPACITY: nat := 500000

  /** How a read callback ended; all but `Fine` are thrown. */
  datatype ReadEnd = Fine | Refused | EarlyReject | BufferFull

  datatype ReadState<S> = ReadState(shaken: bool, state: S, buf: seq<byte>, end: ReadEnd)

  /** How a turn ends: the parse threw, the early check or the space check did, or none. */
  ghost function TurnEnd<S>(r: Parse<S>, all: seq<byte>): ReadEnd {
    if !r.status.Running? then Refused
    else if |r.rest| == |all| && |all| > 5 && all[4] > 8 then EarlyReject
    else if |r.rest| == CAPACITY then BufferFull
    else Fine
  }

  /** One turn of the read loop: append a chunk, parse, compact. */
  ghost function ReadOne<S>(h: Handler<S>, shaken: bool, s: S, buf: seq<byte>, chunk: seq<byte>): ReadState<S> {
    var all := buf + chunk;
    var r := Process(h, shaken, s, all);
    ReadState(r.shaken, r.state, if r.status.Running? then r.rest else all, TurnEnd(r, all))
  }

  /** The read loop on the chunks the socket happens to return, for any message handler. */
  ghost function ReadAll<S>(h: Handler<S>, shaken: bool, s: S, buf: seq<byte>, chunks: seq<seq<byte>>): ReadState<S>
    decreases |chunks|
  {
    if chunks == [] then ReadState(shaken, s, buf, Fine)
    else
      var r := ReadOne(h, shaken, s, buf, chunks[0]);
      if r.end.Fine? then ReadAll(h, r.shaken, r.state, r.buf, chunks[1..]) else r
  }

  ghost function TakeOne<S>(h: Handler<S>, r: ReadState<S>, chunk: seq<byte>): ReadState<S> {
    ReadOne(h, r.shaken, r.state, r.buf, chunk)
  }

  ghost function TakeAll<S>(h: Handler<S>, r: ReadState<S>, chunks: seq<seq<byte>>): ReadState<S> {
    ReadAll(h, r.shaken, r.state, r.buf, chunks)
  }

  /** Reading goes on from where the first chunks left it. */
  lemma {:induction false} ReadAllSplit<S>(h: Handler<S>, shaken: bool, s: S, buf: seq<byte>,
                                           first: seq<seq<byte>>, more: seq<seq<byte>>)
    requires ReadAll(h, shaken, s, buf, first).end.Fine?
    ensures var r := ReadAll(h, shaken, s, buf, first);
            ReadAll(h, shaken, s, buf, first + more) == ReadAll(h, r.shaken, r.state, r.buf, more)
    decreases |first|
  {
    if first == [] {
      assert first + more == more;
    } else {
      assert (first + more)[0] == first[0] && (first + more)[1..] == first[1..] + more;
      var r := ReadOne(h, shaken, s, buf, first[0]);
      ReadAllSplit(h, r.shaken, r.state, r.buf, first[1..], more);
    }
  }

  lemma ReadAllThenOne<S>(h: Handler<S>, shaken: bool, s: S, buf: seq<byte>, chunks: seq<seq<byte>>, chunk: seq<byte>)
    requires ReadAll(h, shaken, s, buf, chunks).end.Fine?
    ensures var r := ReadAll(h, shaken, s, buf, chunks);
            ReadAll(h, shaken, s, buf, chunks + [chunk]) == ReadOne(h, r.shaken, r.state, r.buf, chunk)
  {
    ReadAllSplit(h, shaken, s, buf, chunks, [chunk]);
    var r := ReadAll(h, shaken, s, buf, chunks);
    var last: seq<seq<byte>> := [chunk];
    assert last[1..] == [];
    assert ReadAll(h, r.shaken, r.state, r.buf, last) == ReadOne(h, r.shaken, r.state, r.buf, chunk);
  }

  /** The buffer between callbacks holds only an incomplete message. */
  ghost predicate Settled<S>(h: Handler<S>, shaken: bool, s: S, buf: seq<byte>) {
    Process(h, shaken, s, buf) == Parse(shaken, s, buf, Running)
  }

  /** Whether it does depends on nothing but the bytes. */
  lemma SettledInAnyState<S>(h: Handler<S>, shaken: bool, s: S, t: S, buf: seq<byte>)
    requires Settled(h, shaken, s, buf)
    ensures Settled(h, shaken, t, buf)
  {
    if shaken && |buf| > LENGTH_SIZE {
      var size := Get32(buf);
      assert size != 0 && size + LENGTH_SIZE > |buf|;
    }
  }

  lemma FineTurn<S>(h: Handler<S>, shaken: bool, s: S, buf: seq<byte>, chunk: seq<byte>, tail: seq<byte>)
    requires ReadOne(h, shaken, s, buf, chunk).end.Fine?
    ensures var r := ReadOne(h, shaken, s, buf, chunk);
            && Settled(h, r.shaken, r.state, r.buf)
            && Process(h, shaken, s, buf + (chunk + tail)) == Process(h, r.shaken, r.state, r.buf + tail)
  {
    LeftoverIsStuck(h, shaken, s, buf + chunk);
    ProcessAppend(h, shaken, s, buf + chunk, tail);
    assert buf + chunk + tail == buf + (chunk + tail);
  }

  /** A read callback that does not throw has the effect of one call of process_message on
      everything it read, however the bytes were cut. */
  lemma {:induction false} FineReadIsOneCall<S>(h: Handler<S>, shaken: bool, s: S, buf: seq<byte>,
                                                chunks: seq<seq<byte>>)
    requires Settled(h, shaken, s, buf) && ReadAll(h, shaken, s, buf, chunks).end.Fine?
    ensures var r := ReadAll(h, shaken, s, buf, chunks);
            && Process(h, shaken, s, buf + Concat(chunks)) == Parse(r.shaken, r.state, r.buf, Running)
            && Settled(h, r.shaken, r.state, r.buf)
    decreases |chunks|
  {
    if chunks == [] {
      assert buf + Concat(chunks) == buf;
    } else {
      var r := ReadOne(h, shaken, s, buf, chunks[0]);
      FineTurn(h, shaken, s, buf, chunks[0], Concat(chunks[1..]));
      FineReadIsOneCall(h, r.shaken, r.state, r.buf, chunks[1..]);
    }
  }

  // ----- one turn on a stream of messages

  /** A leftover that neither the early check nor the space check refuses. */
  predicate Quiet(rest: seq<byte>) {
    |rest| < CAPACITY && (|rest| > 5 ==> rest[4] <= 8)
  }

  /** A message no part of which is refused: it fits the buffer, and its id is one the early
      check allows or the message is too short for the check. */
  predicate PlainFrame(m: seq<byte>)
    requires IsFrame(m)
  {
    |m| <= CAPACITY && (m[4] <= 8 || |m| <= 6)
  }

  ghost predicate AllFrames(elements: seq<Element>) {
    forall i :: 0 <= i < |elements| && elements[i].Frame? ==> IsFrame(elements[i].bytes)
  }

  ghost predicate AllPlain(elements: seq<Element>)
    requires AllFrames(elements)
  {
    forall i :: 0 <= i < |elements| && elements[i].Frame? ==> PlainFrame(elements[i].bytes)
  }

  /** The part of message m that has arrived. */
  predicate IsPart(part: seq<byte>, m: seq<byte>) {
    IsFrame(m) && |part| < |m| && part == m[..|part|]
  }

  lemma PrefixOfSum<T>(b: seq<T>, x: seq<T>, y: seq<T>)
    requires b <= x + y
    ensures |b| < |x| ==> b == x[..|b|]
    ensures |b| >= |x| ==> b == x + b[|x|..] && b[|x|..] <= y
  {
    if |b| >= |x| {
      assert b[..|x|] == (x + y)[..|x|] == x;
      assert b[|x|..] == (x + y)[|x|..|b|];
      assert (x + y)[|x|..|b|] == y[..|b| - |x|];
    } else {
      assert b == (x + y)[..|b|] == x[..|b|];
    }
  }

  function BytesOfOne(e: Element): seq<byte> {
    if e.Frame? then e.bytes else KEEP_ALIVE
  }

  /** Whatever part of a plain stream has arrived, what is left over is quiet. */
  lemma {:induction false} LeftoverIsPlain<S>(h: Handler<S>, s: S, elements: seq<Element>, part: seq<byte>,
                                              m: seq<byte>,
                                              b: seq<byte>)
    requires AllFrames(elements) && AllPlain(elements) && IsPart(part, m) && Quiet(part)
    requires b <= BytesOf(elements) + part && Loop(h, s, b).status.Running?
    ensures Quiet(Loop(h, s, b).rest)
    decreases |elements|
  {
    if elements == [] {
      assert BytesOf(elements) + part == part;
      LoopOnPart(h, s, m, b);
    } else {
      var e, tail := BytesOfOne(elements[0]), BytesOf(elements[1..]) + part;
      assert BytesOf(elements) + part == e + tail;
      PrefixOfSum(b, e, tail);
      if |b| < |e| || b == e {
        PartLeftover(h, s, elements[0], b);
      } else {
        var rest := b[|e|..];
        var t := ElementTaken(h, s, elements[0], e, rest);
        LeftoverIsPlain(h, t, elements[1..], part, m, rest);
      }
    }
  }

  lemma PartLeftover<S>(h: Handler<S>, s: S, element: Element, b: seq<byte>)
    requires element.Frame? ==> IsFrame(element.bytes) && PlainFrame(element.bytes)
    requires b <= BytesOfOne(element) && Loop(h, s, b).status.Running?
    ensures Quiet(Loop(h, s, b).rest)
  {
    if b == BytesOfOne(element) && element.Frame? {
      LoopOnFrame(h, s, b, []);
      assert b + [] == b;
    } else if element.Frame? {
      LoopOnPart(h, s, element.bytes, b);
    }
  }

  /** What a complete element leaves to do. */
  lemma ElementTaken<S>(h: Handler<S>, s: S, element: Element, e: seq<byte>, rest: seq<byte>) returns (t: S)
    requires (element.Frame? ==> IsFrame(element.bytes)) && e == BytesOfOne(element) && rest != []
    requires Loop(h, s, e + rest).status.Running?
    ensures Loop(h, s, e + rest) == Loop(h, t, rest)
  {
    if element.Frame? {
      LoopOnFrame(h, s, e, rest);
      t := h(s, e).state;
    } else {
      LoopSkipsKeepAlive(h, s, rest);
      t := s;
    }
  }

  /** One turn, when everything seen so far has been parsed as by one call. */
  lemma TurnIsParse<S>(h: Handler<S>, s0: S, seen: seq<byte>, s: S, buf: seq<byte>, chunk: seq<byte>, more: seq<byte>)
    requires Loop(h, s0, seen) == Parse(true, s, buf, Running) && Loop(h, s0, seen + chunk + more).status.Running?
    ensures Loop(h, s0, seen + chunk) == Loop(h, s, buf + chunk) && Loop(h, s, buf + chunk).status.Running?
    ensures var r := Loop(h, s, buf + chunk);
            Quiet(r.rest) ==> ReadOne(h, true, s, buf, chunk) == ReadState(true, r.state, r.rest, Fine)
  {
    LoopAppend(h, s0, seen, chunk);
    LoopAppend(h, s0, seen + chunk, more);
    LoopRest(h, s, buf + chunk);
  }

  lemma {:induction false} LoopRest<S>(h: Handler<S>, s: S, buf: seq<byte>)
    ensures |Loop(h, s, buf).rest| == |buf| ==> Loop(h, s, buf).rest == buf
    decreases |buf|
  {
  }

  /** After the handshake, a plain stream is never refused by the early check or for space,
      whatever the cut: unless a handler fails, reading it is one parse of it. */
  lemma {:induction false} PlainStreamAlwaysRead<S>(h: Handler<S>, s0: S, elements: seq<Element>, part: seq<byte>,
                                                    m: seq<byte>,
                                                    seen: seq<byte>, s: S, buf: seq<byte>, chunks: seq<seq<byte>>)
    requires AllFrames(elements) && AllPlain(elements) && IsPart(part, m) && Quiet(part)
    requires seen + Concat(chunks) <= BytesOf(elements) + part
    requires Loop(h, s0, seen) == Parse(true, s, buf, Running)
    requires Loop(h, s0, seen + Concat(chunks)).status.Running?
    ensures var r := Loop(h, s0, seen + Concat(chunks));
            ReadAll(h, true, s, buf, chunks) == ReadState(true, r.state, r.rest, Fine)
    decreases |chunks|
  {
    if chunks == [] {
      assert seen + Concat(chunks) == seen;
    } else {
      var more := Concat(chunks[1..]);
      var now := seen + chunks[0];
      assert seen + Concat(chunks) == now + more;
      assert now <= BytesOf(elements) + part by { assert now == (now + more)[..|now|]; }
      TurnIsParse(h, s0, seen, s, buf, chunks[0], more);
      LeftoverIsPlain(h, s0, elements, part, m, now);
      var r := Loop(h, s0, now);
      PlainStreamAlwaysRead(h, s0, elements, part, m, now, r.state, r.rest, chunks[1..]);
    }
  }

  // ----- every cut

  function Bytewise(b: seq<byte>): (r: seq<seq<byte>>)
    ensures |r| == |b| && forall i :: 0 <= i < |b| ==> r[i] == [b[i]]
  {
    seq(|b|, i requires 0 <= i < |b| => [b[i]])
  }

  lemma {:induction false} BytewiseConcat(b: seq<byte>)
    ensures Concat(Bytewise(b)) == b
    decreases |b|
  {
    if b != [] {
      assert Bytewise(b)[1..] == Bytewise(b[1..]);
      BytewiseConcat(b[1..]);
      assert [b[0]] + b[1..] == b;
    }
  }

  lemma {:induction false} BytesOfAppend(a: seq<Element>, b: seq<Element>)
    ensures BytesOf(a + b) == BytesOf(a) + BytesOf(b)
    decreases |a|
  {
    if a == [] {
      assert a + b == b;
    } else {
      assert (a + b)[0] == a[0] && (a + b)[1..] == a[1..] + b;
      BytesOfAppend(a[1..], b);
    }
  }

  /** Complete messages in front of something else are consumed, if their handlers run. */
  lemma {:induction false} LoopReaches<S>(h: Handler<S>, s: S, elements: seq<Element>, tail: seq<byte>) returns (t: S)
    requires AllFrames(elements) && tail != [] && Loop(h, s, BytesOf(elements) + tail).status.Running?
    ensures Loop(h, s, BytesOf(elements) + tail) == Loop(h, t, tail)
    decreases |elements|
  {
    if elements == [] {
      assert BytesOf(elements) + tail == tail;
      t := s;
    } else {
      var e, rest := BytesOfOne(elements[0]), BytesOf(elements[1..]) + tail;
      assert BytesOf(elements) + tail == e + rest;
      t := ElementTaken(h, s, elements[0], e, rest);
      t := LoopReaches(h, t, elements[1..], tail);
    }
  }

  /** How many bytes of a message that is not plain are needed to be refused. */
  function RefusedAt(m: seq<byte>): (n: nat)
    requires IsFrame(m) && !PlainFrame(m)
    ensures 6 <= n < |m| && n <= CAPACITY && Quiet(m[..n - 1])
  {
    if m[4] > 8 && |m| > 6 then 6 else CAPACITY
  }

  predicate TurnedDown(end: ReadEnd) {
    end.EarlyReject? || end.BufferFull?
  }

  /** The turn that has got just that many bytes throws, although nothing is wrong yet. */
  lemma PartRefused<S>(h: Handler<S>, s: S, m: seq<byte>, n: nat)
    requires IsFrame(m) && !PlainFrame(m) && n == RefusedAt(m)
    ensures TurnedDown(ReadOne(h, true, s, m[..n - 1], [m[n - 1]]).end)
  {
    var part := m[..n];
    assert m[..n - 1] + [m[n - 1]] == part;
    LoopOnPart(h, s, m, part);
    assert part[4] == m[4];
  }

  /** Any cut that stops just before that byte and then gives it alone is refused. */
  lemma CutRefused<S>(h: Handler<S>, s: S, elements: seq<Element>, m: seq<byte>, n: nat, before: seq<byte>,
                      first: seq<seq<byte>>, last: seq<seq<byte>>)
    requires AllFrames(elements) && AllPlain(elements) && IsFrame(m) && !PlainFrame(m) && n == RefusedAt(m)
    requires before == BytesOf(elements) + m[..n - 1] && Concat(first) == before
    requires last != [] && last[0] == [m[n - 1]]
    requires Loop(h, s, before).status.Running?
    ensures TurnedDown(ReadAll(h, true, s, [], first + last).end)
  {
    var t := ReachesPart(h, s, elements, m, m[..n - 1], before, first);
    ReadAllSplit(h, true, s, [], first, last);
    PartRefused(h, t, m, n);
  }

  lemma ReachesPart<S>(h: Handler<S>, s: S, elements: seq<Element>, m: seq<byte>, part: seq<byte>, before: seq<byte>,
                       first: seq<seq<byte>>) returns (t: S)
    requires AllFrames(elements) && AllPlain(elements) && IsPart(part, m) && Quiet(part) && part != []
    requires before == BytesOf(elements) + part && Concat(first) == before && Loop(h, s, before).status.Running?
    ensures ReadAll(h, true, s, [], first) == ReadState(true, t, part, Fine)
  {
    t := LoopReaches(h, s, elements, part);
    LoopOnPart(h, t, m, part);
    assert [] + Concat(first) == before;
    PlainStreamAlwaysRead(h, s, elements, part, m, [], s, [], first);
  }

  /** The first message that is not plain, and what is around it. */
  lemma {:induction false} FirstOdd(elements: seq<Element>) returns (k: nat)
    requires AllFrames(elements) && !AllPlain(elements)
    ensures k < |elements| && elements[k].Frame? && !PlainFrame(elements[k].bytes)
    ensures AllFrames(elements[..k]) && AllPlain(elements[..k])
    decreases |elements|
  {
    var m := |elements| - 1;
    var front := elements[..m];
    if AllPlain(front) {
      k := m;
    } else {
      k := FirstOdd(front);
      assert elements[..k] == front[..k];
    }
  }

  lemma AroundOdd(elements: seq<Element>, k: nat, m: seq<byte>, n: nat, before: seq<byte>, last: seq<byte>)
    returns (after: seq<byte>)
    requires AllFrames(elements) && k < |elements| && elements[k] == Frame(m) && 0 < n <= |m|
    requires before == BytesOf(elements[..k]) + m[..n - 1] && last == [m[n - 1]]
    ensures BytesOf(elements) == before + (last + after)
  {
    var front, rest := elements[..k], elements[k..];
    assert elements == front + rest && rest[0] == Frame(m);
    BytesOfAppend(front, rest);
    after := m[n..] + BytesOf(rest[1..]);
    Regroup(BytesOf(front), m, n, BytesOf(rest[1..]));
  }

  lemma Regroup(a: seq<byte>, m: seq<byte>, n: nat, c: seq<byte>)
    requires 0 < n <= |m|
    ensures a + (m + c) == a + m[..n - 1] + ([m[n - 1]] + (m[n..] + c))
  {
  }

  lemma BytewiseSplit(a: seq<byte>, b: byte, c: seq<byte>)
    ensures Bytewise(a + ([b] + c)) == Bytewise(a) + ([[b]] + Bytewise(c))
  {
  }

  /** A stream with a message that is not plain is refused when it comes byte by byte. */
  lemma BytewiseRefused<S>(h: Handler<S>, s: S, elements: seq<Element>, stream: seq<byte>)
    requires AllFrames(elements) && !AllPlain(elements) && stream == BytesOf(elements)
             && Loop(h, s, stream).status.Running?
    ensures TurnedDown(ReadAll(h, true, s, [], Bytewise(stream)).end)
  {
    var k := FirstOdd(elements);
    var m := elements[k].bytes;
    var n := RefusedAt(m);
    var before, last := BytesOf(elements[..k]) + m[..n - 1], m[n - 1];
    var after := AroundOdd(elements, k, m, n, before, [last]);
    LoopAppend(h, s, before, [last] + after);
    BytewiseConcat(before);
    BytewiseSplit(before, last, after);
    CutRefused(h, s, elements[..k], m, n, before, Bytewise(before), [[last]] + Bytewise(after));
  }

  /** A stream of complete messages and keep-alives is read under every cut if and only if
      each message fits the buffer and has an id up to CANCEL or at most six bytes. */
  lemma EveryCutReadIff<S>(h: Handler<S>, s: S, elements: seq<Element>, stream: seq<byte>)
    requires AllFrames(elements) && stream == BytesOf(elements) && Loop(h, s, stream).status.Running?
    ensures (forall chunks: seq<seq<byte>> :: Concat(chunks) == stream ==> ReadAll(h, true, s, [], chunks).end.Fine?)
            <==> AllPlain(elements)
  {
    if AllPlain(elements) {
      forall chunks: seq<seq<byte>> | Concat(chunks) == stream ensures ReadAll(h, true, s, [], chunks).end.Fine? {
        PlainCutRead(h, s, elements, stream, chunks);
      }
    } else {
      BytewiseConcat(stream);
      BytewiseRefused(h, s, elements, stream);
    }
  }

  lemma PlainCutRead<S>(h: Handler<S>, s: S, elements: seq<Element>, stream: seq<byte>, chunks: seq<seq<byte>>)
    requires AllFrames(elements) && AllPlain(elements) && stream == BytesOf(elements)
             && Loop(h, s, stream).status.Running?
    requires Concat(chunks) == stream
    ensures ReadAll(h, true, s, [], chunks).end.Fine?
  {
    InterestedIsFrame();
    assert [] + Concat(chunks) == stream && BytesOf(elements) + [] == stream;
    PlainStreamAlwaysRead(h, s, elements, [], INTERESTED_MESSAGE, [], s, [], chunks);
  }

  lemma {:induction false} CompleteStreamLeaves<S>(h: Handler<S>, s: S, elements: seq<Element>)
    requires AllFrames(elements) && Loop(h, s, BytesOf(elements)).status.Running?
    ensures |Loop(h, s, BytesOf(elements)).rest| <= LENGTH_SIZE
    decreases |elements|
  {
    if elements != [] {
      var e, rest := BytesOfOne(elements[0]), BytesOf(elements[1..]);
      if elements[0].Frame? {
        LoopOnFrame(h, s, e, rest);
        CompleteStreamLeaves(h, h(s, e).state, elements[1..]);
      } else if rest != [] {
        LoopSkipsKeepAlive(h, s, rest);
        CompleteStreamLeaves(h, s, elements[1..]);
      }
    }
  }

  /** In one part it is always read, plain or not. */
  lemma WholeStreamRead<S>(h: Handler<S>, s: S, elements: seq<Element>, stream: seq<byte>)
    requires AllFrames(elements) && stream == BytesOf(elements) && Loop(h, s, stream).status.Running?
    ensures ReadAll(h, true, s, [], [stream]).end.Fine?
  {
    CompleteStreamLeaves(h, s, elements);
    assert [] + stream == stream;
    assert ReadOne(h, true, s, [], stream).end.Fine?;
    assert ReadAll(h, true, s, [], []).end.Fine?;
    ReadAllThenOne(h, true, s, [], [], stream);
    assert [] + [stream] == [stream];
  }

  /** A PORT message, the one known message the early check forgets, is refused when its last
      byte comes apart. */
  lemma PortSeesTheCut<S>(h: Handler<S>, s: S, port: seq<byte>)
    requires port == [0, 0, 0, 3, 9, 1, 2] && h(s, port).status.Running?
    ensures IsFrame(port) && ReadAll(h, true, s, [], [port]).end.Fine?
    ensures ReadAll(h, true, s, [], [port[..6], port[6..]]).end.EarlyReject?
  {
    var one := [Frame(port)];
    assert one[1..] == [] && BytesOf(one) == port + [] == port;
    LoopOnFrame(h, s, port, []);
    WholeStreamRead(h, s, one, port);
    assert [] + port[..6] == port[..6];
    LoopOnPart(h, s, port, port[..6]);
    var chunks: seq<seq<byte>> := [port[..6], port[6..]];
    assert chunks[0] == port[..6];
  }

  // ----- the handshake

  /** After some chunk, six to sixty-seven bytes have arrived, starting from `at`. */
  predicate StopsInside(at: nat, chunks: seq<seq<byte>>)
    decreases |chunks|
  {
    || 5 < at < HANDSHAKE_SIZE
    || (chunks != [] && StopsInside(at + |chunks[0]|, chunks[1..]))
  }

  lemma {:induction false} PastHandshake(at: nat, chunks: seq<seq<byte>>)
    requires at >= HANDSHAKE_SIZE
    ensures !StopsInside(at, chunks)
    decreases |chunks|
  {
    if chunks != [] { PastHandshake(at + |chunks[0]|, chunks[1..]); }
  }

  /** A turn that ends inside the handshake. */
  lemma HandshakePart<S>(h: Handler<S>, s: S, handshake: seq<byte>, seen: seq<byte>, chunk: seq<byte>)
    requires |handshake| == HANDSHAKE_SIZE && seen + chunk <= handshake && |seen + chunk| < HANDSHAKE_SIZE
    ensures ReadOne(h, false, s, seen, chunk) ==
            ReadState(false, s, seen + chunk, if |seen + chunk| > 5 && handshake[4] > 8 then EarlyReject else Fine)
  {
  }

  /** The turn that completes it. */
  lemma HandshakeDone<S>(h: Handler<S>, s: S, handshake: seq<byte>, elements: seq<Element>, seen: seq<byte>,
                         chunk: seq<byte>,
                         rest: seq<byte>)
    requires |handshake| == HANDSHAKE_SIZE && AllFrames(elements) && AllPlain(elements)
    requires seen + chunk == handshake + rest && rest <= BytesOf(elements) && Loop(h, s, rest).status.Running?
    ensures var r := Loop(h, s, rest); ReadOne(h, false, s, seen, chunk) == ReadState(true, r.state, r.rest, Fine)
  {
    assert (handshake + rest)[HANDSHAKE_SIZE..] == rest;
    InterestedIsFrame();
    assert BytesOf(elements) + [] == BytesOf(elements);
    LeftoverIsPlain(h, s, elements, [], INTERESTED_MESSAGE, rest);
  }

  /** The early check makes the outcome depend on the cut. A connection whose stream is a
      handshake and plain messages is refused exactly when, after some chunk, six to
      sixty-seven bytes of the handshake have arrived and the fifth is above eight. */
  lemma {:induction false} EarlyRejectSeesTheCut<S>(h: Handler<S>, s: S, handshake: seq<byte>, elements: seq<Element>,
                                                    seen: seq<byte>, chunks: seq<seq<byte>>)
    requires |handshake| == HANDSHAKE_SIZE && AllFrames(elements) && AllPlain(elements)
    requires |seen| < HANDSHAKE_SIZE && (handshake[4] > 8 ==> |seen| <= 5)
    requires seen + Concat(chunks) <= handshake + BytesOf(elements)
    requires Process(h, false, s, seen + Concat(chunks)).status.Running?
    ensures ReadAll(h, false, s, seen, chunks).end ==
            if handshake[4] > 8 && StopsInside(|seen|, chunks) then EarlyReject else Fine
    decreases |chunks|
  {
    if chunks != [] {
      var now, more := seen + chunks[0], Concat(chunks[1..]);
      assert seen + Concat(chunks) == now + more;
      assert now <= handshake + BytesOf(elements) by { assert now == (now + more)[..|now|]; }
      PrefixOfSum(now, handshake, BytesOf(elements));
      if |now| < HANDSHAKE_SIZE {
        HandshakePart(h, s, handshake, seen, chunks[0]);
        if |now| <= 5 || handshake[4] <= 8 {
          EarlyRejectSeesTheCut(h, s, handshake, elements, now, chunks[1..]);
        }
      } else {
        AfterHandshake(h, s, handshake, elements, seen, chunks, now, more);
      }
    }
  }

  lemma HandshakeSplit(handshake: seq<byte>, body: seq<byte>, now: seq<byte>, more: seq<byte>) returns (rest: seq<byte>)
    requires |handshake| == HANDSHAKE_SIZE <= |now| && now + more <= handshake + body
    ensures now == handshake + rest && rest <= body && rest + more <= body
            && (now + more)[HANDSHAKE_SIZE..] == rest + more
  {
    rest := now[HANDSHAKE_SIZE..];
    PrefixOfSum(now + more, handshake, body);
    assert now[..HANDSHAKE_SIZE] == (now + more)[..HANDSHAKE_SIZE];
    assert (now + more)[HANDSHAKE_SIZE..] == rest + more;
    assert rest == (rest + more)[..|rest|];
  }

  lemma AfterHandshake<S>(h: Handler<S>, s: S, handshake: seq<byte>, elements: seq<Element>, seen: seq<byte>,
                          chunks: seq<seq<byte>>, now: seq<byte>, more: seq<byte>)
    requires |handshake| == HANDSHAKE_SIZE && AllFrames(elements) && AllPlain(elements) && chunks != []
    requires now == seen + chunks[0] && more == Concat(chunks[1..]) && |now| >= HANDSHAKE_SIZE
    requires now + more <= handshake + BytesOf(elements) && Process(h, false, s, now + more).status.Running?
    ensures ReadAll(h, false, s, seen, chunks).end.Fine? && !StopsInside(|now|, chunks[1..])
  {
    var rest := HandshakeSplit(handshake, BytesOf(elements), now, more);
    LoopAppend(h, s, rest, more);
    HandshakeDone(h, s, handshake, elements, seen, chunks[0], rest);
    PastHandshake(|now|, chunks[1..]);
    PlainRest(h, s, elements, rest, chunks[1..]);
  }

  lemma PlainRest<S>(h: Handler<S>, s: S, elements: seq<Element>, rest: seq<byte>, chunks: seq<seq<byte>>)
    requires AllFrames(elements) && AllPlain(elements) && rest + Concat(chunks) <= BytesOf(elements)
    requires Loop(h, s, rest).status.Running? && Loop(h, s, rest + Concat(chunks)).status.Running?
    ensures ReadAll(h, true, Loop(h, s, rest).state, Loop(h, s, rest).rest, chunks).end.Fine?
  {
    InterestedIsFrame();
    assert BytesOf(elements) + [] == BytesOf(elements);
    var r := Loop(h, s, rest);
    PlainStreamAlwaysRead(h, s, elements, [], INTERESTED_MESSAGE, rest, r.state, r.rest, chunks);
  }
}
