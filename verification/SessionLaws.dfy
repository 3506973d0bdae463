/** What each message amounts to, in terms of its bytes and of the session before and after. */
module SessionLaws {
  import opened Bytes
  import opened Blocks
  import opened Pieces
  import opened PieceRuns
  import opened Messages
  import opened Framing
  import opened Session

  ghost predicate HasId(frame: seq<byte>, id: byte) { |frame| >= BASE_SIZE && frame[4] == id }

  // ----- drawing a piece

  /** A piece the session would keep. */
  ghost predicate Offered(w: World, i: int) {
    w.pool.SizeOf(i) > 0 && w.peer.clients.At(i)
  }

  /** The session after its draws: this piece in hand, or nothing, and what is left returned. */
  ghost function Drew(w: World, index: int, next: nat, returned: seq<int>): World {
    w.(pool := w.pool.(next := next, returned := returned),
       peer := w.peer.(index := index, size := w.pool.SizeOf(index)))
  }

  ghost function DrewNothing(w: World, next: nat, returned: seq<int>): World {
    w.(pool := w.pool.(next := next, returned := returned), peer := w.peer.(index := -1, size := 0))
  }

  /** Among returned pieces the first one offered is kept, if the attempts reach it; those
      rejected before it go behind the others. */
  lemma {:induction false} KeepsFirstOffered(w: World, n: nat, k: nat)
    requires k < n && k < |w.pool.returned| && Offered(w, w.pool.returned[k])
    requires forall j :: 0 <= j < k ==> !Offered(w, w.pool.returned[j])
    ensures Acquire(w, n) ==
            Drew(w, w.pool.returned[k], w.pool.next, w.pool.returned[k + 1..] + w.pool.returned[..k])
    decreases k
  {
    var rs := w.pool.returned;
    assert rs[0 + 1..] + rs[..0] == rs[1..];
    if k > 0 {
      assert !Offered(w, rs[0]);
      var v := GiveBack(TryDraw(w));
      var vs := rs[1..] + [rs[0]];
      assert v.pool == w.pool.(returned := vs);
      assert forall j :: 0 <= j < k - 1 ==> vs[j] == rs[j + 1];
      KeepsFirstOffered(v, n - 1, k - 1);
      assert vs[k..] + vs[..k - 1] == rs[k + 1..] + rs[..k];
    }
  }

  /** The list turned by r places. */
  function Turned(rs: seq<int>, r: nat): seq<int>
    requires r <= |rs|
  {
    rs[r..] + rs[..r]
  }

  lemma TurnedOnce(rs: seq<int>, n: nat)
    requires rs != [] && n > 0
    ensures Turned(rs[1..] + [rs[0]], (n - 1) % |rs|) == Turned(rs, n % |rs|)
  {
    var m, r := |rs|, (n - 1) % |rs|;
    var vs := rs[1..] + [rs[0]];
    NextRemainder(n, m);
    if r + 1 < m {
      assert vs[r..] + vs[..r] == rs[r + 1..] + rs[..r + 1];
    } else {
      assert vs[r..] + vs[..r] == rs[0..] + rs[..0];
    }
  }

  lemma NextRemainder(n: nat, m: nat)
    requires n > 0 && m > 0
    ensures n % m == if (n - 1) % m + 1 < m then (n - 1) % m + 1 else 0
  {
    var q, r := (n - 1) / m, (n - 1) % m;
    assert n - 1 == q * m + r;
    if r + 1 < m {
      UniqueRemainder(n, m, q, r + 1);
    } else {
      assert n == (q + 1) * m;
      UniqueRemainder(n, m, q + 1, 0);
    }
  }

  lemma UniqueRemainder(n: int, m: nat, q: int, r: int)
    requires m > 0 && n == q * m + r && 0 <= r < m
    ensures n % m == r
  {
    var d := n / m - q;
    assert n == (n / m) * m + n % m;
    assert d * m == r - n % m;
    var width: int := m;
    assert d >= 1 ==> d * width >= width;
    assert d <= -1 ==> d * width <= -width;
  }

  /** If the attempts reach none that is offered, nothing is kept, and the returned pieces have
      only been turned: no new piece is looked at. */
  lemma {:induction false} KeepsNone(w: World, n: nat)
    requires n > 0 && w.pool.returned != []
    requires forall j :: 0 <= j < |w.pool.returned| && j < n ==> !Offered(w, w.pool.returned[j])
    ensures Acquire(w, n) == DrewNothing(w, w.pool.next, Turned(w.pool.returned, n % |w.pool.returned|))
    decreases n
  {
    var rs := w.pool.returned;
    var v := GiveBack(TryDraw(w));
    var vs := rs[1..] + [rs[0]];
    assert !Offered(w, rs[0]);
    assert v.pool == w.pool.(returned := vs);
    TurnedOnce(rs, n);
    if n == 1 {
      assert Turned(vs, 0 % |rs|) == vs;
    } else {
      assert forall j :: 0 <= j < |vs| && j < n - 1 ==> vs[j] == if j < |rs| - 1 then rs[j + 1] else rs[0];
      KeepsNone(v, n - 1);
    }
  }

  /** With nothing returned, exactly one new piece is looked at: if it is not offered, the other
      attempts draw it again and again. */
  lemma LooksAtOneNewPiece(w: World, n: nat)
    requires n > 0 && w.pool.returned == [] && w.pool.next <= w.pool.maxPiece
    ensures Acquire(w, n) == if Offered(w, w.pool.next) then Drew(w, w.pool.next, w.pool.next + 1, [])
                             else DrewNothing(w, w.pool.next + 1, [w.pool.next])
  {
    if !Offered(w, w.pool.next) {
      var v := GiveBack(TryDraw(w));
      assert v.pool.returned == [w.pool.next];
      if n > 1 {
        KeepsNone(v, n - 1);
        assert (n - 1) % 1 == 0;
      }
    }
  }

  /** With nothing left at all, -1 goes into the allocator and comes out again: it is kept if
      the bit set happens to say yes to it. */
  lemma NothingLeft(w: World, n: nat)
    requires n > 1 && w.pool.returned == [] && w.pool.next > w.pool.maxPiece
    ensures Acquire(w, n) == if Offered(w, -1) then Drew(w, -1, w.pool.next, [])
                             else DrewNothing(w, w.pool.next, [-1])
  {
    var v := GiveBack(TryDraw(w));
    assert v.pool.returned == [-1];
    if Offered(w, -1) {
      KeepsFirstOffered(v, n - 1, 0);
    } else {
      KeepsNone(v, n - 1);
      assert (n - 1) % 1 == 0;
    }
  }

  // ----- asking for it

  /** The queue has got one request for each block of the piece, in order, and nothing else. */
  ghost predicate AsksFor(before: seq<seq<byte>>, after: seq<seq<byte>>, index: nat, size: nat) {
    && |after| == |before| + RequestCount(size) && after[..|before|] == before
    && forall i :: |before| <= i < |after| ==> IsRequest(after[i], index, size, i - |before|)
  }

  ghost predicate IsRequest(m: seq<byte>, index: nat, size: nat, j: nat)
    requires j < RequestCount(size)
  {
    && |m| == 17 && IsFrame(m) && m[4] == REQUEST
    && Field(m, 5) == index && Field(m, 9) == RequestStart(j) && Field(m, 13) == RequestLength(size, j)
  }

  /** A piece just kept: its requests are queued and its buffer is empty; or there is none. */
  ghost predicate PieceStarted(before: World, after: World) {
    var peer := after.peer;
    if peer.size == 0 then
      && peer.index == -1 && peer.queue == before.peer.queue && peer.piece == before.peer.piece
      && peer.offset == before.peer.offset
    else
      && peer.offset == RequestStart(RequestCount(peer.size))
      && JustInit(peer.piece, peer.index, peer.size)
      && (0 <= peer.index < TWO_TO_32 && peer.size < TWO_TO_32 ==>
            AsksFor(before.peer.queue, peer.queue, peer.index, peer.size))
  }

  lemma StartAsks(w: World)
    requires 0 <= w.peer.index < TWO_TO_32 && 0 < w.peer.size < TWO_TO_32
    ensures AsksFor(w.peer.queue, StartPiece(w).peer.queue, w.peer.index, w.peer.size)
  {
    var index, size := w.peer.index, w.peer.size;
    forall j | 0 <= j < RequestCount(size) ensures IsRequest(Requests(index, size, 0)[j], index, size, j) {
      RequestsAskForPiece(index, size, j);
      RequestsAreFrames(index, size, 0, j);
    }
  }

  lemma NextPieceStarts(w: World)
    ensures PieceStarted(w, NextPiece(w)) && NextPiece(w).written == w.written
  {
    var a := Acquire(w, ATTEMPTS);
    AcquireKeepsBuffer(w, ATTEMPTS);
    AcquiredIsOffered(w, ATTEMPTS);
    if 0 <= a.peer.index < TWO_TO_32 && 0 < a.peer.size < TWO_TO_32 {
      StartAsks(a);
    }
  }

  /** An unchoke always runs; the piece it brings is asked for, block by block. */
  lemma UnchokeAsks(w: World, frame: seq<byte>)
    requires HasId(frame, UNCHOKE)
    ensures HandleFrame(w, frame).status.Running?
    ensures PieceStarted(w, HandleFrame(w, frame).state) && HandleFrame(w, frame).state.written == w.written
  {
    NextPieceStarts(w);
  }

  // ----- blocks

  /** A block for the piece in hand that fits the buffer. */
  ghost predicate BlockInHand(w: World, frame: seq<byte>) {
    && HasId(frame, PIECE) && |frame| >= 13 && Field(frame, 5) == w.peer.index
    && w.peer.piece.Fits(|frame| - 13, Field(frame, 9))
  }

  ghost function Buffered(w: World, frame: seq<byte>): PieceState
    requires BlockInHand(w, frame)
  {
    AddSpec(w.peer.piece, w.peer.index, frame[13..], Field(frame, 9)).1
  }

  /** One that leaves the piece incomplete goes into the buffer and changes nothing else. */
  lemma BlockIsBuffered(w: World, frame: seq<byte>)
    requires InStep(w) && BlockInHand(w, frame) && !FullSpec(Buffered(w, frame))
    requires !Swallows(w.peer.piece.blocks, Field(frame, 9), Field(frame, 9) + (|frame| - 13))
    ensures HandleFrame(w, frame) == Handled(w.(peer := w.peer.(piece := Buffered(w, frame))), Running)
  {
    AddNeverMisused(w, frame[13..], Field(frame, 9));
  }

  /** One that completes it writes the whole piece, once, and starts the next. */
  lemma LastBlockWritesAndAsks(w: World, frame: seq<byte>)
    requires InStep(w) && BlockInHand(w, frame) && FullSpec(Buffered(w, frame))
    requires !Swallows(w.peer.piece.blocks, Field(frame, 9), Field(frame, 9) + (|frame| - 13))
    ensures var r := HandleFrame(w, frame);
            && r.status.Running? && Buffered(w, frame).data.Some?
            && r.state.written == w.written + [WrittenPiece(w.peer.index, Buffered(w, frame).data.value)]
            && PieceStarted(w.(peer := w.peer.(piece := EMPTY_PIECE, offset := 0)), r.state)
  {
    var chunk := Chunk(frame[13..], Field(frame, 9));
    AddNeverMisused(w, chunk.source, chunk.offset);
    AddKeepsReady(w.peer.piece, w.peer.index, chunk, w.peer.size);
    var q := Buffered(w, frame);
    assert q.data.value[..w.peer.size] == q.data.value;
    NextPieceStarts(OnBlock(w, w.peer.index, chunk.source, chunk.offset).world);
  }

  // ----- messages that are ignored

  /** A block for another piece does nothing at all. */
  lemma ForeignBlockIgnored(w: World, frame: seq<byte>)
    requires HasId(frame, PIECE) && |frame| >= 13 && Field(frame, 5) != w.peer.index
    ensures HandleFrame(w, frame) == Handled(w, Running)
  {
  }

  /** Neither do INTERESTED, NOT INTERESTED, REQUEST, CANCEL and PORT. */
  lemma IdleMessageIgnored(w: World, frame: seq<byte>)
    requires |frame| >= BASE_SIZE && frame[4] in {2, 3, 6, 8, 9}
    ensures HandleFrame(w, frame) == Handled(w, Running)
  {
  }

  /** On a session in step, a message throws if and only if it is a block for the piece in hand
      that fits and straddles what is there. */
  lemma ThrowsIff(w: World, frame: seq<byte>)
    requires InStep(w) && |frame| >= BASE_SIZE
    ensures HandleFrame(w, frame).status.Threw? <==>
            BlockInHand(w, frame) && Swallows(w.peer.piece.blocks, Field(frame, 9), Field(frame, 9) + (|frame| - 13))
  {
    if BlockInHand(w, frame) {
      AddNeverMisused(w, frame[13..], Field(frame, 9));
    }
  }

  /** And it is undefined if and only if it is a PIECE message too short for its fields, or a
      block for the piece in hand that does not fit. */
  lemma UndefinedIff(w: World, frame: seq<byte>)
    requires InStep(w) && |frame| >= BASE_SIZE
    ensures HandleFrame(w, frame).status.Undefined? <==>
            HasId(frame, PIECE) && (|frame| < 13 || (Field(frame, 5) == w.peer.index && !BlockInHand(w, frame)))
  {
    if BlockInHand(w, frame) {
      AddNeverMisused(w, frame[13..], Field(frame, 9));
    }
  }

  // ----- choke

  /** A choke gives back the number in hand, whatever it is, and nothing is held any more. */
  lemma ChokeGivesBack(w: World, frame: seq<byte>)
    requires HasId(frame, CHOKE)
    ensures var r := HandleFrame(w, frame);
            && r.status.Running? && r.state.pool == w.pool.(returned := w.pool.returned + [w.peer.index])
            && r.state.peer.index == -1 && r.state.peer.size == 0
            && r.state.peer.piece.data.None? && r.state.peer.piece.blocks == []
            && r.state.peer.queue == w.peer.queue && r.state.peer.clients == w.peer.clients
            && r.state.written == w.written
  {
  }

  // ----- what the peer says it has

  function Pow2(n: nat): (p: nat)
    ensures p > 0
  {
    if n == 0 then 1 else 2 * Pow2(n - 1)
  }

  /** Bit i of a payload, counted from the high bit of its first byte. */
  predicate BitOf(payload: seq<byte>, i: nat)
    requires i < 8 * |payload|
  {
    (payload[i / 8] / Pow2(7 - i % 8)) % 2 == 1
  }

  lemma Powers()
    ensures Pow2(7) == 128 && Pow2(6) == 64 && Pow2(5) == 32 && Pow2(4) == 16
    ensures Pow2(3) == 8 && Pow2(2) == 4 && Pow2(1) == 2 && Pow2(0) == 1
  {
  }

  lemma UnpackedBit(payload: seq<byte>, i: nat)
    requires i < 8 * |payload|
    ensures Unpack(payload)[i] <==> BitOf(payload, i)
  {
    Powers();
  }

  /** A BITFIELD replaces the claims by its bits, queues one INTERESTED and does no more. */
  lemma BitfieldSetsClaims(w: World, frame: seq<byte>)
    requires HasId(frame, BITFIELD)
    ensures var r, payload := HandleFrame(w, frame), frame[5..];
            && r.status.Running? && r.state.peer.queue == w.peer.queue + [INTERESTED_MESSAGE]
            && (forall i :: 0 <= i < 8 * |payload| ==> (r.state.peer.clients.At(i) <==> BitOf(payload, i)))
            && |r.state.peer.clients.bits| == 8 * |payload| && r.state.peer.clients.beyond == w.peer.clients.beyond
            && r.state == w.(peer := w.peer.(clients := r.state.peer.clients, queue := r.state.peer.queue))
  {
    var payload := frame[5..];
    forall i | 0 <= i < 8 * |payload| ensures Unpack(payload)[i] <==> BitOf(payload, i) {
      UnpackedBit(payload, i);
    }
  }

  /** A HAVE adds the piece it names, if the set has room for it, and does no more. */
  lemma HaveAddsOne(w: World, frame: seq<byte>)
    requires HasId(frame, HAVE) && |frame| >= 9
    ensures var r, n := HandleFrame(w, frame), Field(frame, 5);
            && r.status.Running? && r.state == w.(peer := w.peer.(clients := r.state.peer.clients))
            && |r.state.peer.clients.bits| == |w.peer.clients.bits|
            && (n < |w.peer.clients.bits| ==> r.state.peer.clients.At(n))
            && forall i :: i != n || n >= |w.peer.clients.bits| ==>
                 (r.state.peer.clients.At(i) <==> w.peer.clients.At(i))
  {
    LongHave(frame, w.peer.garbage);
  }

  lemma LongHave(frame: seq<byte>, garbage: nat -> byte)
    requires |frame| >= 9
    ensures HaveIndex(frame, garbage) == Field(frame, 5)
  {
    var longer := frame + [garbage(0), garbage(1), garbage(2), garbage(3)];
    assert forall k :: 0 <= k < 4 ==> longer[5..][k] == frame[5..][k];
  }

  lemma {:induction false} AcquireKeepsClaims(w: World, n: nat)
    ensures Acquire(w, n).peer.clients == w.peer.clients
    decreases n
  {
    if n > 0 && !Keeps(TryDraw(w)) {
      AcquireKeepsClaims(GiveBack(TryDraw(w)), n - 1);
    }
  }

  /** No other message changes them. */
  lemma OthersKeepClaims(w: World, frame: seq<byte>)
    requires |frame| >= BASE_SIZE && frame[4] != HAVE && frame[4] != BITFIELD
    ensures HandleFrame(w, frame).state.peer.clients == w.peer.clients
  {
    AcquireKeepsClaims(Start(w, frame).world, ATTEMPTS);
  }
}
