/** One peer session as a function of its state: what each message does (peer_protocol.cpp). */
module Session {
  import opened Bytes
  import opened Blocks
  import opened Pieces
  import opened PieceRuns
  import opened PieceLists
  import opened Messages
  import opened Framing

  /** The pieces a peer says it has; `beyond` is what reading past the end happens to give. */
  datatype BitSet = BitSet(bits: seq<bool>, beyond: bool)
  {
    predicate At(i: int) {
      if 0 <= i < |bits| then bits[i] else beyond
    }

    function Set(i: nat): BitSet {
      if i < |bits| then BitSet(bits[i := true], beyond) else this
    }
  }

  /** Bit i of a BITFIELD payload is bit 7 - i % 8 of byte i / 8 (high bit first). */
  function Unpack(bytes: seq<byte>): (bits: seq<bool>)
    ensures |bits| == 8 * |bytes|
  {
    seq(8 * |bytes|, i requires 0 <= i < 8 * |bytes| =>
      (bytes[i / 8] / [128, 64, 32, 16, 8, 4, 2, 1][i % 8]) % 2 == 1)
  }

  datatype Peer = Peer(clients: BitSet, index: int, size: nat, offset: nat, piece: PieceState,
                       queue: seq<seq<byte>>, garbage: nat -> byte)

  /** One call of Files::write_piece. */
  datatype WrittenPiece = WrittenPiece(index: int, bytes: seq<byte>)

  /** A session with the two objects it shares: the allocator and the files. */
  datatype World = World(peer: Peer, pool: Pool, written: seq<WrittenPiece>)

  // ----- asking for the next piece

  const ATTEMPTS: nat := 20

  /** One get_piece, straight into the session's index and size. */
  ghost function TryDraw(w: World): World {
    var d := Draw(w.pool);
    w.(pool := d.pool, peer := w.peer.(size := d.size, index := d.index))
  }

  ghost predicate Keeps(w: World) {
    w.peer.size != 0 && w.peer.clients.At(w.peer.index)
  }

  ghost function GiveBack(w: World): World {
    w.(pool := Return(w.pool, w.peer.index), peer := w.peer.(size := 0, index := -1))
  }

  /** At most n draws, each given back unless the peer has that piece. */
  ghost function Acquire(w: World, n: nat): World
    decreases n
  {
    if n == 0 then w
    else
      var d := TryDraw(w);
      if Keeps(d) then d else Acquire(GiveBack(d), n - 1)
  }

  /** The requests for a piece of `size` bytes from request number j on. */
  function Requests(index: int, size: nat, j: nat): (r: seq<seq<byte>>)
    ensures |r| == (if j < RequestCount(size) then RequestCount(size) - j else 0)
    ensures forall i :: 0 <= i < |r| ==> |r[i]| == 17
    decreases RequestCount(size) - j
  {
    if j >= RequestCount(size) then []
    else [RequestMessage(index % TWO_TO_32, RequestStart(j), RequestLength(size, j))] + Requests(index, size, j + 1)
  }

  /** After get_piece_index: a drawn piece gets an empty buffer and all its requests. */
  ghost function StartPiece(w: World): World {
    if w.peer.size == 0 then w
    else
      w.(peer := w.peer.(piece := FreshPiece(w.peer.garbage, w.peer.index, w.peer.size),
                         offset := RequestStart(RequestCount(w.peer.size)),
                         queue := w.peer.queue + Requests(w.peer.index, w.peer.size, 0)))
  }

  ghost function NextPiece(w: World): World {
    StartPiece(Acquire(w, ATTEMPTS))
  }

  // ----- the messages

  /** The part of a handler before it looks for a new piece, and whether it does. */
  datatype Started = Started(world: World, status: Status, wantsPiece: bool)

  ghost function Choke(w: World): World {
    w.(pool := Return(w.pool, w.peer.index), peer := w.peer.(index := -1, size := 0, piece := EMPTY_PIECE))
  }

  /** A block for the piece in hand; anything else is ignored. */
  ghost function OnBlock(w: World, index: nat, data: seq<byte>, offset: nat): Started {
    if index != w.peer.index then Started(w, Running, false)
    else if !w.peer.piece.Fits(|data|, offset) then Started(w, Undefined, false)
    else
      var (r, piece) := AddSpec(w.peer.piece, index, data, offset);
      var added := w.(peer := w.peer.(piece := piece));
      if !r.Accepted? then Started(added, Threw, false)
      else if !FullSpec(piece) then Started(added, Running, false)
      else if piece.data.None? || w.peer.size > |piece.data.value| then Started(added, Undefined, false)
      else
        Started(w.(written := w.written + [WrittenPiece(index, piece.data.value[..w.peer.size])],
                   peer := w.peer.(piece := EMPTY_PIECE, offset := 0, index := -1)),
                Running, true)
  }

  /** The number in a HAVE message. One too short for it is read on into the buffer behind it,
      which holds arbitrary bytes. */
  function HaveIndex(frame: seq<byte>, garbage: nat -> byte): nat
    requires |frame| >= BASE_SIZE
  {
    Field(frame + [garbage(0), garbage(1), garbage(2), garbage(3)], 5)
  }

  ghost function Start(w: World, frame: seq<byte>): Started {
    if |frame| < BASE_SIZE then Started(w, Undefined, false)
    else if frame[4] == CHOKE then Started(Choke(w), Running, false)
    else if frame[4] == UNCHOKE then Started(w, Running, true)
    else if frame[4] == HAVE then
      Started(w.(peer := w.peer.(clients := w.peer.clients.Set(HaveIndex(frame, w.peer.garbage)))), Running, false)
    else if frame[4] == BITFIELD then
      Started(w.(peer := w.peer.(clients := BitSet(Unpack(frame[5..]), w.peer.clients.beyond),
                                 queue := w.peer.queue + [INTERESTED_MESSAGE])), Running, false)
    else if frame[4] == PIECE then
      if |frame| < 13 then Started(w, Undefined, false)
      else OnBlock(w, Field(frame, 5), frame[13..], Field(frame, 9))
    else Started(w, Running, false)
  }

  /** A whole handler. */
  ghost function HandleFrame(w: World, frame: seq<byte>): Handled<World> {
    var r := Start(w, frame);
    Handled(if r.status.Running? && r.wantsPiece then NextPiece(r.world) else r.world, r.status)
  }

  // ----- what every handler keeps

  /** The piece buffer matches the piece in hand. */
  ghost predicate InStep(w: World) {
    && w.peer.piece.Valid()
    && (w.peer.index >= 0 ==> w.peer.size > 0 && Ready(w.peer.piece, w.peer.index, w.peer.size))
  }

  lemma {:induction false} AcquireKeepsBuffer(w: World, n: nat)
    ensures var a := Acquire(w, n);
            && a.peer.piece == w.peer.piece && a.peer.queue == w.peer.queue && a.peer.garbage == w.peer.garbage
            && a.written == w.written && a.peer.offset == w.peer.offset
            && (n > 0 ==> a.peer.size > 0 || a.peer.index == -1)
    decreases n
  {
    if n > 0 {
      var d := TryDraw(w);
      if !Keeps(d) {
        AcquireKeepsBuffer(GiveBack(d), n - 1);
      }
    }
  }

  lemma {:induction false} RequestsAreFrames(index: int, size: nat, j: nat, i: nat)
    requires i < |Requests(index, size, j)|
    ensures IsFrame(Requests(index, size, j)[i])
    decreases i
  {
    RequestRoundTrip(index % TWO_TO_32, RequestStart(j), RequestLength(size, j));
    if i > 0 {
      RequestsAreFrames(index, size, j + 1, i - 1);
    }
  }

  /** A piece kept after the draws is one the peer claims, with the allocator's size for it;
      otherwise the session holds nothing. */
  lemma {:induction false} AcquiredIsOffered(w: World, n: nat)
    requires n > 0
    ensures var a := Acquire(w, n);
            if a.peer.size > 0 then a.peer.clients == w.peer.clients && w.peer.clients.At(a.peer.index)
                                    && a.peer.size == w.pool.SizeOf(a.peer.index)
            else a.peer.index == -1
    decreases n
  {
    var d := TryDraw(w);
    if !Keeps(d) && n > 1 {
      AcquiredIsOffered(GiveBack(d), n - 1);
    }
  }

  lemma {:induction false} RequestsAt(index: int, size: nat, j: nat, i: nat)
    requires j + i < RequestCount(size)
    ensures i < |Requests(index, size, j)|
    ensures Requests(index, size, j)[i] ==
              RequestMessage(index % TWO_TO_32, RequestStart(j + i), RequestLength(size, j + i))
    decreases i
  {
    if i > 0 {
      RequestsAt(index, size, j + 1, i - 1);
    }
  }

  /** The messages create_request queues ask, in order, for exactly the blocks that tile the
      piece: message j reads back as request j. */
  lemma RequestsAskForPiece(index: nat, size: nat, j: nat)
    requires index < TWO_TO_32 && size < TWO_TO_32 && j < RequestCount(size)
    ensures j < |Requests(index, size, 0)|
    ensures var m := Requests(index, size, 0)[j];
            && m[4] == REQUEST && Field(m, 5) == index
            && Field(m, 9) == RequestStart(j) && Field(m, 13) == RequestLength(size, j)
  {
    RequestsAt(index, size, 0, j);
    assert index % TWO_TO_32 == index;
    RequestReadsBack(Requests(index, size, 0)[j], index, RequestStart(j), RequestLength(size, j));
  }

  /** Every message, well-formed or not, keeps the buffer in step with the piece in hand. */
  lemma HandlerKeepsInStep(w: World, frame: seq<byte>)
    requires InStep(w)
    ensures HandleFrame(w, frame).status.Running? ==> InStep(HandleFrame(w, frame).state)
  {
    var r := Start(w, frame);
    if |frame| >= 13 && frame[4] == PIECE && Field(frame, 5) == w.peer.index {
      if w.peer.piece.Fits(|frame| - 13, Field(frame, 9)) {
        AddKeepsReady(w.peer.piece, w.peer.index, Chunk(frame[13..], Field(frame, 9)), w.peer.size);
      }
    }
    if r.status.Running? && r.wantsPiece {
      AcquireKeepsBuffer(r.world, ATTEMPTS);
    }
  }

  /** While the buffer is in step, `add` can only fail by straddling: neither runtime_error
      of Piece::add is reachable from a session. */
  lemma AddNeverMisused(w: World, data: seq<byte>, offset: nat)
    requires InStep(w) && w.peer.index >= 0 && w.peer.piece.Fits(|data|, offset)
    ensures var r := AddSpec(w.peer.piece, w.peer.index, data, offset).0; r.Accepted? || r.SwallowsNext?
    ensures var r := OnBlock(w, w.peer.index, data, offset);
            && !r.status.Undefined?
            && (r.status.Threw? <==> Swallows(w.peer.piece.blocks, offset, offset + |data|))
  {
    AddKeepsReady(w.peer.piece, w.peer.index, Chunk(data, offset), w.peer.size);
  }

  /** A handler only appends complete frames to the outgoing queue. */
  ghost predicate QueueGrows(before: seq<seq<byte>>, after: seq<seq<byte>>) {
    && |before| <= |after| && after[..|before|] == before
    && forall i :: |before| <= i < |after| ==> IsFrame(after[i])
  }

  lemma QueueGrowsOn(a: seq<seq<byte>>, b: seq<seq<byte>>, c: seq<seq<byte>>)
    requires QueueGrows(a, b) && QueueGrows(b, c)
    ensures QueueGrows(a, c)
  {
    assert c[..|a|] == b[..|a|];
    forall i | |a| <= i < |c| ensures IsFrame(c[i]) {
      if i < |b| { assert c[i] == c[..|b|][i] == b[i]; }
    }
  }

  lemma HandlerQueuesFrames(w: World, frame: seq<byte>)
    ensures QueueGrows(w.peer.queue, HandleFrame(w, frame).state.peer.queue)
  {
    InterestedIsFrame();
    var r := Start(w, frame);
    if r.status.Running? && r.wantsPiece {
      var a := Acquire(r.world, ATTEMPTS);
      AcquireKeepsBuffer(r.world, ATTEMPTS);
      forall i | 0 <= i < |Requests(a.peer.index, a.peer.size, 0)|
        ensures IsFrame(Requests(a.peer.index, a.peer.size, 0)[i])
      {
        RequestsAreFrames(a.peer.index, a.peer.size, 0, i);
      }
    }
  }

  lemma {:induction false} LoopQueuesFrames(w: World, buf: seq<byte>)
    ensures QueueGrows(w.peer.queue, Loop(HandleFrame, w, buf).state.peer.queue)
    decreases |buf|
  {
    if |buf| > LENGTH_SIZE {
      var size := Get32(buf);
      if size == 0 {
        LoopQueuesFrames(w, buf[LENGTH_SIZE..]);
      } else if size + LENGTH_SIZE <= |buf| && buf[4] < NUM_OF_TYPES {
        HandlerQueuesFrames(w, buf[..size + LENGTH_SIZE]);
        var r := HandleFrame(w, buf[..size + LENGTH_SIZE]);
        if r.status.Running? {
          var rest := buf[size + LENGTH_SIZE..];
          LoopQueuesFrames(r.state, rest);
          QueueGrowsOn(w.peer.queue, r.state.peer.queue, Loop(HandleFrame, r.state, rest).state.peer.queue);
        }
      }
    }
  }

  lemma {:induction false} LoopKeepsInStep(w: World, buf: seq<byte>)
    requires InStep(w)
    ensures Loop(HandleFrame, w, buf).status.Running? ==> InStep(Loop(HandleFrame, w, buf).state)
    decreases |buf|
  {
    if |buf| > LENGTH_SIZE {
      var size := Get32(buf);
      if size == 0 {
        LoopKeepsInStep(w, buf[LENGTH_SIZE..]);
      } else if size + LENGTH_SIZE <= |buf| && buf[4] < NUM_OF_TYPES {
        HandlerKeepsInStep(w, buf[..size + LENGTH_SIZE]);
        var r := HandleFrame(w, buf[..size + LENGTH_SIZE]);
        if r.status.Running? {
          LoopKeepsInStep(r.state, buf[size + LENGTH_SIZE..]);
        }
      }
    }
  }

  lemma ProcessQueuesFrames(shaken: bool, w: World, buf: seq<byte>)
    ensures QueueGrows(w.peer.queue, Process(HandleFrame, shaken, w, buf).state.peer.queue)
  {
    if shaken {
      LoopQueuesFrames(w, buf);
    } else if |buf| >= HANDSHAKE_SIZE {
      LoopQueuesFrames(w, buf[HANDSHAKE_SIZE..]);
    }
  }
}
