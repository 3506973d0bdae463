/** The session object and its message handlers (peer_protocol.cpp), proved against Session. */
module PeerProtocols {
  import opened Bytes
  import opened Pieces
  import opened PieceRuns
  import opened PieceLists
  import opened Messages
  import opened Framing
  import opened Session

  /** The files as a session sees them: the calls it makes to Files::write_piece. */
  class PieceSink {
    var written: seq<WrittenPiece>

    method WritePiece(index: int, source: array<byte>, size: nat)
      requires size <= source.Length
      modifies this
      ensures written == old(written) + [WrittenPiece(index, source[..size])]
    {
      written := written + [WrittenPiece(index, source[..size])];
    }
  }

  class PeerProtocol {
    var shaken: bool  // m_state == ACTION
    var clientsPieces: BitSet
    var pieceIndex: int
    var pieceSize: nat
    var offset: nat
    var messages: seq<seq<byte>>
    const piece: Piece
    const files: PieceSink
    const pieceList: PieceList

    ghost function State(): World
      reads this, piece, piece.data, files, pieceList
    {
      World(Peer(clientsPieces, pieceIndex, pieceSize, offset, piece.State(), messages, piece.garbage),
                  pieceList.State(), files.written)
    }

    /** The objects a handler may change. */
    ghost function Repr(): set<object>
      reads this, piece
    {
      {this, piece, files, pieceList} + if piece.data == null then {} else {piece.data}
    }

    constructor (handshake: seq<byte>, clientsPieces: BitSet, offset: nat, garbage: nat -> byte,
                 files: PieceSink, pieceList: PieceList)
      requires |handshake| == HANDSHAKE_SIZE
      ensures !shaken && this.files == files && this.pieceList == pieceList && fresh(Repr() - {files, pieceList})
      ensures State() == World(Peer(clientsPieces, -1, 0, offset, EMPTY_PIECE, [handshake], garbage),
                                     pieceList.State(), files.written)
      ensures InStep(State())
    {
      this.piece := new Piece(garbage);
      shaken, this.clientsPieces, pieceIndex, pieceSize, this.offset := false, clientsPieces, -1, 0, offset;
      messages := [handshake];
      this.files, this.pieceList := files, pieceList;
    }

    method GetMessage() returns (output: seq<byte>)
      modifies this
      ensures old(messages) == [] ==> output == [] && messages == []
      ensures old(messages) != [] ==> [output] + messages == old(messages)
      ensures shaken == old(shaken) && State() == old(State()).(peer := old(State()).peer.(queue := messages))
    {
      if messages == [] {
        return [];
      }
      output := messages[0];
      messages := messages[1..];
    }

    /** One draw from the allocator; what the peer does not have goes straight back. */
    method Attempt() returns (found: bool)
      modifies this, pieceList
      ensures shaken == old(shaken)
      ensures var d := TryDraw(old(State()));
              found == Keeps(d) && State() == if found then d else GiveBack(d)
    {
      pieceSize, pieceIndex := pieceList.GetPiece();
      if pieceSize != 0 && clientsPieces.At(pieceIndex) {
        return true;
      }
      pieceSize := 0;
      pieceList.ReturnPiece(pieceIndex);
      pieceIndex := -1;
      return false;
    }

    method GetPieceIndex() returns (r: bool)
      modifies this, pieceList, piece
      ensures fresh(Repr() - old(Repr())) && shaken == old(shaken)
      ensures var a := Acquire(old(State()), ATTEMPTS);
              && r == (a.peer.size != 0)
              && State() == if !r then a
                            else a.(peer := a.peer.(piece := FreshPiece(a.peer.garbage, a.peer.index, a.peer.size)))
    {
      DrawAttempts();
      if pieceSize == 0 {
        return false;
      }
      piece.Init(pieceIndex, pieceSize);
      return true;
    }

    /** The loop: draws until one is kept, at most twenty times. */
    method DrawAttempts()
      modifies this, pieceList
      ensures shaken == old(shaken) && State() == Acquire(old(State()), ATTEMPTS)
    {
      ghost var w := State();
      var i := 0;
      var found := false;
      while i < ATTEMPTS && !found
        invariant i <= ATTEMPTS && shaken == old(shaken)
        invariant Acquire(w, ATTEMPTS) == if found then State() else Acquire(State(), ATTEMPTS - i)
        decreases ATTEMPTS - i, !found
      {
        found := Attempt();
        i := if found then i else i + 1;
      }
    }

    method CreateRequest()
      modifies this
      ensures shaken == old(shaken)
      ensures State() == old(State()).(peer := old(State()).peer.(
                           offset := RequestStart(RequestCount(pieceSize)),
                           queue := old(messages) + Requests(pieceIndex, pieceSize, 0)))
    {
      offset := 0;
      ghost var j := 0;
      ghost var all := Requests(pieceIndex, pieceSize, 0);
      while offset < pieceSize
        invariant j <= |all| && offset == RequestStart(j)
        invariant shaken == old(shaken) && clientsPieces == old(clientsPieces)
        invariant pieceIndex == old(pieceIndex) && pieceSize == old(pieceSize)
        invariant messages == old(messages) + all[..j]
      {
        RequestsAt(pieceIndex, pieceSize, 0, j);
        var length := if offset + BLOCK_SIZE > pieceSize then pieceSize - offset else BLOCK_SIZE;
        messages := messages + [RequestMessage(pieceIndex % TWO_TO_32, offset, length)];
        offset := offset + BLOCK_SIZE;
        j := j + 1;
      }
      assert all[..j] == all;
    }

    /** get_piece_index followed by create_request, as both callers use them. */
    method RequestNextPiece()
      modifies this, pieceList, piece
      ensures fresh(Repr() - old(Repr())) && shaken == old(shaken)
      ensures State() == NextPiece(old(State()))
    {
      var found := GetPieceIndex();
      if found {
        CreateRequest();
      }
    }

    method ProcessChoke()
      modifies this, pieceList, piece
      ensures fresh(Repr() - old(Repr())) && shaken == old(shaken)
      ensures State() == Choke(old(State()))
    {
      pieceList.ReturnPiece(pieceIndex);
      pieceIndex := -1;
      pieceSize := 0;
      piece.Clear();
    }

    method ProcessPiece(frame: seq<byte>) returns (status: Status)
      requires |frame| >= BASE_SIZE && frame[4] == PIECE && InStep(State())
      modifies Repr()
      ensures fresh(Repr() - old(Repr())) && shaken == old(shaken)
      ensures Handled(State(), status) == HandleFrame(old(State()), frame)
    {
      if |frame| < 13 {
        return Undefined;
      }
      var index, at := Field(frame, 5), Field(frame, 9);
      if index != pieceIndex {
        return Running;
      }
      if piece.data != null && at + (|frame| - 13) > piece.data.Length {
        return Undefined;
      }
      AddNeverMisused(State(), frame[13..], at);
      AddKeepsReady(piece.State(), index, Chunk(frame[13..], at), pieceSize);
      ghost var w := State();
      var r := piece.Add(index, frame[13..], at);
      if !r.Accepted? {
        return Threw;
      }
      var full := piece.Full();
      if full {
        assert piece.data[..][..pieceSize] == piece.data[..];
        StorePiece();
        assert State() == OnBlock(w, index, frame[13..], at).world;
        RequestNextPiece();
      }
      return Running;
    }

    /** Hands a full piece to the files and lets go of it. */
    method StorePiece()
      requires piece.data != null && pieceSize == piece.data.Length
      modifies this, piece, files
      ensures shaken == old(shaken) && piece.data == null
      ensures State() == old(State()).(
                           written := old(State()).written + [WrittenPiece(old(pieceIndex), old(piece.data[..]))],
                           peer := old(State()).peer.(piece := EMPTY_PIECE, offset := 0, index := -1))
    {
      var buffer := piece.Get();
      files.WritePiece(pieceIndex, buffer, pieceSize);
      assert buffer[..pieceSize] == buffer[..];
      offset := 0;
      pieceIndex := -1;
    }

    /** The dispatch table of process_message, called with one complete frame. */
    method ProcessFrame(frame: seq<byte>) returns (status: Status)
      requires |frame| >= BASE_SIZE && InStep(State())
      modifies Repr()
      ensures fresh(Repr() - old(Repr())) && shaken == old(shaken)
      ensures Handled(State(), status) == HandleFrame(old(State()), frame)
    {
      status := Running;
      var id := frame[4];
      if id == CHOKE {
        ProcessChoke();
      } else if id == UNCHOKE {
        RequestNextPiece();
      } else if id == HAVE {
        clientsPieces := clientsPieces.Set(HaveIndex(frame, piece.garbage));
      } else if id == BITFIELD {
        clientsPieces := BitSet(Unpack(frame[5..]), clientsPieces.beyond);
        messages := messages + [INTERESTED_MESSAGE];
      } else if id == PIECE {
        status := ProcessPiece(frame);
      }
    }

    /** One call on the buffered bytes: the number consumed and how it ended. */
    method ProcessMessage(data: seq<byte>) returns (processed: nat, status: Status)
      requires InStep(State())
      modifies Repr()
      ensures fresh(Repr() - old(Repr())) && processed <= |data|
      ensures Parse(shaken, State(), data[processed..], status) == Process(HandleFrame, old(shaken), old(State()), data)
      ensures status.Running? ==> InStep(State())
      ensures QueueGrows(old(messages), messages)
    {
      ProcessQueuesFrames(shaken, State(), data);
      processed := 0;
      if !shaken {
        if HANDSHAKE_SIZE > |data| {
          assert data[0..] == data;
          return 0, Running;
        }
        processed := HANDSHAKE_SIZE;
        shaken := true;
      }
      assert data[0..] == data;
      processed, status := ProcessLoop(data, processed);
    }

    method ProcessLoop(data: seq<byte>, start: nat) returns (processed: nat, status: Status)
      requires InStep(State()) && shaken && start <= |data|
      modifies Repr()
      ensures fresh(Repr() - old(Repr())) && processed <= |data|
      ensures Parse(shaken, State(), data[processed..], status) == Loop(HandleFrame, old(State()), data[start..])
      ensures status.Running? ==> InStep(State())
    {
      processed, status := start, Running;
      var stop := false;
      while processed + LENGTH_SIZE < |data| && !stop
        invariant processed <= |data| && shaken && (stop || status == Running)
        invariant fresh(Repr() - old(Repr()))
        invariant status.Running? ==> InStep(State())
        invariant Loop(HandleFrame, old(State()), data[start..]) ==
                    if stop then Parse(true, State(), data[processed..], status)
                    else Loop(HandleFrame, State(), data[processed..])
        decreases |data| - processed, !stop
      {
        processed, status, stop := ProcessOne(data, processed);
      }
    }

    /** One turn of the loop: skip a keep-alive, stop at an incomplete message, refuse an
        unknown id, or dispatch a frame. */
    method ProcessOne(data: seq<byte>, at: nat) returns (next: nat, status: Status, stop: bool)
      requires InStep(State()) && shaken && at + LENGTH_SIZE < |data|
      modifies Repr()
      ensures fresh(Repr() - old(Repr())) && shaken && at <= next <= |data|
      ensures stop || (status.Running? && at < next)
      ensures status.Running? ==> InStep(State())
      ensures Loop(HandleFrame, old(State()), data[at..]) ==
                if stop then Parse(true, State(), data[next..], status) else Loop(HandleFrame, State(), data[next..])
    {
      var rest := data[at..];
      var messageSize := Get32(rest);
      if messageSize == 0 {
        assert data[at + LENGTH_SIZE..] == rest[LENGTH_SIZE..];
        return at + LENGTH_SIZE, Running, false;
      }
      if messageSize + LENGTH_SIZE > |rest| {
        return at, Running, true;
      }
      if rest[4] >= NUM_OF_TYPES {
        return at, Threw, true;
      }
      next := at + messageSize + LENGTH_SIZE;
      var frame := data[at..next];
      assert rest == frame + data[next..];
      LoopOnFrame(HandleFrame, State(), frame, data[next..]);
      HandlerKeepsInStep(State(), frame);
      status := ProcessFrame(frame);
      if status != Running {
        return at, status, true;
      }
      stop := false;
    }
  }
}
