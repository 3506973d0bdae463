/** The read and write callbacks around a session (client_logic.cpp). */
module ClientLogics {
  import opened Bytes
  import opened PieceLists
  import opened Messages
  import opened Framing
  import opened Session
  import opened PeerProtocols
  import opened ReadLoops

  lemma ConcatOneMore<T>(parts: seq<seq<T>>, part: seq<T>, rest: seq<T>)
    ensures Concat(parts) + (part + rest) == Concat(parts + [part]) + rest
  {
    ConcatAppend(parts, [part]);
    assert Concat([part]) == part + [];
  }

  // ----- the callbacks

  /** A connection as one callback sees it: bytes that have arrived, messages written. */
  class Socket {
    var incoming: seq<byte>
    var outgoing: seq<seq<byte>>

    /** Some of the bytes that have arrived, at most `capacity`; none only if there are none
        or no room. */
    method Read(capacity: nat) returns (bytes: seq<byte>)
      modifies this`incoming
      ensures bytes + incoming == old(incoming) && |bytes| <= capacity
      ensures bytes == [] <==> capacity == 0 || old(incoming) == []
    {
      if capacity == 0 || incoming == [] {
        return [];
      }
      var n: nat :| 1 <= n <= capacity && n <= |incoming|;
      bytes := incoming[..n];
      incoming := incoming[n..];
      assert bytes + incoming == old(incoming);
    }

    method Write(message: seq<byte>)
      modifies this`outgoing
      ensures outgoing == old(outgoing) + [message]
    {
      outgoing := outgoing + [message];
    }
  }

  /** What one turn amounts to, from the outcome of the parse. */
  lemma TurnOutcome<S>(h: Handler<S>, before: ReadState<S>, chunk: seq<byte>, all: seq<byte>, r: Parse<S>, end: ReadEnd)
    requires all == before.buf + chunk && r == Process(h, before.shaken, before.state, all)
    requires end == TurnEnd(r, all)
    ensures TakeOne(h, before, chunk) == ReadState(r.shaken, r.state, if r.status.Running? then r.rest else all, end)
  {
  }

  /** One call of process_message on the buffer and more bytes. */
  ghost function OneCall<S>(h: Handler<S>, before: ReadState<S>, bytes: seq<byte>): ReadState<S> {
    var r := Process(h, before.shaken, before.state, before.buf + bytes);
    ReadState(r.shaken, r.state, r.rest, if r.status.Running? then Fine else Refused)
  }

  lemma ReadIsOneCall<S>(h: Handler<S>, before: ReadState<S>, after: ReadState<S>, chunks: seq<seq<byte>>)
    requires Settled(h, before.shaken, before.state, before.buf)
    requires TakeAll(h, before, chunks) == after && after.end.Fine?
    ensures OneCall(h, before, Concat(chunks)) == after && Settled(h, after.shaken, after.state, after.buf)
  {
    FineReadIsOneCall(h, before.shaken, before.state, before.buf, chunks);
  }

  datatype Mode = WaitForRead | WaitForWrite

  /** A handshake first, complete frames after it. */
  ghost predicate WellFormedLog(log: seq<seq<byte>>) {
    |log| > 0 && |log[0]| == HANDSHAKE_SIZE && forall i :: 1 <= i < |log| ==> IsFrame(log[i])
  }

  lemma LogGrows(log: seq<seq<byte>>, queued: seq<seq<byte>>)
    requires WellFormedLog(log) && QueueGrows([], queued)
    ensures WellFormedLog(log + queued) && QueueGrows(log, log + queued)
  {
    forall i | |log| <= i < |log + queued| ensures IsFrame((log + queued)[i]) {
      assert (log + queued)[i] == queued[i - |log|];
    }
    assert (log + queued)[..|log|] == log;
  }

  class ClientLogic {
    var mode: Mode
    const buffer: array<byte>
    var bufferSize: nat
    const protocol: PeerProtocol
    const socket: Socket
    ghost var log: seq<seq<byte>>  // every message queued so far

    /** Between callbacks: the socket is watched for writing exactly when something is
        queued; what was written and what is queued are all messages, in order. */
    ghost predicate Valid()
      reads this, buffer, protocol, protocol.Repr(), socket
    {
      && Ready()
      && Settled(HandleFrame, protocol.shaken, protocol.State(), buffer[..bufferSize])
      && (mode.WaitForWrite? <==> protocol.messages != [])
      && socket.outgoing + protocol.messages == log && WellFormedLog(log)
    }

    constructor (handshake: seq<byte>, clientsPieces: BitSet, offset: nat, garbage: nat -> byte,
                 files: PieceSink, pieceList: PieceList, socket: Socket)
      requires |handshake| == HANDSHAKE_SIZE && socket.outgoing == []
      ensures Valid() && mode.WaitForWrite? && log == [handshake] && this.socket == socket
    {
      mode := WaitForWrite;
      buffer := new byte[CAPACITY];
      bufferSize := 0;
      protocol := new PeerProtocol(handshake, clientsPieces, offset, garbage, files, pieceList);
      this.socket := socket;
      log := [handshake];
      new;
      assert buffer[..0] == [];
    }

    /** What other connections do to the shared allocator and files leaves this one valid. */
    twostate lemma StaysValid()
      requires old(Valid()) && unchanged(this, buffer, socket, protocol, protocol.piece)
      requires protocol.piece.data != null ==> unchanged(protocol.piece.data)
      ensures Valid()
    {
      SettledInAnyState(HandleFrame, protocol.shaken, old(protocol.State()), protocol.State(), buffer[..bufferSize]);
    }

    /** How far reading has come. */
    ghost function Reading(end: ReadEnd): ReadState<World>
      reads this`bufferSize, buffer, protocol, protocol.Repr()
      requires bufferSize <= buffer.Length
    {
      ReadState(protocol.shaken, protocol.State(), buffer[..bufferSize], end)
    }

    /** One chunk: append it, parse what can be parsed, move the rest to the front. */
    method Take(chunk: seq<byte>) returns (end: ReadEnd)
      requires buffer.Length == CAPACITY && bufferSize + |chunk| <= CAPACITY
      requires InStep(protocol.State()) && buffer as object !in protocol.Repr()
      modifies this`bufferSize, buffer, protocol.Repr()
      ensures fresh(protocol.Repr() - old(protocol.Repr())) && bufferSize <= CAPACITY
      ensures end.Fine? ==> Ready()
      ensures QueueGrows(old(protocol.messages), protocol.messages)
      ensures Reading(end) == TakeOne(HandleFrame, old(Reading(Fine)), chunk)
    {
      var all := Append(chunk);
      end := ParseAndSettle(all);
      ghost var r := Process(HandleFrame, old(protocol.shaken), old(protocol.State()), all);
      TurnOutcome(HandleFrame, old(Reading(Fine)), chunk, all, r, end);
    }

    /** What follows the read in a turn. */
    method ParseAndSettle(all: seq<byte>) returns (end: ReadEnd)
      requires buffer.Length == CAPACITY && bufferSize <= CAPACITY && all == buffer[..bufferSize]
      requires InStep(protocol.State()) && buffer as object !in protocol.Repr()
      modifies this`bufferSize, buffer, protocol.Repr()
      ensures fresh(protocol.Repr() - old(protocol.Repr())) && bufferSize <= CAPACITY
      ensures end.Fine? ==> Ready()
      ensures QueueGrows(old(protocol.messages), protocol.messages)
      ensures var r := Process(HandleFrame, old(protocol.shaken), old(protocol.State()), all);
              && end == TurnEnd(r, all)
              && Reading(end) == ReadState(r.shaken, r.state, if r.status.Running? then r.rest else all, end)
    {
      var processed, status := ParseBuffer(all);
      end := Settle(all, processed, status);
    }

    /** process_message on the bytes in the buffer, which it does not change. */
    method ParseBuffer(all: seq<byte>) returns (processed: nat, status: Status)
      requires InStep(protocol.State()) && buffer as object !in protocol.Repr()
      requires bufferSize <= buffer.Length && all == buffer[..bufferSize]
      modifies protocol.Repr()
      ensures fresh(protocol.Repr() - old(protocol.Repr())) && processed <= |all| && buffer[..bufferSize] == all
      ensures buffer as object !in protocol.Repr() && (status.Running? ==> InStep(protocol.State()))
      ensures QueueGrows(old(protocol.messages), protocol.messages)
      ensures Parse(protocol.shaken, protocol.State(), all[processed..], status)
           == Process(HandleFrame, old(protocol.shaken), old(protocol.State()), all)
    {
      processed, status := protocol.ProcessMessage(all);
    }

    /** After the parse, if it did not throw: the early check, the move to the front, the
        space check. */
    method Settle(all: seq<byte>, processed: nat, status: Status) returns (end: ReadEnd)
      requires buffer.Length == CAPACITY && bufferSize <= CAPACITY && all == buffer[..bufferSize] && processed <= |all|
      requires buffer as object !in protocol.Repr()
      modifies this`bufferSize, buffer
      ensures protocol.State() == old(protocol.State()) && protocol.Repr() == old(protocol.Repr())
      ensures bufferSize <= CAPACITY && buffer[..bufferSize] == if status.Running? then all[processed..] else all
      ensures end == if !status.Running? then Refused
                     else if processed == 0 && |all| > 5 && all[4] > 8 then EarlyReject
                     else if |all| - processed == CAPACITY then BufferFull else Fine
    {
      if status != Running {
        return Refused;
      }
      if processed == 0 && bufferSize > 5 && buffer[4] > 8 {
        return EarlyReject;
      }
      Compact(all, processed);
      end := if bufferSize == CAPACITY then BufferFull else Fine;
    }

    method Append(chunk: seq<byte>) returns (all: seq<byte>)
      requires bufferSize + |chunk| <= buffer.Length && buffer as object !in protocol.Repr()
      modifies this`bufferSize, buffer
      ensures protocol.State() == old(protocol.State()) && protocol.Repr() == old(protocol.Repr())
      ensures bufferSize == |all| && all == old(buffer[..bufferSize]) + chunk && buffer[..bufferSize] == all
    {
      forall k | 0 <= k < |chunk| {
        buffer[bufferSize + k] := chunk[k];
      }
      bufferSize := bufferSize + |chunk|;
      all := buffer[..bufferSize];
    }

    /** memmove of the unprocessed bytes to the front of the buffer. */
    method Compact(ghost all: seq<byte>, processed: nat)
      requires bufferSize <= buffer.Length && all == buffer[..bufferSize] && processed <= bufferSize
      modifies this`bufferSize, buffer
      ensures bufferSize == |all| - processed && buffer[..bufferSize] == all[processed..]
    {
      if processed < bufferSize {
        forall k | 0 <= k < bufferSize - processed {
          buffer[k] := buffer[processed + k];
        }
        bufferSize := bufferSize - processed;
      } else {
        bufferSize := 0;
      }
    }

    /** Reads until the socket has nothing more. Unless it throws, the effect is one call of
        process_message on the old buffer and all that arrived. */
    method OnRead() returns (end: ReadEnd, ghost chunks: seq<seq<byte>>)
      requires Valid()
      modifies this, buffer, protocol.Repr(), socket
      ensures Concat(chunks) + socket.incoming == old(socket.incoming) && socket.outgoing == old(socket.outgoing)
      ensures bufferSize <= buffer.Length
      ensures old(mode).WaitForWrite? ==>
                && end.Fine? && chunks == [] && Valid() && log == old(log) && mode == old(mode)
                && Reading(Fine) == old(Reading(Fine))
      ensures old(mode).WaitForRead? ==> Reading(end) == TakeAll(HandleFrame, old(Reading(Fine)), chunks)
      ensures old(mode).WaitForRead? && end.Fine? ==>
                && socket.incoming == [] && Valid() && QueueGrows(old(log), log)
                && Reading(Fine) == OneCall(HandleFrame, old(Reading(Fine)), old(socket.incoming))
    {
      if mode != WaitForRead {
        return Fine, [];
      }
      end, chunks := ReadAndRearm();
    }

    method ReadAndRearm() returns (end: ReadEnd, ghost chunks: seq<seq<byte>>)
      requires Valid() && mode.WaitForRead?
      modifies this, buffer, protocol.Repr(), socket
      ensures Concat(chunks) + socket.incoming == old(socket.incoming) && socket.outgoing == old(socket.outgoing)
      ensures bufferSize <= buffer.Length && Reading(end) == TakeAll(HandleFrame, old(Reading(Fine)), chunks)
      ensures end.Fine? ==> socket.incoming == [] && Valid() && QueueGrows(old(log), log)
      ensures end.Fine? ==> Reading(Fine) == OneCall(HandleFrame, old(Reading(Fine)), old(socket.incoming))
    {
      end, chunks := ReadToEnd();
      if end.Fine? {
        Rearm();
      }
    }

    method ReadToEnd() returns (end: ReadEnd, ghost chunks: seq<seq<byte>>)
      requires Ready() && Settled(HandleFrame, protocol.shaken, protocol.State(), buffer[..bufferSize])
      modifies this`bufferSize, buffer, protocol.Repr(), socket`incoming
      ensures fresh(protocol.Repr() - old(protocol.Repr())) && bufferSize <= CAPACITY
      ensures Concat(chunks) + socket.incoming == old(socket.incoming)
      ensures Reading(end) == TakeAll(HandleFrame, old(Reading(Fine)), chunks)
      ensures QueueGrows(old(protocol.messages), protocol.messages)
      ensures end.Fine? ==>
                && Ready() && socket.incoming == []
                && Settled(HandleFrame, protocol.shaken, protocol.State(), buffer[..bufferSize])
                && Reading(Fine) == OneCall(HandleFrame, old(Reading(Fine)), old(socket.incoming))
    {
      ghost var before, incoming := Reading(Fine), socket.incoming;
      end, chunks := ReadWhileAvailable();
      if end.Fine? {
        assert Concat(chunks) == incoming;
        ReadIsOneCall(HandleFrame, before, Reading(Fine), chunks);
      }
    }

    /** The end of on_read: what was queued is now watched for. */
    method Rearm()
      requires Ready() && Settled(HandleFrame, protocol.shaken, protocol.State(), buffer[..bufferSize])
      requires mode.WaitForRead? && socket.outgoing == log && WellFormedLog(log) && QueueGrows([], protocol.messages)
      modifies this`mode, this`log
      ensures Valid() && QueueGrows(old(log), log) && Reading(Fine) == old(Reading(Fine))
    {
      if protocol.messages != [] {
        mode := WaitForWrite;
      }
      LogGrows(log, protocol.messages);
      log := log + protocol.messages;
    }

    /** What a callback can see and change, between two turns of the read loop. */
    ghost predicate Ready()
      reads this`bufferSize, buffer, protocol, protocol.Repr()
    {
      && buffer.Length == CAPACITY && bufferSize < CAPACITY
      && InStep(protocol.State()) && buffer as object !in protocol.Repr()
    }

    /** One turn: read once, and take what came. */
    method Turn() returns (end: ReadEnd, more: bool, ghost chunk: seq<byte>)
      requires Ready()
      modifies this`bufferSize, buffer, protocol.Repr(), socket`incoming
      ensures fresh(protocol.Repr() - old(protocol.Repr())) && bufferSize <= CAPACITY
      ensures chunk + socket.incoming == old(socket.incoming)
      ensures more <==> chunk != []
      ensures end.Fine? ==> Ready()
      ensures QueueGrows(old(protocol.messages), protocol.messages)
      ensures !more ==> end.Fine? && socket.incoming == [] && Reading(Fine) == old(Reading(Fine))
      ensures more ==> Reading(end) == TakeOne(HandleFrame, old(Reading(Fine)), chunk)
    {
      var bytes := socket.Read(CAPACITY - bufferSize);
      chunk := bytes;
      more := bytes != [];
      end := Fine;
      if more {
        end := Take(bytes);
      }
    }

    method ReadWhileAvailable() returns (end: ReadEnd, ghost chunks: seq<seq<byte>>)
      requires Ready()
      modifies this`bufferSize, buffer, protocol.Repr(), socket`incoming
      ensures fresh(protocol.Repr() - old(protocol.Repr())) && bufferSize <= CAPACITY
      ensures Concat(chunks) + socket.incoming == old(socket.incoming)
      ensures end.Fine? ==> Ready() && socket.incoming == []
      ensures QueueGrows(old(protocol.messages), protocol.messages)
      ensures Reading(end) == TakeAll(HandleFrame, old(Reading(Fine)), chunks)
    {
      ghost var before, repr0 := Reading(Fine), protocol.Repr();
      ghost var queue0, incoming0 := protocol.messages, socket.incoming;
      end, chunks := Fine, [];
      var more := true;
      while more && end.Fine?
        invariant end.Fine? ==> Ready()
        invariant bufferSize <= CAPACITY && fresh(protocol.Repr() - repr0)
        invariant Concat(chunks) + socket.incoming == incoming0
        invariant QueueGrows(queue0, protocol.messages)
        invariant TakeAll(HandleFrame, before, chunks) == Reading(end)
        invariant !more ==> socket.incoming == []
        decreases |socket.incoming|, more
      {
        ghost var queue1, chunk := protocol.messages, [];
        end, more, chunk := Turn();
        QueueGrowsOn(queue0, queue1, protocol.messages);
        if more {
          ReadAllThenOne(HandleFrame, before.shaken, before.state, before.buf, chunks, chunk);
          ConcatOneMore(chunks, chunk, socket.incoming);
          chunks := chunks + [chunk];
        }
      }
    }

    /** Writes every queued message once, in order. */
    method OnWrite()
      requires Valid()
      modifies this, protocol, socket
      ensures Valid() && log == old(log)
      ensures bufferSize == old(bufferSize) && protocol.shaken == old(protocol.shaken)
      ensures socket.incoming == old(socket.incoming)
      ensures protocol.State()
              == old(protocol.State()).(peer := old(protocol.State()).peer.(queue := protocol.messages))
      ensures old(mode).WaitForRead? ==> socket.outgoing == old(socket.outgoing) && mode == old(mode)
      ensures old(mode).WaitForWrite? ==>
                mode.WaitForRead? && protocol.messages == []
                  && socket.outgoing == old(socket.outgoing) + old(protocol.messages)
    {
      if mode != WaitForWrite {
        return;
      }
      var messageSent := false;
      var more := true;
      while more
        invariant bufferSize == old(bufferSize) && protocol.shaken == old(protocol.shaken) && log == old(log)
        invariant socket.incoming == old(socket.incoming)
        invariant protocol.State()
                  == old(protocol.State()).(peer := old(protocol.State()).peer.(queue := protocol.messages))
        invariant socket.outgoing + protocol.messages == log
        invariant messageSent || protocol.messages == old(protocol.messages)
        invariant !more ==> protocol.messages == [] && messageSent
        decreases |protocol.messages|, more
      {
        ghost var written, queued := socket.outgoing, protocol.messages;
        var message := protocol.GetMessage();
        assert queued != [] ==>
                 (message == log[|written|] && written + queued == written + [message] + protocol.messages);
        if message == [] {
          more := false;
        } else {
          messageSent := true;
          socket.Write(message);
        }
      }
      mode := if messageSent then WaitForRead else WaitForWrite;
    }
  }

  /** What has been written at any moment between callbacks parses back, under the same
      framing, to the messages written: the handshake, then each queued message once, in
      order. */
  lemma WrittenStreamParsesBack(outgoing: seq<seq<byte>>, queue: seq<seq<byte>>, log: seq<seq<byte>>)
    requires WellFormedLog(log) && outgoing + queue == log && outgoing != []
    ensures outgoing == log[..|outgoing|]
    ensures Process(Record, false, [], Concat(outgoing)) == Parse(true, log[1..|outgoing|], [], Running)
  {
    assert outgoing == log[..|outgoing|];
    assert outgoing[1..] == log[1..|outgoing|];
    StreamParsesBack(outgoing[0], outgoing[1..]);
    assert Concat(outgoing) == outgoing[0] + Concat(outgoing[1..]);
  }
}
