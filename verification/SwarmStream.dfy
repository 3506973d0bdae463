/** From the bytes of a connection to the steps of the interleaved system. */
module SwarmStreams {
  import opened Bytes
  import opened Messages
  import opened Framing
  import opened ReadLoops
  import opened Session
  import opened Swarms
  import opened SwarmRuns
  import opened SwarmWitnesses

  /** Nothing but session p, and what the sessions share, has changed. */
  ghost predicate OthersAlone(s: Swarm, t: Swarm, p: nat) {
    && |t.members| == |s.members|
    && forall q :: 0 <= q < |s.members| && q != p ==> t.members[q] == s.members[q]
  }

  /** Session p is where a call of the parser has left it, or is closed if the call threw. */
  ghost predicate Reached(s: Swarm, t: Swarm, p: nat, state: World, status: Status)
    requires p < |s.members|
  {
    && OthersAlone(s, t, p)
    && if status.Running? then t.members[p].task.Idle? && WorldOf(t, p) == state
       else t.members[p].task.Gone? && t.pool == state.pool && PiecesOf(t.deliveries) == state.written
  }

  /** A handler that throws is one step, which closes the connection. */
  lemma ThrowIsARun(s: Swarm, p: nat, frame: seq<byte>)
    requires Enabled(s, Message(p, frame)) && Start(WorldOf(s, p), frame).status.Threw?
    ensures var t, r := AfterMessage(s, p, frame), HandleFrame(WorldOf(s, p), frame);
            r.status.Threw? && Reached(s, t, p, r.state, Threw)
  {
  }

  lemma LeaveIsARun(s: Swarm, p: nat)
    requires p < |s.members| && s.members[p].task.Idle?
    ensures Enabled(s, Leave(p)) && Reached(s, Close(s, p), p, WorldOf(s, p), Threw)
  {
  }

  /** A complete frame, handled to the end, is a run. */
  lemma FrameIsARun(s: Swarm, p: nat, frame: seq<byte>) returns (events: seq<Event>)
    requires p < |s.members| && s.members[p].task.Idle? && !HandleFrame(WorldOf(s, p), frame).status.Undefined?
    ensures var r := HandleFrame(WorldOf(s, p), frame);
            Runs(s, events) && Reached(s, After(s, events), p, r.state, r.status)
  {
    if Start(WorldOf(s, p), frame).status.Running? {
      events := HandlerIsARun(s, p, frame);
    } else {
      events := [Message(p, frame)];
      ThrowIsARun(s, p, frame);
      OneStep(s, Message(p, frame));
    }
  }

  lemma {:induction false} LoopIsARun(s: Swarm, p: nat, buf: seq<byte>) returns (events: seq<Event>)
    requires p < |s.members| && s.members[p].task.Idle?
    requires !Loop(HandleFrame, WorldOf(s, p), buf).status.Undefined?
    ensures var r := Loop(HandleFrame, WorldOf(s, p), buf);
            Runs(s, events) && Reached(s, After(s, events), p, r.state, r.status)
    decreases |buf|, 1
  {
    events := [];
    if |buf| > LENGTH_SIZE {
      var size := Get32(buf);
      if size == 0 {
        events := LoopIsARun(s, p, buf[LENGTH_SIZE..]);
      } else if size + LENGTH_SIZE <= |buf| {
        if buf[4] >= NUM_OF_TYPES {
          events := [Leave(p)];
          LeaveIsARun(s, p);
          OneStep(s, Leave(p));
        } else {
          events := MessageAndRest(s, p, buf, buf[..size + LENGTH_SIZE], buf[size + LENGTH_SIZE..]);
        }
      }
    }
  }

  lemma {:induction false} MessageAndRest(s: Swarm, p: nat, buf: seq<byte>, frame: seq<byte>, rest: seq<byte>)
    returns (events: seq<Event>)
    requires p < |s.members| && s.members[p].task.Idle? && IsFrame(frame) && buf == frame + rest
    requires !Loop(HandleFrame, WorldOf(s, p), buf).status.Undefined?
    ensures var r := Loop(HandleFrame, WorldOf(s, p), buf);
            Runs(s, events) && Reached(s, After(s, events), p, r.state, r.status)
    decreases |buf|, 0
  {
    LoopOnFrame(HandleFrame, WorldOf(s, p), frame, rest);
    events := FrameIsARun(s, p, frame);
    if HandleFrame(WorldOf(s, p), frame).status.Running? {
      var more := LoopIsARun(After(s, events), p, rest);
      RunsAppend(s, events, more);
      events := events + more;
    }
  }

  /** Whatever bytes a connection delivers, handshake, keep-alives, messages, a broken one:
      a call of process_message on them, up to the throw if it throws, is one of the runs of
      the interleaved system, and moves no other session. */
  lemma ProcessIsARun(s: Swarm, p: nat, shaken: bool, buf: seq<byte>) returns (events: seq<Event>)
    requires p < |s.members| && s.members[p].task.Idle?
    requires !Process(HandleFrame, shaken, WorldOf(s, p), buf).status.Undefined?
    ensures var r := Process(HandleFrame, shaken, WorldOf(s, p), buf);
            Runs(s, events) && Reached(s, After(s, events), p, r.state, r.status)
  {
    if shaken {
      events := LoopIsARun(s, p, buf);
    } else if |buf| < HANDSHAKE_SIZE {
      events := [];
    } else {
      events := LoopIsARun(s, p, buf[HANDSHAKE_SIZE..]);
    }
  }

  // ----- a whole read callback

  /** No turn of the read loop is undefined. */
  ghost predicate Defined(shaken: bool, w: World, buf: seq<byte>, chunks: seq<seq<byte>>)
    decreases |chunks|
  {
    chunks != [] ==>
      var r := ReadOne(HandleFrame, shaken, w, buf, chunks[0]);
      && !Process(HandleFrame, shaken, w, buf + chunks[0]).status.Undefined?
      && (r.end.Fine? ==> Defined(r.shaken, r.state, r.buf, chunks[1..]))
  }

  /** One turn, with the close that follows if one of its checks refuses what is left. */
  lemma TurnIsARun(s: Swarm, p: nat, shaken: bool, buf: seq<byte>, chunk: seq<byte>) returns (events: seq<Event>)
    requires p < |s.members| && s.members[p].task.Idle?
    requires !Process(HandleFrame, shaken, WorldOf(s, p), buf + chunk).status.Undefined?
    ensures var r := ReadOne(HandleFrame, shaken, WorldOf(s, p), buf, chunk);
            Runs(s, events) && Reached(s, After(s, events), p, r.state, if r.end.Fine? then Running else Threw)
  {
    events := ProcessIsARun(s, p, shaken, buf + chunk);
    var t := After(s, events);
    var r := ReadOne(HandleFrame, shaken, WorldOf(s, p), buf, chunk);
    if Process(HandleFrame, shaken, WorldOf(s, p), buf + chunk).status.Running? && !r.end.Fine? {
      LeaveIsARun(t, p);
      OneStep(t, Leave(p));
      RunsAppend(s, events, [Leave(p)]);
      events := events + [Leave(p)];
    }
  }

  /** Whatever the socket returns, in whatever chunks: a read callback, up to the throw if it
      throws, is one of the runs of the interleaved system, and moves no other session. */
  lemma {:induction false} ReadIsARun(s: Swarm, p: nat, shaken: bool, buf: seq<byte>, chunks: seq<seq<byte>>)
    returns (events: seq<Event>)
    requires p < |s.members| && s.members[p].task.Idle? && Defined(shaken, WorldOf(s, p), buf, chunks)
    ensures var r := ReadAll(HandleFrame, shaken, WorldOf(s, p), buf, chunks);
            Runs(s, events) && Reached(s, After(s, events), p, r.state, if r.end.Fine? then Running else Threw)
    decreases |chunks|
  {
    events := [];
    if chunks != [] {
      events := TurnIsARun(s, p, shaken, buf, chunks[0]);
      var r := ReadOne(HandleFrame, shaken, WorldOf(s, p), buf, chunks[0]);
      if r.end.Fine? {
        var more := ReadIsARun(After(s, events), p, r.shaken, r.buf, chunks[1..]);
        RunsAppend(s, events, more);
        events := events + more;
      }
    }
  }
}
