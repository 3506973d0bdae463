/** Where the blocks of a written piece came from: the messages of the run. */
module SwarmHistories {
  import opened Bytes
  import opened PieceRuns
  import opened Messages
  import opened Session
  import opened Swarms
  import opened SwarmRuns

  /** The payloads of the PIECE messages for `index` that session p got, in order. */
  ghost function PayloadsFor(events: seq<Event>, p: nat, index: int): seq<Chunk>
    decreases |events|
  {
    if events == [] then []
    else
      var last := events[|events| - 1];
      PayloadsFor(events[..|events| - 1], p, index) + PayloadFor(last, p, index)
  }

  ghost function PayloadFor(e: Event, p: nat, index: int): seq<Chunk> {
    if e.Message? && e.p == p && |e.frame| >= 13 && e.frame[4] == PIECE && Field(e.frame, 5) == index then
      [Chunk(e.frame[13..], Field(e.frame, 9))]
    else []
  }

  // ----- runs, from the end

  lemma {:induction false} RunsFront(s: Swarm, events: seq<Event>, m: nat)
    requires Runs(s, events) && m <= |events|
    ensures Runs(s, events[..m])
    decreases m
  {
    if m > 0 {
      assert events[..m][0] == events[0] && events[..m][1..] == events[1..][..m - 1];
      RunsFront(Apply(s, events[0]), events[1..], m - 1);
    }
  }

  lemma {:induction false} AfterLastEvent(s: Swarm, events: seq<Event>, front: seq<Event>, e: Event)
    requires Runs(s, events) && events == front + [e]
    ensures Runs(s, front) && Enabled(After(s, front), e) && After(s, events) == Apply(After(s, front), e)
    decreases |front|
  {
    if front == [] {
      assert events == [e] && events[1..] == [];
    } else {
      assert events[0] == front[0] && events[1..] == front[1..] + [e];
      AfterLastEvent(Apply(s, events[0]), events[1..], front[1..], e);
    }
  }

  // ----- the history of a session and of a delivery

  /** Event t is the draw that gave session p this piece. */
  ghost predicate DrawnAt(s: Swarm, events: seq<Event>, t: nat, p: nat, index: int) {
    && t < |events| && events[t] == DrawPiece(p) && Runs(s, events[..t + 1])
    && p < |After(s, events[..t + 1]).members| && After(s, events[..t + 1]).members[p].peer.index == index
  }

  /** Session p drew the piece with event t and got these blocks for it before event u. */
  ghost predicate Gathered(s: Swarm, events: seq<Event>, p: nat, t: nat, u: nat, index: int, chunks: seq<Chunk>) {
    DrawnAt(s, events, t, p, index) && t < u <= |events| && chunks == PayloadsFor(events[t + 1..u], p, index)
  }

  /** And the last of these events was a message to it. */
  ghost predicate Completed(s: Swarm, events: seq<Event>, p: nat, t: nat, u: nat, index: int, chunks: seq<Chunk>) {
    Gathered(s, events, p, t, u, index, chunks) && events[u - 1].Message? && events[u - 1].p == p
  }

  ghost predicate Explained(s: Swarm, events: seq<Event>, index: int, chunks: seq<Chunk>) {
    exists p: nat, t: nat, u: nat :: Completed(s, events, p, t, u, index, chunks)
  }

  ghost predicate HeldExplained(s: Swarm, events: seq<Event>, p: nat, m: Member) {
    exists t: nat :: Gathered(s, events, p, t, |events|, m.peer.index, m.chunks)
  }

  ghost predicate AllExplained(s: Swarm, events: seq<Event>, now: Swarm) {
    && (forall p :: 0 <= p < |now.members| && now.members[p].task.Idle? && now.members[p].peer.index >= 0 ==>
          HeldExplained(s, events, p, now.members[p]))
    && (forall i :: 0 <= i < |now.deliveries| ==>
          Explained(s, events, now.deliveries[i].piece.index, now.deliveries[i].chunks))
  }

  lemma GatheredLater(s: Swarm, front: seq<Event>, events: seq<Event>, e: Event, p: nat, t: nat, u: nat, index: int,
                      chunks: seq<Chunk>)
    requires events == front + [e] && Gathered(s, front, p, t, u, index, chunks)
    ensures Gathered(s, events, p, t, u, index, chunks)
  {
    assert events[..t + 1] == front[..t + 1] && events[t + 1..u] == front[t + 1..u];
  }

  lemma GatheredMore(s: Swarm, front: seq<Event>, events: seq<Event>, e: Event, p: nat, t: nat, index: int,
                     chunks: seq<Chunk>)
    requires events == front + [e] && Gathered(s, front, p, t, |front|, index, chunks)
    ensures Gathered(s, events, p, t, |events|, index, chunks + PayloadFor(e, p, index))
  {
    SlicesOfLonger(front, e, events, t + 1);
    PayloadsMore(front[t + 1..|front|], e, p, index);
  }

  lemma SlicesOfLonger<T>(front: seq<T>, e: T, all: seq<T>, k: nat)
    requires all == front + [e] && k <= |front|
    ensures all[..k] == front[..k] && all[k..|all|] == front[k..|front|] + [e]
  {
    assert forall i :: 0 <= i < |front| ==> all[i] == front[i];
    assert all[|front|] == e;
  }

  lemma PayloadsMore(events: seq<Event>, e: Event, p: nat, index: int)
    ensures PayloadsFor(events + [e], p, index) == PayloadsFor(events, p, index) + PayloadFor(e, p, index)
  {
    assert (events + [e])[..|events|] == events;
  }

  lemma ExplainedLater(s: Swarm, front: seq<Event>, events: seq<Event>, e: Event, index: int, chunks: seq<Chunk>)
    requires events == front + [e] && Explained(s, front, index, chunks)
    ensures Explained(s, events, index, chunks)
  {
    var p: nat, t: nat, u: nat :| Completed(s, front, p, t, u, index, chunks);
    GatheredLater(s, front, events, e, p, t, u, index, chunks);
    assert Completed(s, events, p, t, u, index, chunks);
  }

  /** A session the event does not touch, or whose piece it leaves in its hand. */
  lemma HeldLater(s: Swarm, front: seq<Event>, events: seq<Event>, e: Event, p: nat, m: Member, n: Member)
    requires events == front + [e] && HeldExplained(s, front, p, m)
    requires n.peer.index == m.peer.index && n.chunks == m.chunks + PayloadFor(e, p, m.peer.index)
    ensures HeldExplained(s, events, p, n)
  {
    var t: nat :| Gathered(s, front, p, t, |front|, m.peer.index, m.chunks);
    GatheredMore(s, front, events, e, p, t, m.peer.index, m.chunks);
  }

  lemma OtherHeldLater(s: Swarm, front: seq<Event>, events: seq<Event>, e: Event, p: nat, m: Member)
    requires events == front + [e] && HeldExplained(s, front, p, m) && (e.Message? ==> e.p != p)
    ensures HeldExplained(s, events, p, m)
  {
    assert m.chunks + [] == m.chunks;
    HeldLater(s, front, events, e, p, m, m);
  }

  /** A piece just drawn has no blocks yet. */
  lemma HeldFromNow(s: Swarm, front: seq<Event>, events: seq<Event>, p: nat, now: Swarm)
    requires events == front + [DrawPiece(p)] && Runs(s, events) && now == After(s, events) && p < |now.members|
    requires now.members[p].chunks == []
    ensures HeldExplained(s, events, p, now.members[p])
  {
    var t := |front|;
    assert events[..t + 1] == events && events[t + 1..|events|] == [];
    assert Gathered(s, events, p, t, |events|, now.members[p].peer.index, []);
  }

  lemma MessageExplained(s: Swarm, front: seq<Event>, events: seq<Event>, p: nat, frame: seq<byte>, before: Swarm)
    requires Runs(s, events) && events == front + [Message(p, frame)] && Runs(s, front) && before == After(s, front)
    requires Inv(before) && AllExplained(s, front, before) && Enabled(before, Message(p, frame))
    ensures AllExplained(s, events, AfterMessage(before, p, frame))
  {
    var m, now, e := before.members[p], AfterMessage(before, p, frame), Message(p, frame);
    var index, chunks := m.peer.index, m.chunks + PayloadFor(e, p, m.peer.index);
    if Start(WorldOf(before, p), frame).status.Running? {
      MessageEffect(before, p, frame);
      if index >= 0 {
        HeldLater(s, front, events, e, p, m, m.(chunks := chunks));
        var t: nat :| Gathered(s, events, p, t, |events|, index, chunks);
        assert Completed(s, events, p, t, |events|, index, chunks);
        assert Explained(s, events, index, chunks);
      }
    }
    OthersExplained(s, front, events, e, p, before, now);
  }

  /** What an event that moves only session p leaves explained. */
  lemma OthersExplained(s: Swarm, front: seq<Event>, events: seq<Event>, e: Event, p: nat, before: Swarm, now: Swarm)
    requires events == front + [e] && AllExplained(s, front, before) && p < |before.members| == |now.members|
    requires now.members == before.members[p := now.members[p]] && (e.Message? ==> e.p == p)
    requires now.members[p].task.Idle? && now.members[p].peer.index >= 0 ==> HeldExplained(s, events, p, now.members[p])
    requires |before.deliveries| <= |now.deliveries| && now.deliveries[..|before.deliveries|] == before.deliveries
    requires forall i :: |before.deliveries| <= i < |now.deliveries| ==>
               Explained(s, events, now.deliveries[i].piece.index, now.deliveries[i].chunks)
    ensures AllExplained(s, events, now)
  {
    forall q | 0 <= q < |now.members| && now.members[q].task.Idle? && now.members[q].peer.index >= 0
      ensures HeldExplained(s, events, q, now.members[q])
    {
      if q != p { OtherHeldLater(s, front, events, e, q, before.members[q]); }
    }
    forall i | 0 <= i < |now.deliveries|
      ensures Explained(s, events, now.deliveries[i].piece.index, now.deliveries[i].chunks)
    {
      if i < |before.deliveries| {
        assert now.deliveries[i] == now.deliveries[..|before.deliveries|][i];
        ExplainedLater(s, front, events, e, before.deliveries[i].piece.index, before.deliveries[i].chunks);
      }
    }
  }

  lemma JoinExplained(s: Swarm, front: seq<Event>, events: seq<Event>, e: Event, before: Swarm)
    requires events == front + [e] && e.Join? && AllExplained(s, front, before) && Enabled(before, e)
    ensures AllExplained(s, events, Apply(before, e))
  {
    var now := Apply(before, e);
    forall q | 0 <= q < |now.members| && now.members[q].task.Idle? && now.members[q].peer.index >= 0
      ensures HeldExplained(s, events, q, now.members[q])
    {
      OtherHeldLater(s, front, events, e, q, before.members[q]);
    }
    forall i | 0 <= i < |now.deliveries|
      ensures Explained(s, events, now.deliveries[i].piece.index, now.deliveries[i].chunks)
    {
      ExplainedLater(s, front, events, e, before.deliveries[i].piece.index, before.deliveries[i].chunks);
    }
  }

  lemma {:induction false} RunExplained(s: Swarm, events: seq<Event>)
    requires Launch(s) && Runs(s, events)
    ensures AllExplained(s, events, After(s, events))
    decreases |events|
  {
    if events != [] {
      var front, e := events[..|events| - 1], events[|events| - 1];
      assert events == front + [e];
      AfterLastEvent(s, events, front, e);
      LaunchInv(s);
      RunKeepsInv(s, front);
      RunExplained(s, front);
      var before := After(s, front);
      match e
      case Join(newPeer) => JoinExplained(s, front, events, e, before);
      case Message(p, frame) => MessageExplained(s, front, events, p, frame, before);
      case DrawPiece(p) =>
        HeldFromNow(s, front, events, p, Apply(before, e));
        OthersExplained(s, front, events, e, p, before, Apply(before, e));
      case ReturnPiece(p) => OthersExplained(s, front, events, e, p, before, Apply(before, e));
      case Leave(p) => OthersExplained(s, front, events, e, p, before, Apply(before, e));
    }
  }

  /** Whoever sends what: for every written piece there are a session, the draw that gave it the
      piece and the message that completed it, such that every byte written is the byte of
      the first accepted payload over it, among the payloads of the PIECE messages for that
      piece that the session got in between, in their order. */
  lemma WrittenBytesCameInMessages(s: Swarm, events: seq<Event>, i: nat) returns (p: nat, t: nat, u: nat)
    requires Launch(s) && Runs(s, events) && i < |After(s, events).deliveries|
    ensures var d := After(s, events).deliveries[i];
            && DrawnAt(s, events, t, p, d.piece.index) && t < u <= |events|
            && events[u - 1].Message? && events[u - 1].p == p
            && d.chunks == PayloadsFor(events[t + 1..u], p, d.piece.index)
            && |d.piece.bytes| == After(s, events).pool.SizeOf(d.piece.index)
            && forall k :: 0 <= k < |d.piece.bytes| ==> ByteFrom(s, events, d, k)
  {
    RunExplained(s, events);
    LaunchInv(s);
    RunKeepsInv(s, events);
    var d := After(s, events).deliveries[i];
    assert DeliveryOk(After(s, events).pool, d);
    p, t, u :| Completed(s, events, p, t, u, d.piece.index, d.chunks);
    forall k | 0 <= k < |d.piece.bytes| ensures ByteFrom(s, events, d, k) {
      WrittenBytesWereReceived(s, events, i, k);
    }
  }

  /** Byte k of the piece is that of the first accepted of its chunks that contained it. */
  ghost predicate ByteFrom(s: Swarm, events: seq<Event>, d: Delivery, k: nat) {
    Runs(s, events) &&
    var n := After(s, events).pool.SizeOf(d.piece.index);
    && |d.piece.bytes| == n && k < n && JustInit(d.start, d.piece.index, n) && AllFit(d.chunks, n)
    && exists j :: FirstWriter(d.start, d.piece.index, d.chunks, n, k, j)
                   && d.piece.bytes[k] == d.chunks[j].source[k - d.chunks[j].offset]
  }
}
