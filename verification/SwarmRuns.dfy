/** Theorems about every run of any number of sessions over one allocator. */
module SwarmRuns {
  import opened Bytes
  import opened Blocks
  import opened PieceRuns
  import opened PieceLists
  import opened Messages
  import opened Framing
  import opened Session
  import opened Swarms

  /** Nothing handed out, no session yet. */
  ghost predicate Launch(s: Swarm) {
    s.pool.next == 0 && s.pool.returned == [] && s.members == [] && s.deliveries == [] && s.lost == []
  }

  /** The events can happen one after the other from s. */
  ghost predicate Runs(s: Swarm, events: seq<Event>)
    decreases |events|
  {
    events == [] || (Enabled(s, events[0]) && Runs(Apply(s, events[0]), events[1..]))
  }

  ghost function After(s: Swarm, events: seq<Event>): Swarm
    requires Runs(s, events)
    decreases |events|
  {
    if events == [] then s else After(Apply(s, events[0]), events[1..])
  }

  lemma {:induction false} RunKeepsInv(s: Swarm, events: seq<Event>)
    requires Inv(s) && Runs(s, events)
    ensures Inv(After(s, events)) && SamePieces(s.pool, After(s, events).pool)
    decreases |events|
  {
    if events != [] {
      StepKeepsInv(s, events[0]);
      RunKeepsInv(Apply(s, events[0]), events[1..]);
    }
  }

  lemma LaunchInv(s: Swarm)
    requires Launch(s)
    ensures Inv(s)
  {
    forall i | 0 <= i ensures Tally(s)[i] == 0 {
      assert multiset(Held(s.members)) == multiset{} && multiset(Written(s.deliveries)) == multiset{};
    }
  }

  // ----- exclusive ownership

  lemma TwiceInMultiset<T>(s: seq<T>, p: nat, q: nat)
    requires p < q < |s| && s[p] == s[q]
    ensures multiset(s)[s[p]] >= 2
  {
    assert s == s[..q] + [s[q]] + s[q + 1..];
    assert s[p] in multiset(s[..q]);
  }

  lemma OnceInMultiset<T>(s: seq<T>, p: nat)
    requires p < |s|
    ensures multiset(s)[s[p]] >= 1
  {
    assert s[p] in multiset(s);
  }

  lemma HeldDistinct(t: Swarm, p: nat, q: nat)
    requires Conserved(t) && p < q < |t.members| && t.members[p].peer.index >= 0
    ensures t.members[p].peer.index != t.members[q].peer.index
  {
    assert Tally(t)[t.members[p].peer.index] <= 1;
    if Held(t.members)[p] == Held(t.members)[q] {
      TwiceInMultiset(Held(t.members), p, q);
    }
  }

  lemma WrittenDistinct(t: Swarm, j: nat, k: nat)
    requires Inv(t) && j < k < |t.deliveries|
    ensures t.deliveries[j].piece.index != t.deliveries[k].piece.index
  {
    assert DeliveryOk(t.pool, t.deliveries[j]);
    assert Tally(t)[t.deliveries[j].piece.index] <= 1;
    if Written(t.deliveries)[j] == Written(t.deliveries)[k] {
      TwiceInMultiset(Written(t.deliveries), j, k);
    }
  }

  /** In every interleaving: no two sessions hold the same piece, no piece is written twice,
      and a piece that is held is neither written, lost nor in the allocator. */
  lemma OwnershipIsExclusive(s: Swarm, events: seq<Event>)
    requires Launch(s) && Runs(s, events)
    ensures var t := After(s, events);
            && (forall p, q :: 0 <= p < q < |t.members| && t.members[p].peer.index >= 0 ==>
                  t.members[p].peer.index != t.members[q].peer.index)
            && (forall j, k :: 0 <= j < k < |t.deliveries| ==>
              t.deliveries[j].piece.index != t.deliveries[k].piece.index)
            && (forall p :: 0 <= p < |t.members| && t.members[p].peer.index >= 0 ==>
                  var i := t.members[p].peer.index;
                  i < t.pool.next && i !in Written(t.deliveries) && i !in t.lost && i !in t.pool.returned)
  {
    LaunchInv(s);
    RunKeepsInv(s, events);
    var t := After(s, events);
    forall p, q | 0 <= p < q < |t.members| && t.members[p].peer.index >= 0
      ensures t.members[p].peer.index != t.members[q].peer.index
    {
      HeldDistinct(t, p, q);
    }
    forall j, k | 0 <= j < k < |t.deliveries|
      ensures t.deliveries[j].piece.index != t.deliveries[k].piece.index
    {
      WrittenDistinct(t, j, k);
    }
    forall p | 0 <= p < |t.members| && t.members[p].peer.index >= 0
      ensures var i := t.members[p].peer.index;
              i < t.pool.next && i !in Written(t.deliveries) && i !in t.lost && i !in t.pool.returned
    {
      HeldOnce(t, p);
    }
  }

  lemma HeldOnce(t: Swarm, p: nat)
    requires Conserved(t) && p < |t.members| && t.members[p].peer.index >= 0
    ensures var i := t.members[p].peer.index;
            i < t.pool.next && i !in Written(t.deliveries) && i !in t.lost && i !in t.pool.returned
  {
    var i := t.members[p].peer.index;
    OnceInMultiset(Held(t.members), p);
    assert Tally(t)[i] == if i < t.pool.next then 1 else 0;
    assert i in Written(t.deliveries) ==> multiset(Written(t.deliveries))[i] >= 1;
    assert i in t.lost ==> multiset(t.lost)[i] >= 1;
    assert i in t.pool.returned ==> multiset(t.pool.returned)[i] >= 1;
  }

  /** In every interleaving the numbers handed out are partitioned: each is held by a
      session, waiting in the allocator, written or lost, and in only one of the four. */
  lemma NumbersArePartitioned(s: Swarm, events: seq<Event>, i: nat)
    requires Launch(s) && Runs(s, events)
    ensures var t := After(s, events);
            var waiting, held, written, lost :=
              multiset(t.pool.returned)[i], multiset(Held(t.members))[i],
              multiset(Written(t.deliveries))[i], multiset(t.lost)[i];
            && waiting + held + written + lost == (if i < t.pool.next then 1 else 0)
            && t.pool.next <= t.pool.maxPiece + 1
  {
    LaunchInv(s);
    RunKeepsInv(s, events);
    var t := After(s, events);
    assert Tally(t)[i] == if i < t.pool.next then 1 else 0;
  }

  // ----- honest peers

  /** What the torrent says every piece contains. */
  ghost predicate Describes(content: seq<seq<byte>>, pool: Pool) {
    |content| == pool.maxPiece + 1 && forall i :: 0 <= i < |content| ==> |content[i]| == pool.SizeOf(i)
  }

  /** A PIECE message with the bytes of the piece it names, or one that fits no piece. */
  ghost predicate HonestFrame(content: seq<seq<byte>>, frame: seq<byte>) {
    |frame| >= 13 && frame[4] == PIECE ==>
      var index, chunk := Field(frame, 5), Chunk(frame[13..], Field(frame, 9));
      index < |content| && chunk.End() <= |content[index]| ==> FromPiece(content[index], chunk)
  }

  ghost predicate HonestChunks(content: seq<seq<byte>>, index: int, chunks: seq<Chunk>) {
    0 <= index < |content| && AllFromPiece(content[index], chunks)
  }

  ghost predicate HonestSoFar(content: seq<seq<byte>>, s: Swarm) {
    && (forall p :: 0 <= p < |s.members| && s.members[p].task.Idle? && s.members[p].peer.index >= 0 ==>
          HonestChunks(content, s.members[p].peer.index, s.members[p].chunks))
    && (forall i :: 0 <= i < |s.deliveries| ==>
      HonestChunks(content, s.deliveries[i].piece.index, s.deliveries[i].chunks))
  }

  ghost predicate HonestEvent(content: seq<seq<byte>>, e: Event) {
    e.Message? ==> HonestFrame(content, e.frame)
  }

  /** The chunks of session p's piece, with the block the message adds. */
  lemma ChunksStayHonest(content: seq<seq<byte>>, s: Swarm, p: nat, frame: seq<byte>)
    requires Inv(s) && Describes(content, s.pool) && HonestSoFar(content, s)
    requires Enabled(s, Message(p, frame)) && HonestFrame(content, frame) && s.members[p].peer.index >= 0
    ensures Start(WorldOf(s, p), frame).status.Running? ==>
              HonestChunks(content, s.members[p].peer.index,
                           s.members[p].chunks + ReceivedBlock(s.members[p].peer, frame))
  {
    HeldOnce(s, p);
    assert MemberOk(s.pool, s.members[p]);
  }

  /** A step that moves only session p and adds at most one delivery. */
  lemma HonestAfter(content: seq<seq<byte>>, s: Swarm, t: Swarm, p: nat)
    requires HonestSoFar(content, s) && p < |s.members| == |t.members| && t.members == s.members[p := t.members[p]]
    requires t.members[p].task.Idle? && t.members[p].peer.index >= 0 ==>
               HonestChunks(content, t.members[p].peer.index, t.members[p].chunks)
    requires t.deliveries == s.deliveries
             || (|t.deliveries| == |s.deliveries| + 1 && t.deliveries == s.deliveries + [t.deliveries[|s.deliveries|]]
                 && HonestChunks(content, t.deliveries[|s.deliveries|].piece.index,
                   t.deliveries[|s.deliveries|].chunks))
    ensures HonestSoFar(content, t)
  {
  }

  /** What a message changes: session p, and one delivery if it completed the piece. */
  lemma MessageEffect(s: Swarm, p: nat, frame: seq<byte>)
    requires p < |s.members| && Start(WorldOf(s, p), frame).status.Running?
    ensures var t, m := AfterMessage(s, p, frame), s.members[p];
            var chunks := m.chunks + ReceivedBlock(m.peer, frame);
            && |t.members| == |s.members| && t.members == s.members[p := t.members[p]] && t.members[p].chunks == chunks
            && (t.members[p].peer.index >= 0 ==> t.members[p].peer.index == m.peer.index)
            && (t.deliveries == s.deliveries
                || (m.peer.index >= 0 && |t.deliveries| == |s.deliveries| + 1
                    && t.deliveries == s.deliveries + [t.deliveries[|s.deliveries|]]
                    && t.deliveries[|s.deliveries|].piece.index == m.peer.index
                      && t.deliveries[|s.deliveries|].chunks == chunks))
  {
    assert |PiecesOf(s.deliveries)| == |s.deliveries|;
  }

  lemma MessageStaysHonest(content: seq<seq<byte>>, s: Swarm, p: nat, frame: seq<byte>)
    requires Inv(s) && Describes(content, s.pool) && HonestSoFar(content, s)
    requires Enabled(s, Message(p, frame)) && HonestFrame(content, frame)
    ensures HonestSoFar(content, AfterMessage(s, p, frame))
  {
    if Start(WorldOf(s, p), frame).status.Running? {
      MessageEffect(s, p, frame);
      if s.members[p].peer.index >= 0 {
        ChunksStayHonest(content, s, p, frame);
      }
      HonestAfter(content, s, AfterMessage(s, p, frame), p);
    }
  }

  lemma StepStaysHonest(content: seq<seq<byte>>, s: Swarm, e: Event)
    requires Inv(s) && Describes(content, s.pool) && HonestSoFar(content, s)
    requires Enabled(s, e) && HonestEvent(content, e)
    ensures HonestSoFar(content, Apply(s, e))
  {
    StepKeepsInv(s, e);
    match e
    case Message(p, frame) => MessageStaysHonest(content, s, p, frame);
    case DrawPiece(p) =>
      var t := AfterDraw(s, p);
      if t.members[p].peer.index >= 0 {
        HeldOnce(t, p);
      }
    case _ =>
  }

  lemma {:induction false} RunStaysHonest(content: seq<seq<byte>>, s: Swarm, events: seq<Event>)
    requires Inv(s) && Describes(content, s.pool) && HonestSoFar(content, s) && Runs(s, events)
    requires forall i :: 0 <= i < |events| ==> HonestEvent(content, events[i])
    ensures HonestSoFar(content, After(s, events))
    decreases |events|
  {
    if events != [] {
      StepKeepsInv(s, events[0]);
      StepStaysHonest(content, s, events[0]);
      RunStaysHonest(content, Apply(s, events[0]), events[1..]);
    }
  }

  /** In every run with honest blocks, whatever the number of sessions, the interleaving,
      the order of blocks, repetitions, chokes and closed connections: every piece passed to
      Files::write_piece is byte for byte the piece of the torrent. */
  lemma DownloadsAreCorrect(content: seq<seq<byte>>, s: Swarm, events: seq<Event>, i: nat)
    requires Launch(s) && Describes(content, s.pool) && Runs(s, events)
    requires forall k :: 0 <= k < |events| ==> HonestEvent(content, events[k])
    requires i < |After(s, events).deliveries|
    ensures var piece := After(s, events).deliveries[i].piece;
            0 <= piece.index < |content| && piece.bytes == content[piece.index]
  {
    LaunchInv(s);
    RunKeepsInv(s, events);
    RunStaysHonest(content, s, events);
    var d := After(s, events).deliveries[i];
    assert DeliveryOk(After(s, events).pool, d);
    HonestPiece(d.start, d.piece.index, d.chunks, content[d.piece.index]);
  }

  /** Whoever sends what, a written piece has the allocator's size for it, every byte of it
      came from an accepted block received for it since its `init`, and is the byte of the
      first such block. */
  lemma WrittenBytesWereReceived(s: Swarm, events: seq<Event>, i: nat, k: nat)
    requires Launch(s) && Runs(s, events) && i < |After(s, events).deliveries|
    requires k < |After(s, events).deliveries[i].piece.bytes|
    ensures var t := After(s, events);
            var d := t.deliveries[i];
            var n := t.pool.SizeOf(d.piece.index);
            && |d.piece.bytes| == n && JustInit(d.start, d.piece.index, n) && AllFit(d.chunks, n)
            && exists j :: FirstWriter(d.start, d.piece.index, d.chunks, n, k, j)
                           && d.piece.bytes[k] == d.chunks[j].source[k - d.chunks[j].offset]
  {
    LaunchInv(s);
    RunKeepsInv(s, events);
    var t := After(s, events);
    var d := t.deliveries[i];
    assert DeliveryOk(t.pool, d);
    var j := FullPieceWriter(d.start, d.piece.index, d.chunks, t.pool.SizeOf(d.piece.index), k);
  }

  /** When the torrent length is a multiple of the piece length, the allocator's size for
      the last piece is 0, and no run ever writes that piece. */
  lemma AlignedLastPieceNeverWritten(s: Swarm, events: seq<Event>, i: nat)
    requires Launch(s) && Runs(s, events) && s.pool.lastSize == 0
    requires i < |After(s, events).deliveries|
    ensures After(s, events).deliveries[i].piece.index != s.pool.maxPiece
  {
    LaunchInv(s);
    RunKeepsInv(s, events);
    assert DeliveryOk(After(s, events).pool, After(s, events).deliveries[i]);
  }

  /** In every reachable state, a block for the piece in hand that fits it can only be
      refused for straddling: the two misuse errors of Piece::add never occur. */
  lemma MisuseUnreachable(s: Swarm, events: seq<Event>, p: nat, data: seq<byte>, offset: nat)
    requires Launch(s) && Runs(s, events)
    requires p < |After(s, events).members| && After(s, events).members[p].task.Idle?
    requires After(s, events).members[p].peer.index >= 0
    requires offset + |data| <= After(s, events).members[p].peer.size
    ensures var w := WorldOf(After(s, events), p);
            && InStep(w) && w.peer.size == w.pool.SizeOf(w.peer.index)
            && !OnBlock(w, w.peer.index, data, offset).status.Undefined?
            && (OnBlock(w, w.peer.index, data, offset).status.Threw? <==>
                Swallows(w.peer.piece.blocks, offset, offset + |data|))
  {
    LaunchInv(s);
    RunKeepsInv(s, events);
    var t := After(s, events);
    assert MemberOk(t.pool, t.members[p]);
    AddNeverMisused(WorldOf(t, p), data, offset);
  }

  // ----- a handler that runs alone is one of the interleavings

  lemma {:induction false} AcquireIsARun(s: Swarm, p: nat) returns (events: seq<Event>)
    requires p < |s.members| && s.members[p].task.Drawing? && s.members[p].task.left > 0
    ensures Runs(s, events)
    ensures var t, a := After(s, events), StartPiece(Acquire(WorldOf(s, p), s.members[p].task.left));
            && |t.members| == |s.members| && t.members[p].task.Idle?
            && WorldOf(t, p) == a
            && forall q :: 0 <= q < |s.members| && q != p ==> t.members[q] == s.members[q]
    decreases s.members[p].task.left
  {
    var left := s.members[p].task.left;
    var d := TryDraw(WorldOf(s, p));
    var t1 := AfterDraw(s, p);
    if Keeps(d) {
      events := [DrawPiece(p)];
      assert Runs(t1, []);
      assert After(s, events) == t1;
    } else {
      var t2 := AfterReturn(t1, p);
      assert WorldOf(t2, p) == GiveBack(d);
      if left == 1 {
        events := [DrawPiece(p), ReturnPiece(p)];
        RunTwo(s, DrawPiece(p), ReturnPiece(p), []);
      } else {
        var more := AcquireIsARun(t2, p);
        events := [DrawPiece(p), ReturnPiece(p)] + more;
        RunTwo(s, DrawPiece(p), ReturnPiece(p), more);
      }
    }
  }

  lemma RunTwo(s: Swarm, first: Event, second: Event, more: seq<Event>)
    requires Enabled(s, first) && Enabled(Apply(s, first), second) && Runs(Apply(Apply(s, first), second), more)
    ensures Runs(s, [first, second] + more)
    ensures After(s, [first, second] + more) == After(Apply(Apply(s, first), second), more)
  {
    var events := [first, second] + more;
    assert events[1..] == [second] + more && events[1..][1..] == more;
  }

  /** What one session's handler does on its own, from the message to the last queued
      request, is a run of the interleaved system that moves no other session. */
  lemma HandlerIsARun(s: Swarm, p: nat, frame: seq<byte>) returns (events: seq<Event>)
    requires Enabled(s, Message(p, frame)) && Start(WorldOf(s, p), frame).status.Running?
    ensures Runs(s, events)
    ensures var t := After(s, events);
            && |t.members| == |s.members| && t.members[p].task.Idle?
            && Handled(WorldOf(t, p), Running) == HandleFrame(WorldOf(s, p), frame)
            && forall q :: 0 <= q < |s.members| && q != p ==> t.members[q] == s.members[q]
  {
    var t := AfterMessage(s, p, frame);
    var r := Start(WorldOf(s, p), frame);
    MessageWorld(s, p, frame);
    if r.wantsPiece {
      var more := AcquireIsARun(t, p);
      events := [Message(p, frame)] + more;
      assert events[1..] == more;
    } else {
      events := [Message(p, frame)];
      assert Runs(t, []) && events[1..] == [];
    }
  }

  lemma MessageWorld(s: Swarm, p: nat, frame: seq<byte>)
    requires p < |s.members| && Start(WorldOf(s, p), frame).status.Running?
    ensures WorldOf(AfterMessage(s, p, frame), p) == Start(WorldOf(s, p), frame).world
  {
    var t, r := AfterMessage(s, p, frame), Start(WorldOf(s, p), frame);
    assert |WorldOf(s, p).written| == |s.deliveries|;
    if |r.world.written| == |s.deliveries| {
      assert PiecesOf(t.deliveries) == r.world.written;
    } else {
      assert PiecesOf(t.deliveries) == r.world.written;
    }
  }
}
