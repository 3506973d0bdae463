/** Any number of sessions over one allocator, interleaved at every locked operation. */
module Swarms {
  import opened Bytes
  import opened Pieces
  import opened PieceRuns
  import opened PieceLists
  import opened Messages
  import opened Session

  /** Where a session stands between two locked operations of the allocator. */
  datatype Task =
    | Idle                  // waiting for a message
    | Drawing(left: nat)    // about to call get_piece, `left` attempts to go
    | Rejecting(left: nat)  // about to give back a piece the peer does not have
    | Gone                  // the connection is closed

  /** A session, with the blocks it accepted or rejected since its last `init`. */
  datatype Member = Member(peer: Peer, task: Task, chunks: seq<Chunk>)

  /** A call of Files::write_piece: the piece, the buffer `init` gave it, the blocks it got. */
  datatype Delivery = Delivery(piece: WrittenPiece, start: PieceState, chunks: seq<Chunk>)

  /** `lost` lists the pieces no one will ever download: overwritten by a second unchoke, or
      held when a connection closed. */
  datatype Swarm = Swarm(pool: Pool, members: seq<Member>, deliveries: seq<Delivery>, lost: seq<int>)

  datatype Event =
    | Join(newPeer: Peer)
    | Message(p: nat, frame: seq<byte>)
    | DrawPiece(p: nat)
    | ReturnPiece(p: nat)
    | Leave(p: nat)

  function PiecesOf(deliveries: seq<Delivery>): seq<WrittenPiece> {
    seq(|deliveries|, i requires 0 <= i < |deliveries| => deliveries[i].piece)
  }

  ghost function WorldOf(s: Swarm, p: nat): World
    requires p < |s.members|
  {
    World(s.members[p].peer, s.pool, PiecesOf(s.deliveries))
  }

  /** A session before its first message. */
  ghost predicate NewPeer(peer: Peer) {
    peer.index == -1 && peer.size == 0 && peer.piece == EMPTY_PIECE
  }

  /** Steps the model gives a meaning to: no undefined behaviour. */
  ghost predicate Enabled(s: Swarm, e: Event) {
    match e
    case Join(newPeer) => NewPeer(newPeer)
    case Message(p, frame) =>
      p < |s.members| && s.members[p].task.Idle? && !Start(WorldOf(s, p), frame).status.Undefined?
    case DrawPiece(p) => p < |s.members| && s.members[p].task.Drawing?
    case ReturnPiece(p) => p < |s.members| && s.members[p].task.Rejecting?
    case Leave(p) => p < |s.members| && !s.members[p].task.Gone?
  }

  function NonNegative(index: int): seq<int> {
    if index >= 0 then [index] else []
  }

  ghost function Close(s: Swarm, p: nat): Swarm
    requires p < |s.members|
  {
    var m := s.members[p];
    s.(members := s.members[p := Member(m.peer.(index := -1), Gone, [])], lost := s.lost + NonNegative(m.peer.index))
  }

  /** The block a PIECE message carries for the piece in hand, if it does. */
  ghost function ReceivedBlock(peer: Peer, frame: seq<byte>): seq<Chunk> {
    if |frame| >= 13 && frame[4] == PIECE && Field(frame, 5) == peer.index then
      [Chunk(frame[13..], Field(frame, 9))]
    else []
  }

  ghost function AfterMessage(s: Swarm, p: nat, frame: seq<byte>): Swarm
    requires p < |s.members|
  {
    var m := s.members[p];
    var r := Start(WorldOf(s, p), frame);
    var chunks := m.chunks + ReceivedBlock(m.peer, frame);
    var after := s.(pool := r.world.pool);
    if r.status.Threw? then Close(after, p)
    else
      after.(members := s.members[p := Member(r.world.peer, if r.wantsPiece then Drawing(ATTEMPTS) else Idle, chunks)],
             deliveries := if |r.world.written| == |s.deliveries| then s.deliveries
                           else s.deliveries + [Delivery(r.world.written[|s.deliveries|],
                                                         FreshPiece(m.peer.garbage, m.peer.index, m.peer.size),
                                                         chunks)])
  }

  ghost function AfterDraw(s: Swarm, p: nat): Swarm
    requires p < |s.members| && s.members[p].task.Drawing?
  {
    var m := s.members[p];
    var d := TryDraw(WorldOf(s, p));
    var kept := Keeps(d);
    s.(pool := d.pool,
       members := s.members[p := Member(if kept then StartPiece(d).peer else d.peer,
                                        if kept then Idle else Rejecting(m.task.left), [])],
       lost := s.lost + NonNegative(m.peer.index))
  }

  ghost function AfterReturn(s: Swarm, p: nat): Swarm
    requires p < |s.members| && s.members[p].task.Rejecting?
  {
    var m := s.members[p];
    var g := GiveBack(WorldOf(s, p));
    s.(pool := g.pool,
       members := s.members[p := Member(g.peer, if m.task.left > 1 then Drawing(m.task.left - 1) else Idle, [])])
  }

  ghost function Apply(s: Swarm, e: Event): Swarm
    requires Enabled(s, e)
  {
    match e
    case Join(newPeer) => s.(members := s.members + [Member(newPeer, Idle, [])])
    case Message(p, frame) => AfterMessage(s, p, frame)
    case DrawPiece(p) => AfterDraw(s, p)
    case ReturnPiece(p) => AfterReturn(s, p)
    case Leave(p) => Close(s, p)
  }

  // ----- conservation of piece numbers

  function Held(members: seq<Member>): seq<int> {
    seq(|members|, i requires 0 <= i < |members| => members[i].peer.index)
  }

  function Written(deliveries: seq<Delivery>): seq<int> {
    seq(|deliveries|, i requires 0 <= i < |deliveries| => deliveries[i].piece.index)
  }

  /** Every place a piece number can be, with multiplicity. */
  ghost function Tally(s: Swarm): multiset<int> {
    multiset(s.pool.returned) + multiset(Held(s.members)) + multiset(Written(s.deliveries)) + multiset(s.lost)
  }

  /** Each number handed out so far is in exactly one place, and no other number is anywhere. */
  ghost predicate Conserved(s: Swarm) {
    forall i :: 0 <= i ==> Tally(s)[i] == if i < s.pool.next then 1 else 0
  }

  lemma HeldUpdate(members: seq<Member>, p: nat, m: Member)
    requires p < |members|
    ensures members[p].peer.index in multiset(Held(members))
    ensures multiset(Held(members[p := m])) ==
            multiset(Held(members)) - multiset{members[p].peer.index} + multiset{m.peer.index}
  {
    assert Held(members[p := m]) == Held(members)[p := m.peer.index];
    assert Held(members)[p] == members[p].peer.index;
  }

  /** What one draw takes from the allocator. */
  lemma DrawTakes(pool: Pool)
    ensures var d := Draw(pool);
            if pool.returned != [] then
              multiset(pool.returned) == multiset{d.index} + multiset(d.pool.returned) && d.pool.next == pool.next
            else if pool.next <= pool.maxPiece then
              d.pool.returned == [] && d.index == pool.next && d.pool.next == pool.next + 1
            else d.pool == pool && d.index == -1
  {
    if pool.returned != [] {
      assert pool.returned == [pool.returned[0]] + pool.returned[1..];
    }
  }

  /** The tally after a draw: the number drawn has moved into session p's hand, and what it
      held before counts as lost. */
  lemma DrawTally(s: Swarm, p: nat, i: nat)
    requires p < |s.members| && s.members[p].task.Drawing?
    ensures var t, d := AfterDraw(s, p), Draw(s.pool);
            Tally(t)[i] == Tally(s)[i] - multiset(s.pool.returned)[i] + multiset(d.pool.returned)[i]
              + multiset{d.index}[i]
  {
    var t := AfterDraw(s, p);
    var previous := s.members[p].peer.index;
    HeldUpdate(s.members, p, t.members[p]);
    assert multiset(t.lost) == multiset(s.lost) + multiset(NonNegative(previous));
    assert multiset(NonNegative(previous))[i] == multiset{previous}[i];
  }

  lemma DrawConserves(s: Swarm, p: nat)
    requires Conserved(s) && p < |s.members| && s.members[p].task.Drawing?
    ensures Conserved(AfterDraw(s, p))
  {
    var t := AfterDraw(s, p);
    forall i | 0 <= i ensures Tally(t)[i] == if i < t.pool.next then 1 else 0 {
      assert Tally(s)[i] == if i < s.pool.next then 1 else 0;
      DrawTally(s, p, i);
      DrawnOnce(s.pool, Tally(s)[i], i);
    }
  }

  /** The number of times i is anywhere, before and after a draw. */
  lemma DrawnOnce(pool: Pool, before: nat, i: nat)
    requires before == if i < pool.next then 1 else 0
    ensures var d := Draw(pool);
            before - multiset(pool.returned)[i] + multiset(d.pool.returned)[i] + multiset{d.index}[i]
            == if i < d.pool.next then 1 else 0
  {
    DrawTakes(pool);
  }

  lemma ReturnConserves(s: Swarm, p: nat)
    requires Conserved(s) && p < |s.members| && s.members[p].task.Rejecting?
    ensures Conserved(AfterReturn(s, p))
  {
    var t := AfterReturn(s, p);
    HeldUpdate(s.members, p, t.members[p]);
    forall i | 0 <= i ensures Tally(t)[i] == if i < t.pool.next then 1 else 0 {
      assert Tally(s)[i] == if i < s.pool.next then 1 else 0;
    }
  }

  lemma CloseConserves(s: Swarm, p: nat)
    requires Conserved(s) && p < |s.members|
    ensures Conserved(Close(s, p))
  {
    var t := Close(s, p);
    var previous := s.members[p].peer.index;
    HeldUpdate(s.members, p, t.members[p]);
    assert multiset(t.lost) == multiset(s.lost) + multiset(NonNegative(previous));
    forall i | 0 <= i ensures Tally(t)[i] == if i < t.pool.next then 1 else 0 {
      assert Tally(s)[i] == if i < s.pool.next then 1 else 0;
      assert multiset(NonNegative(previous))[i] == multiset{previous}[i];
    }
  }

  lemma JoinConserves(s: Swarm, newPeer: Peer)
    requires Conserved(s) && NewPeer(newPeer)
    ensures Conserved(s.(members := s.members + [Member(newPeer, Idle, [])]))
  {
    var t := s.(members := s.members + [Member(newPeer, Idle, [])]);
    assert Held(t.members) == Held(s.members) + [-1];
    forall i | 0 <= i ensures Tally(t)[i] == if i < t.pool.next then 1 else 0 {
      assert Tally(s)[i] == if i < s.pool.next then 1 else 0;
    }
  }

  /** Session p's piece stays in hand, goes back to the allocator, or goes to the files. */
  ghost predicate Moves(s: Swarm, t: Swarm, p: nat)
    requires p < |s.members| == |t.members|
  {
    var index := s.members[p].peer.index;
    && t.members == s.members[p := t.members[p]] && t.pool.next == s.pool.next && t.lost == s.lost
    && (|| (t.members[p].peer.index == index && t.pool == s.pool && t.deliveries == s.deliveries)
        || (t.members[p].peer.index == -1 && t.pool.returned == s.pool.returned + [index]
          && t.deliveries == s.deliveries)
        || (t.members[p].peer.index == -1 && t.pool == s.pool
          && Written(t.deliveries) == Written(s.deliveries) + [index]))
  }

  lemma MessageMoves(s: Swarm, p: nat, frame: seq<byte>)
    requires p < |s.members| && Start(WorldOf(s, p), frame).status.Running?
    ensures Moves(s, AfterMessage(s, p, frame), p)
  {
    var t := AfterMessage(s, p, frame);
    var r := Start(WorldOf(s, p), frame);
    assert |PiecesOf(s.deliveries)| == |s.deliveries|;
    if |r.world.written| != |s.deliveries| {
      assert r.world.written[|s.deliveries|].index == s.members[p].peer.index;
      assert Written(t.deliveries) == Written(s.deliveries) + [s.members[p].peer.index];
    }
  }

  lemma MoveConserves(s: Swarm, t: Swarm, p: nat)
    requires Conserved(s) && p < |s.members| == |t.members| && Moves(s, t, p)
    ensures Conserved(t)
  {
    HeldUpdate(s.members, p, t.members[p]);
    forall i | 0 <= i ensures Tally(t)[i] == if i < t.pool.next then 1 else 0 {
      assert Tally(s)[i] == if i < s.pool.next then 1 else 0;
    }
  }

  lemma MessageConserves(s: Swarm, p: nat, frame: seq<byte>)
    requires Conserved(s) && Enabled(s, Message(p, frame))
    ensures Conserved(AfterMessage(s, p, frame))
  {
    if Start(WorldOf(s, p), frame).status.Threw? {
      assert Start(WorldOf(s, p), frame).world.pool == s.pool;
      CloseConserves(s, p);
    } else {
      MessageMoves(s, p, frame);
      MoveConserves(s, AfterMessage(s, p, frame), p);
    }
  }

  /** Every step, of any session, keeps each piece number in exactly one place. */
  lemma StepConserves(s: Swarm, e: Event)
    requires Conserved(s) && Enabled(s, e)
    ensures Conserved(Apply(s, e))
  {
    match e
    case Join(newPeer) => JoinConserves(s, newPeer);
    case Message(p, frame) => MessageConserves(s, p, frame);
    case DrawPiece(p) => DrawConserves(s, p);
    case ReturnPiece(p) => ReturnConserves(s, p);
    case Leave(p) => CloseConserves(s, p);
  }

  // ----- what the sessions keep

  /** Between messages, a piece in hand has the allocator's size for it, and its buffer is
      what the received blocks made of it. */
  ghost predicate MemberOk(pool: Pool, m: Member) {
    var peer := m.peer;
    && peer.piece.Valid() && peer.index >= -1
    && (m.task.Idle? && peer.index >= 0 ==>
          && peer.size == pool.SizeOf(peer.index) > 0 && AllFit(m.chunks, peer.size)
          && peer.piece == AfterAdds(FreshPiece(peer.garbage, peer.index, peer.size), peer.index, m.chunks, peer.size))
  }

  /** What was written is a piece the received blocks made complete. */
  ghost predicate DeliveryOk(pool: Pool, d: Delivery) {
    var size := pool.SizeOf(d.piece.index);
    && d.piece.index >= 0 && size > 0 && JustInit(d.start, d.piece.index, size) && AllFit(d.chunks, size)
    && FullSpec(AfterAdds(d.start, d.piece.index, d.chunks, size))
    && AfterAdds(d.start, d.piece.index, d.chunks, size).data == Some(d.piece.bytes)
  }

  ghost predicate Inv(s: Swarm) {
    && Conserved(s) && s.pool.next <= s.pool.maxPiece + 1
    && (forall i :: 0 <= i < |s.pool.returned| ==> s.pool.returned[i] >= -1)
    && (forall p :: 0 <= p < |s.members| ==> MemberOk(s.pool, s.members[p]))
    && (forall i :: 0 <= i < |s.deliveries| ==> DeliveryOk(s.pool, s.deliveries[i]))
  }

  ghost predicate SamePieces(a: Pool, b: Pool) {
    a.maxPiece == b.maxPiece && a.lastSize == b.lastSize && a.pieceSize == b.pieceSize
  }

  /** One received block, accepted by the buffer of a well-kept session. */
  lemma BlockKeeps(s: Swarm, p: nat, frame: seq<byte>)
    requires Inv(s) && Enabled(s, Message(p, frame))
    requires |frame| >= 13 && frame[4] == PIECE && Field(frame, 5) == s.members[p].peer.index
    requires Start(WorldOf(s, p), frame).status.Running?
    ensures var t := AfterMessage(s, p, frame);
            && MemberOk(t.pool, t.members[p])
            && (t.deliveries == s.deliveries ||
                (|t.deliveries| == |s.deliveries| + 1 && t.deliveries[..|s.deliveries|] == s.deliveries
                 && DeliveryOk(t.pool, t.deliveries[|s.deliveries|])))
  {
    var m := s.members[p];
    var chunk := Chunk(frame[13..], Field(frame, 9));
    var size := m.peer.size;
    var start := FreshPiece(m.peer.garbage, m.peer.index, size);
    assert (m.chunks + [chunk])[..|m.chunks|] == m.chunks;
    assert Ready(m.peer.piece, m.peer.index, size);
    assert AllFit(m.chunks + [chunk], size);
    var q := AfterAdds(start, m.peer.index, m.chunks + [chunk], size);
    assert q == AddSpec(m.peer.piece, m.peer.index, chunk.source, chunk.offset).1;
    assert q.data.value[..size] == q.data.value;
  }

  /** Any other message leaves the buffer of a piece in hand alone. */
  lemma OtherKeeps(s: Swarm, p: nat, frame: seq<byte>)
    requires Inv(s) && Enabled(s, Message(p, frame)) && ReceivedBlock(s.members[p].peer, frame) == []
    requires Start(WorldOf(s, p), frame).status.Running?
    ensures var t := AfterMessage(s, p, frame); MemberOk(t.pool, t.members[p]) && t.deliveries == s.deliveries
  {
    assert s.members[p].chunks + [] == s.members[p].chunks;
  }

  /** The allocator changes only by what a choke gives back. */
  lemma MessagePool(s: Swarm, p: nat, frame: seq<byte>)
    requires Inv(s) && Enabled(s, Message(p, frame))
    ensures var pool := AfterMessage(s, p, frame).pool;
            pool == s.pool || pool == Return(s.pool, s.members[p].peer.index)
  {
  }

  /** One session has moved, the allocator may have got a number back, and one more piece may
      have been delivered. */
  ghost predicate MovedOk(s: Swarm, t: Swarm, p: nat)
    requires p < |s.members| == |t.members|
  {
    && t.members == s.members[p := t.members[p]] && MemberOk(t.pool, t.members[p])
    && (t.pool == s.pool || t.pool == Return(s.pool, s.members[p].peer.index))
    && (|| t.deliveries == s.deliveries
        || (|t.deliveries| == |s.deliveries| + 1 && t.deliveries[..|s.deliveries|] == s.deliveries
            && DeliveryOk(t.pool, t.deliveries[|s.deliveries|])))
  }

  lemma MoveKeepsInv(s: Swarm, t: Swarm, p: nat)
    requires Inv(s) && p < |s.members| == |t.members| && MovedOk(s, t, p) && Conserved(t)
    ensures Inv(t) && SamePieces(s.pool, t.pool)
  {
    assert s.members[p].peer.index >= -1 by { assert MemberOk(s.pool, s.members[p]); }
    forall q | 0 <= q < |t.members| ensures MemberOk(t.pool, t.members[q]) {
      if q != p { assert MemberOk(s.pool, s.members[q]); }
    }
    forall i | 0 <= i < |t.deliveries| ensures DeliveryOk(t.pool, t.deliveries[i]) {
      if i < |s.deliveries| {
        assert DeliveryOk(s.pool, s.deliveries[i]) && t.deliveries[i] == t.deliveries[..|s.deliveries|][i];
      }
    }
  }

  lemma MessageKeepsInv(s: Swarm, p: nat, frame: seq<byte>)
    requires Inv(s) && Enabled(s, Message(p, frame))
    ensures Inv(AfterMessage(s, p, frame)) && SamePieces(s.pool, AfterMessage(s, p, frame).pool)
  {
    var t := AfterMessage(s, p, frame);
    if Start(WorldOf(s, p), frame).status.Threw? {
      CloseKeepsInv(s, p);
      assert t == Close(s, p);
    } else {
      MessageConserves(s, p, frame);
      RunningMessageMoves(s, p, frame);
      MoveKeepsInv(s, t, p);
    }
  }

  lemma RunningMessageMoves(s: Swarm, p: nat, frame: seq<byte>)
    requires Inv(s) && Enabled(s, Message(p, frame)) && Start(WorldOf(s, p), frame).status.Running?
    ensures |AfterMessage(s, p, frame).members| == |s.members| && MovedOk(s, AfterMessage(s, p, frame), p)
  {
    MessagePool(s, p, frame);
    if ReceivedBlock(s.members[p].peer, frame) == [] {
      OtherKeeps(s, p, frame);
    } else {
      BlockKeeps(s, p, frame);
    }
  }

  lemma CloseKeepsInv(s: Swarm, p: nat)
    requires Inv(s) && p < |s.members|
    ensures Inv(Close(s, p))
  {
    CloseConserves(s, p);
  }

  lemma DrawKeepsInv(s: Swarm, p: nat)
    requires Inv(s) && p < |s.members| && s.members[p].task.Drawing?
    ensures Inv(AfterDraw(s, p))
  {
    DrawConserves(s, p);
  }

  lemma ReturnKeepsInv(s: Swarm, p: nat)
    requires Inv(s) && p < |s.members| && s.members[p].task.Rejecting?
    ensures Inv(AfterReturn(s, p))
  {
    ReturnConserves(s, p);
  }

  lemma StepKeepsInv(s: Swarm, e: Event)
    requires Inv(s) && Enabled(s, e)
    ensures Inv(Apply(s, e)) && SamePieces(s.pool, Apply(s, e).pool)
  {
    match e
    case Join(newPeer) => JoinConserves(s, newPeer);
    case Message(p, frame) => MessageKeepsInv(s, p, frame);
    case DrawPiece(p) => DrawKeepsInv(s, p);
    case ReturnPiece(p) => ReturnKeepsInv(s, p);
    case Leave(p) => CloseKeepsInv(s, p);
  }
}
