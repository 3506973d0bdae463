/** Runs that exist: every piece with bytes can be downloaded, and pieces can be lost. */
module SwarmWitnesses {
  import opened Bytes
  import opened Blocks
  import opened Pieces
  import opened PieceLists
  import opened Messages
  import opened Session
  import opened Swarms
  import opened SwarmRuns

  const UNCHOKE_MESSAGE: seq<byte> := BaseMessage(1, UNCHOKE)
  const CHOKE_MESSAGE: seq<byte> := BaseMessage(1, CHOKE)

  /** An idle session that claims every piece, over an allocator nothing was returned to. */
  ghost predicate Collecting(s: Swarm, p: nat) {
    && p < |s.members| && s.members[p].task.Idle? && s.pool.returned == []
    && forall i: int :: s.members[p].peer.clients.At(i)
  }

  /** An idle session with this piece in hand and nothing in its buffer. */
  ghost predicate FreshlyHolds(s: Swarm, p: nat, index: nat) {
    && p < |s.members| && s.members[p].task.Idle?
    && var peer := s.members[p].peer;
       && peer.index == index && peer.size == s.pool.SizeOf(index)
       && peer.piece == FreshPiece(peer.garbage, index, peer.size)
  }

  /** It has just got piece `index`. */
  ghost predicate JustDrew(s: Swarm, p: nat, index: nat) {
    Collecting(s, p) && s.pool.next == index + 1 && FreshlyHolds(s, p, index)
  }

  lemma {:induction false} RunsAppend(s: Swarm, a: seq<Event>, b: seq<Event>)
    requires Runs(s, a) && Runs(After(s, a), b)
    ensures Runs(s, a + b) && After(s, a + b) == After(After(s, a), b)
    decreases |a|
  {
    if a == [] {
      assert a + b == b;
    } else {
      assert (a + b)[0] == a[0] && (a + b)[1..] == a[1..] + b;
      RunsAppend(Apply(s, a[0]), a[1..], b);
    }
  }

  lemma OneStep(s: Swarm, e: Event)
    requires Enabled(s, e)
    ensures Runs(s, [e]) && After(s, [e]) == Apply(s, e)
  {
    var events := [e];
    assert events[1..] == [] && Runs(Apply(s, e), []);
  }

  lemma TwoSteps(s: Swarm, a: Event, b: Event)
    requires Enabled(s, a) && Enabled(Apply(s, a), b)
    ensures Runs(s, [a, b]) && After(s, [a, b]) == Apply(Apply(s, a), b)
  {
    OneStep(s, a);
    OneStep(Apply(s, a), b);
    RunsAppend(s, [a], [b]);
    assert [a] + [b] == [a, b];
  }

  /** An unchoke makes it draw the next piece, whatever it held. */
  lemma UnchokeDraws(s: Swarm, p: nat)
    requires Collecting(s, p) && s.pool.next <= s.pool.maxPiece && s.pool.SizeOf(s.pool.next) > 0
    ensures var events := [Message(p, UNCHOKE_MESSAGE), DrawPiece(p)];
            && Runs(s, events) && JustDrew(After(s, events), p, s.pool.next)
            && SamePieces(s.pool, After(s, events).pool)
            && After(s, events).lost == s.lost + NonNegative(s.members[p].peer.index)
  {
    var t := AfterMessage(s, p, UNCHOKE_MESSAGE);
    assert t.members[p].task.Drawing? && t.members[p].peer == s.members[p].peer && t.pool == s.pool;
    TwoSteps(s, Message(p, UNCHOKE_MESSAGE), DrawPiece(p));
  }

  /** One piece after the other, up to the one wanted. */
  lemma {:induction false} DrawsUpTo(s: Swarm, p: nat, target: nat) returns (events: seq<Event>)
    requires Collecting(s, p) && s.pool.next <= target <= s.pool.maxPiece
    requires forall i :: s.pool.next <= i <= target ==> s.pool.SizeOf(i) > 0
    ensures Runs(s, events) && JustDrew(After(s, events), p, target) && SamePieces(s.pool, After(s, events).pool)
    decreases target - s.pool.next
  {
    events := [Message(p, UNCHOKE_MESSAGE), DrawPiece(p)];
    UnchokeDraws(s, p);
    if s.pool.next < target {
      var t := After(s, events);
      forall i | t.pool.next <= i <= target ensures t.pool.SizeOf(i) > 0 {
        assert s.pool.SizeOf(i) > 0;
      }
      var more := DrawsUpTo(t, p, target);
      RunsAppend(s, events, more);
      events := events + more;
    }
  }

  /** One message with all its bytes completes a piece just drawn. */
  lemma WholePieceDelivers(s: Swarm, p: nat, index: nat, data: seq<byte>, frame: seq<byte>)
    requires FreshlyHolds(s, p, index) && 0 < |data| == s.pool.SizeOf(index)
    requires |frame| >= 13 && frame[4] == PIECE && Field(frame, 5) == index && Field(frame, 9) == 0
             && frame[13..] == data
    ensures Enabled(s, Message(p, frame))
    ensures var t := AfterMessage(s, p, frame);
            t.deliveries != [] && t.deliveries[|t.deliveries| - 1].piece.index == index
  {
    var w := WorldOf(s, p);
    assert Union([], 0, |data|) == [Block(0, |data|)];
    assert OnBlock(w, index, data, 0).status.Running?;
    assert |w.written| == |s.deliveries|;
  }

  ghost predicate Writes(s: Swarm, events: seq<Event>, index: int) {
    && Runs(s, events)
    && exists i :: 0 <= i < |After(s, events).deliveries| && After(s, events).deliveries[i].piece.index == index
  }

  ghost function FreshPeer(): Peer {
    Peer(BitSet([], true), -1, 0, 0, EMPTY_PIECE, [], (i: nat) => 0)
  }

  lemma Joined(s: Swarm)
    requires Launch(s)
    ensures Runs(s, [Join(FreshPeer())])
    ensures var t := After(s, [Join(FreshPeer())]);
            Collecting(t, 0) && t.pool == s.pool && t.lost == [] && t.members[0].peer.index == -1
  {
    OneStep(s, Join(FreshPeer()));
  }

  /** Every piece that has bytes is written by some run. */
  lemma SomeRunWrites(s: Swarm, target: nat) returns (events: seq<Event>)
    requires Launch(s) && target <= s.pool.maxPiece && target < TWO_TO_32
    requires s.pool.pieceSize > 0 && 0 < s.pool.SizeOf(target) < TWO_TO_32 - 9
    ensures Writes(s, events, target)
  {
    var first := [Join(FreshPeer())];
    Joined(s);
    var t := After(s, first);
    var more := DrawsUpTo(t, 0, target);
    RunsAppend(s, first, more);
    var u := After(t, more);
    var data: seq<byte> := seq(s.pool.SizeOf(target), _ => 0);
    var frame := PieceMessage(target, 0, data);
    PieceRoundTrip(target, 0, data);
    WholePieceDelivers(u, 0, target, data, frame);
    OneStep(u, Message(0, frame));
    RunsAppend(s, first + more, [Message(0, frame)]);
    events := first + more + [Message(0, frame)];
    assert After(s, events) == AfterMessage(u, 0, frame);
  }

  /** The last piece is written by some run if and only if the allocator's size for it is not
      0. That size is the torrent length modulo the piece length. */
  lemma LastPieceWrittenIff(s: Swarm)
    requires Launch(s) && s.pool.pieceSize > 0 && s.pool.maxPiece < TWO_TO_32 && s.pool.lastSize < TWO_TO_32 - 9
    ensures (exists events :: Writes(s, events, s.pool.maxPiece)) <==> s.pool.lastSize > 0
  {
    if s.pool.lastSize > 0 {
      var events := SomeRunWrites(s, s.pool.maxPiece);
    } else if events :| Writes(s, events, s.pool.maxPiece) {
      var i :| 0 <= i < |After(s, events).deliveries| && After(s, events).deliveries[i].piece.index == s.pool.maxPiece;
      AlignedLastPieceNeverWritten(s, events, i);
    }
  }

  // ----- pieces that are lost

  /** The step takes a piece out of a session's hand for good: another draw, a closed
      connection, or a block that is refused. */
  ghost predicate Loses(s: Swarm, e: Event)
    requires Enabled(s, e)
  {
    match e
    case Join(_) => false
    case Message(p, frame) => s.members[p].peer.index >= 0 && Start(WorldOf(s, p), frame).status.Threw?
    case DrawPiece(p) => s.members[p].peer.index >= 0
    case ReturnPiece(_) => false
    case Leave(p) => s.members[p].peer.index >= 0
  }

  ghost predicate SomeStepLoses(s: Swarm, events: seq<Event>)
    requires Runs(s, events)
    decreases |events|
  {
    events != [] && (Loses(s, events[0]) || SomeStepLoses(Apply(s, events[0]), events[1..]))
  }

  /** A run loses a piece if and only if one of its steps does one of these. */
  lemma {:induction false} LostIff(s: Swarm, events: seq<Event>)
    requires Runs(s, events)
    ensures After(s, events).lost != [] <==> s.lost != [] || SomeStepLoses(s, events)
    decreases |events|
  {
    if events != [] {
      StepLost(s, events[0]);
      LostIff(Apply(s, events[0]), events[1..]);
    }
  }

  lemma StepLost(s: Swarm, e: Event)
    requires Enabled(s, e)
    ensures if Loses(s, e) then |Apply(s, e).lost| == |s.lost| + 1 else Apply(s, e).lost == s.lost
  {
  }

  /** A second unchoke is enough. */
  lemma SecondUnchokeLoses(s: Swarm) returns (events: seq<Event>)
    requires Launch(s) && s.pool.SizeOf(0) > 0
    ensures Runs(s, events) && After(s, events).lost == [0]
  {
    var first := [Join(FreshPeer())];
    Joined(s);
    var t := After(s, first);
    var draw := [Message(0, UNCHOKE_MESSAGE), DrawPiece(0)];
    UnchokeDraws(t, 0);
    RunsAppend(s, first, draw);
    var u := After(t, draw);
    var v := AfterMessage(u, 0, UNCHOKE_MESSAGE);
    assert v.members[0].task.Drawing? && v.members[0].peer.index == 0 && v.lost == u.lost;
    TwoSteps(u, Message(0, UNCHOKE_MESSAGE), DrawPiece(0));
    RunsAppend(s, first + draw, draw);
    events := first + draw + draw;
  }

  // ----- the number -1 in the allocator

  ghost predicate HoldsNothing(pool: Pool) {
    exists i :: 0 <= i < |pool.returned| && pool.returned[i] < 0
  }

  /** The step returns a number that is no piece: a choke with nothing in hand, or the end of
      an attempt that drew nothing. */
  ghost predicate ReturnsNothing(s: Swarm, e: Event)
    requires Enabled(s, e)
  {
    match e
    case Message(p, frame) => s.members[p].peer.index < 0 && frame[4] == CHOKE
    case ReturnPiece(p) => s.members[p].peer.index < 0
    case _ => false
  }

  ghost predicate EverHoldsNothing(s: Swarm, events: seq<Event>)
    requires Runs(s, events)
    decreases |events|
  {
    HoldsNothing(s.pool) || (events != [] && EverHoldsNothing(Apply(s, events[0]), events[1..]))
  }

  ghost predicate SomeStepReturnsNothing(s: Swarm, events: seq<Event>)
    requires Runs(s, events)
    decreases |events|
  {
    events != [] && (ReturnsNothing(s, events[0]) || SomeStepReturnsNothing(Apply(s, events[0]), events[1..]))
  }

  /** At some moment of a run the allocator holds a number that is no piece if and only if it
      did at the start or one of the steps put it there. */
  lemma {:induction false} NothingReturnedIff(s: Swarm, events: seq<Event>)
    requires Runs(s, events)
    ensures EverHoldsNothing(s, events) <==> HoldsNothing(s.pool) || SomeStepReturnsNothing(s, events)
    decreases |events|
  {
    if events != [] {
      var t := Apply(s, events[0]);
      NothingReturnedIff(t, events[1..]);
      if !HoldsNothing(s.pool) {
        StepReturnsNothing(s, events[0]);
      }
    }
  }

  lemma StepReturnsNothing(s: Swarm, e: Event)
    requires Enabled(s, e) && !HoldsNothing(s.pool)
    ensures HoldsNothing(Apply(s, e).pool) <==> ReturnsNothing(s, e)
  {
    var before, after := s.pool, Apply(s, e).pool;
    if after.returned != [] && |after.returned| == |before.returned| + 1 {
      assert after.returned == before.returned + [after.returned[|before.returned|]];
    }
  }

  /** A choke before anything else is enough. */
  lemma EarlyChokeReturnsNothing(s: Swarm) returns (events: seq<Event>)
    requires Launch(s)
    ensures Runs(s, events) && After(s, events).pool.returned == [-1]
  {
    var first := [Join(FreshPeer())];
    Joined(s);
    var t := After(s, first);
    OneStep(t, Message(0, CHOKE_MESSAGE));
    RunsAppend(s, first, [Message(0, CHOKE_MESSAGE)]);
    events := first + [Message(0, CHOKE_MESSAGE)];
  }

  // ----- a run that downloads everything up to a piece

  /** A session about to draw, which claims every piece; all numbers below m are written. */
  ghost predicate AboutToDraw(s: Swarm, p: nat, m: nat) {
    && p < |s.members| && s.members[p].task.Drawing? && s.pool.returned == [] && s.pool.next == m
    && (forall i: int :: s.members[p].peer.clients.At(i))
    && forall i :: 0 <= i < m ==> i in Written(s.deliveries)
  }

  /** The message that carries a whole piece. */
  function WholePiece(content: seq<seq<byte>>, m: nat): seq<byte>
    requires m < |content|
  {
    PieceMessage(m, 0, content[m])
  }

  lemma WholePieceFields(content: seq<seq<byte>>, m: nat)
    requires m < |content| && m < TWO_TO_32 && |content[m]| < TWO_TO_32 - 9
    ensures var frame := WholePiece(content, m);
            && |frame| >= 13 && frame[4] == PIECE && Field(frame, 5) == m && Field(frame, 9) == 0
            && frame[13..] == content[m] && HonestFrame(content, frame)
  {
    PieceRoundTrip(m, 0, content[m]);
    assert content[m][0..|content[m]|] == content[m];
  }

  /** It draws piece m, gets all of it in one message, and is about to draw the next. */
  lemma DrawAndComplete(s: Swarm, p: nat, m: nat, content: seq<seq<byte>>) returns (events: seq<Event>)
    requires AboutToDraw(s, p, m) && m <= s.pool.maxPiece && Describes(content, s.pool)
    requires m < TWO_TO_32 && 0 < s.pool.SizeOf(m) < TWO_TO_32 - 9
    ensures Runs(s, events) && AboutToDraw(After(s, events), p, m + 1) && SamePieces(s.pool, After(s, events).pool)
    ensures forall k :: 0 <= k < |events| ==> HonestEvent(content, events[k])
  {
    var frame := WholePiece(content, m);
    events := [DrawPiece(p), Message(p, frame)];
    WholePieceFields(content, m);
    var t := AfterDraw(s, p);
    JustDrawn(s, p, m);
    WholePieceWritten(t, p, m, content[m], frame);
    TwoSteps(s, DrawPiece(p), Message(p, frame));
  }

  lemma JustDrawn(s: Swarm, p: nat, m: nat)
    requires AboutToDraw(s, p, m) && m <= s.pool.maxPiece && s.pool.SizeOf(m) > 0
    ensures var t := AfterDraw(s, p);
            JustDrew(t, p, m) && SamePieces(s.pool, t.pool) && t.deliveries == s.deliveries
  {
  }

  lemma WholePieceWritten(t: Swarm, p: nat, m: nat, data: seq<byte>, frame: seq<byte>)
    requires JustDrew(t, p, m) && 0 < |data| == t.pool.SizeOf(m)
    requires forall i :: 0 <= i < m ==> i in Written(t.deliveries)
    requires |frame| >= 13 && frame[4] == PIECE && Field(frame, 5) == m && Field(frame, 9) == 0 && frame[13..] == data
    ensures Enabled(t, Message(p, frame))
    ensures var u := AfterMessage(t, p, frame); AboutToDraw(u, p, m + 1) && u.pool == t.pool
  {
    var u := AfterMessage(t, p, frame);
    WholePieceDelivers(t, p, m, data, frame);
    MessageMoves(t, p, frame);
    assert Written(u.deliveries) == Written(t.deliveries) + [m];
  }

  lemma {:induction false} CompletesUpTo(s: Swarm, p: nat, m: nat, target: nat, content: seq<seq<byte>>)
    returns (events: seq<Event>)
    requires AboutToDraw(s, p, m) && m <= target <= s.pool.maxPiece < TWO_TO_32 && Describes(content, s.pool)
    requires forall i :: m <= i <= target ==> 0 < s.pool.SizeOf(i) < TWO_TO_32 - 9
    ensures Runs(s, events) && AboutToDraw(After(s, events), p, target + 1)
    ensures forall k :: 0 <= k < |events| ==> HonestEvent(content, events[k])
    decreases target - m
  {
    events := DrawAndComplete(s, p, m, content);
    if m < target {
      var t := After(s, events);
      forall i | m + 1 <= i <= target ensures 0 < t.pool.SizeOf(i) < TWO_TO_32 - 9 {
        assert t.pool.SizeOf(i) == s.pool.SizeOf(i);
      }
      forall k | 0 <= k < |content| ensures |content[k]| == t.pool.SizeOf(k) {
        assert t.pool.SizeOf(k) == s.pool.SizeOf(k);
      }
      var more := CompletesUpTo(t, p, m + 1, target, content);
      RunsAppend(s, events, more);
      events := events + more;
    }
  }

  /** Some honest run writes every piece up to `target`, if these have bytes. */
  lemma SomeRunWritesAll(s: Swarm, target: nat, content: seq<seq<byte>>) returns (events: seq<Event>)
    requires Launch(s) && target <= s.pool.maxPiece < TWO_TO_32 && Describes(content, s.pool)
    requires forall i :: 0 <= i <= target ==> 0 < s.pool.SizeOf(i) < TWO_TO_32 - 9
    ensures Runs(s, events) && forall k :: 0 <= k < |events| ==> HonestEvent(content, events[k])
    ensures forall i :: 0 <= i <= target ==> i in Written(After(s, events).deliveries)
  {
    var first := [Join(FreshPeer())];
    Joined(s);
    var t := After(s, first);
    var unchoke := Message(0, UNCHOKE_MESSAGE);
    OneStep(t, unchoke);
    var u := After(t, [unchoke]);
    assert AboutToDraw(u, 0, 0) && u.pool == s.pool;
    var more := CompletesUpTo(u, 0, 0, target, content);
    RunsAppend(s, first, [unchoke]);
    RunsAppend(s, first + [unchoke], more);
    events := first + [unchoke] + more;
  }

  // ----- a choked piece comes back

  /** A session that claims every piece and is about to draw, or can be made to. */
  ghost predicate Eager(s: Swarm, p: nat) {
    && p < |s.members| && (forall i: int :: s.members[p].peer.clients.At(i))
    && (s.members[p].task.Idle? || (s.members[p].task.Drawing? && s.members[p].task.left > 0))
  }

  predicate IsEventOf(e: Event, p: nat) {
    match e
    case Join(_) => false
    case Message(q, _) => q == p
    case DrawPiece(q) => q == p
    case ReturnPiece(q) => q == p
    case Leave(q) => q == p
  }

  ghost predicate AllEventsOf(events: seq<Event>, p: nat) {
    forall k :: 0 <= k < |events| ==> IsEventOf(events[k], p)
  }

  /** What an eager session's next draw does to the returned pieces. */
  lemma EagerDraw(s: Swarm, p: nat, k: nat)
    requires Eager(s, p) && s.members[p].task.Drawing? && k < |s.pool.returned|
    requires s.pool.returned[k] >= 0 && s.pool.SizeOf(s.pool.returned[k]) > 0
    ensures var t := AfterDraw(s, p);
            && SamePieces(s.pool, t.pool) && |t.members| == |s.members| && t.pool.returned == s.pool.returned[1..]
            && if s.pool.SizeOf(s.pool.returned[0]) > 0 then FreshlyKept(t, p, s.pool.returned[0])
               else k > 0 && t.members[p].task == Rejecting(s.members[p].task.left)
                    && t.members[p].peer.index == s.pool.returned[0]
                    && t.members[p].peer.clients == s.members[p].peer.clients
  {
  }

  ghost predicate FreshlyKept(s: Swarm, p: nat, index: int) {
    Eager(s, p) && s.members[p].task.Idle? && (index >= 0 ==> FreshlyHolds(s, p, index))
  }

  /** It can get any returned piece that has bytes, however many are before it. */
  lemma {:induction false} GetsReturned(s: Swarm, p: nat, k: nat, index: nat) returns (events: seq<Event>)
    requires Eager(s, p) && k < |s.pool.returned| && s.pool.returned[k] == index && s.pool.SizeOf(index) > 0
    ensures Runs(s, events) && FreshlyHolds(After(s, events), p, index) && AllEventsOf(events, p)
    ensures SamePieces(s.pool, After(s, events).pool) && |After(s, events).members| == |s.members|
    decreases k, s.members[p].task.Idle?, 0
  {
    if s.members[p].task.Idle? {
      events := [Message(p, UNCHOKE_MESSAGE)];
      var t := AfterMessage(s, p, UNCHOKE_MESSAGE);
      assert t.members[p].task.Drawing? && t.members[p].peer == s.members[p].peer && t.pool == s.pool;
      OneStep(s, Message(p, UNCHOKE_MESSAGE));
      events := GoesOn(s, events, p, k, index);
    } else {
      events := DrawsOnce(s, p, k, index);
      if k > 0 {
        events := GoesOn(s, events, p, k - 1, index);
      }
    }
  }

  lemma {:induction false} GoesOn(s: Swarm, first: seq<Event>, p: nat, k: nat, index: nat) returns (events: seq<Event>)
    requires Runs(s, first) && AllEventsOf(first, p)
    requires SamePieces(s.pool, After(s, first).pool) && |After(s, first).members| == |s.members|
    requires Eager(After(s, first), p) && s.pool.SizeOf(index) > 0
    requires k < |After(s, first).pool.returned| && After(s, first).pool.returned[k] == index
    ensures Runs(s, events) && FreshlyHolds(After(s, events), p, index) && AllEventsOf(events, p)
    ensures SamePieces(s.pool, After(s, events).pool) && |After(s, events).members| == |s.members|
    decreases k, After(s, first).members[p].task.Idle?, 1
  {
    var t := After(s, first);
    assert t.pool.SizeOf(index) == s.pool.SizeOf(index);
    var more := GetsReturned(t, p, k, index);
    RunsAppend(s, first, more);
    events := first + more;
  }

  /** One draw, with the return that follows if the piece has no bytes. */
  lemma DrawsOnce(s: Swarm, p: nat, k: nat, index: nat) returns (events: seq<Event>)
    requires Eager(s, p) && s.members[p].task.Drawing?
    requires k < |s.pool.returned| && s.pool.returned[k] == index && s.pool.SizeOf(index) > 0
    ensures Runs(s, events) && AllEventsOf(events, p)
    ensures SamePieces(s.pool, After(s, events).pool) && |After(s, events).members| == |s.members|
    ensures if k == 0 then FreshlyHolds(After(s, events), p, index)
            else Eager(After(s, events), p) && k - 1 < |After(s, events).pool.returned|
                 && After(s, events).pool.returned[k - 1] == index
  {
    var t := AfterDraw(s, p);
    EagerDraw(s, p, k);
    if t.members[p].task.Idle? {
      events := [DrawPiece(p)];
      OneStep(s, DrawPiece(p));
    } else {
      events := [DrawPiece(p), ReturnPiece(p)];
      TwoSteps(s, DrawPiece(p), ReturnPiece(p));
    }
  }

  /** What a choke takes from a session another one can get: the number goes behind the
      returned ones, and some run in which only a new session acts delivers that piece. */
  lemma ChokedPieceIsDelivered(s: Swarm, p: nat, frame: seq<byte>, data: seq<byte>) returns (rest: seq<Event>)
    requires p < |s.members| && s.members[p].task.Idle? && |frame| >= BASE_SIZE && frame[4] == CHOKE
    requires 0 <= s.members[p].peer.index < TWO_TO_32
    requires 0 < |data| == s.pool.SizeOf(s.members[p].peer.index) < TWO_TO_32 - 9
    ensures var index, choked, q := s.members[p].peer.index, [Message(p, frame)], |s.members|;
            && Runs(s, choked) && After(s, choked).pool.returned == s.pool.returned + [index]
            && |After(s, choked).members| == q && After(s, choked).members[p].peer.index == -1
            && rest != [] && rest[0].Join? && AllEventsOf(rest[1..], q) && Runs(s, choked + rest)
            && After(s, choked + rest).deliveries != []
            && After(s, choked + rest).deliveries[|After(s, choked + rest).deliveries| - 1].piece.index == index
  {
    var index, q := s.members[p].peer.index, |s.members|;
    OneStep(s, Message(p, frame));
    var t := AfterMessage(s, p, frame);
    var joined := [Join(FreshPeer())];
    OneStep(t, joined[0]);
    var u := After(t, joined);
    assert u.pool == t.pool && u.pool.returned[|s.pool.returned|] == index && Eager(u, q);
    var more := GetsReturned(u, q, |s.pool.returned|, index);
    var v := After(u, more);
    var last := Message(q, PieceMessage(index, 0, data));
    PieceRoundTrip(index, 0, data);
    WholePieceDelivers(v, q, index, data, last.frame);
    OneStep(v, last);
    RunsAppend(u, more, [last]);
    RunsAppend(t, joined, more + [last]);
    rest := joined + (more + [last]);
    RunsAppend(s, [Message(p, frame)], rest);
    assert rest[1..] == more + [last];
  }
}
