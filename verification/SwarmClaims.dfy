/** Where the claims a session draws by came from: the messages of the run. */
module SwarmClaims {
  import opened Bytes
  import opened Messages
  import opened Session
  import opened SessionLaws
  import opened Swarms
  import opened SwarmRuns
  import opened SwarmHistories

  ghost predicate IsBitfieldOf(e: Event, p: nat) {
    e.Message? && e.p == p && HasId(e.frame, BITFIELD)
  }

  /** The event is a BITFIELD of session p with bit i set, or its HAVE that names i. */
  ghost predicate Says(e: Event, p: nat, i: nat) {
    || (IsBitfieldOf(e, p) && i < 8 * (|e.frame| - 5) && BitOf(e.frame[5..], i))
    || (e.Message? && e.p == p && HasId(e.frame, HAVE) && (|e.frame| < 9 || Field(e.frame, 5) == i))
  }

  ghost predicate NoBitfieldAfter(events: seq<Event>, p: nat, k: nat) {
    forall m :: k < m < |events| ==> !IsBitfieldOf(events[m], p)
  }

  /** Event k said so, and no BITFIELD has come since. */
  ghost predicate Announced(events: seq<Event>, p: nat, i: nat, k: nat) {
    k < |events| && Says(events[k], p, i) && NoBitfieldAfter(events, p, k)
  }

  /** Session p joined with event k, with i in its set, and no BITFIELD has come since. */
  ghost predicate BornWith(s: Swarm, events: seq<Event>, p: nat, i: nat, k: nat) {
    && k < |events| && events[k].Join? && events[k].newPeer.clients.At(i) && NoBitfieldAfter(events, p, k)
    && Runs(s, events[..k]) && |After(s, events[..k]).members| == p
  }

  ghost predicate HasOrigin(s: Swarm, events: seq<Event>, p: nat, i: nat) {
    || (exists k: nat :: Announced(events, p, i, k))
    || (exists k: nat :: BornWith(s, events, p, i, k))
  }

  ghost function Claims(s: Swarm, p: nat): BitSet
    requires p < |s.members|
  {
    s.members[p].peer.clients
  }

  /** Where a claim that holds after one event was before it. */
  lemma ClaimStep(s: Swarm, e: Event, p: nat, i: nat)
    requires Enabled(s, e) && p < |Apply(s, e).members| && i < |Claims(Apply(s, e), p).bits|
    requires Claims(Apply(s, e), p).At(i)
    ensures || (e.Join? && p == |s.members| && e.newPeer.clients.At(i))
            || Says(e, p, i)
            || (p < |s.members| && i < |Claims(s, p).bits| && Claims(s, p).At(i) && !IsBitfieldOf(e, p))
  {
    if e.Message? && e.p == p {
      MessageClaim(s, p, e.frame, i);
    }
  }

  lemma MessageClaim(s: Swarm, p: nat, frame: seq<byte>, i: nat)
    requires Enabled(s, Message(p, frame)) && i < |Claims(AfterMessage(s, p, frame), p).bits|
    requires Claims(AfterMessage(s, p, frame), p).At(i)
    ensures || Says(Message(p, frame), p, i)
            || (i < |Claims(s, p).bits| && Claims(s, p).At(i) && !IsBitfieldOf(Message(p, frame), p))
  {
    if HasId(frame, BITFIELD) {
      UnpackedBit(frame[5..], i);
    } else if HasId(frame, HAVE) && |frame| >= 9 {
      LongHave(frame, s.members[p].peer.garbage);
    }
  }

  lemma OriginLater(s: Swarm, front: seq<Event>, events: seq<Event>, e: Event, p: nat, i: nat)
    requires events == front + [e] && HasOrigin(s, front, p, i) && !IsBitfieldOf(e, p)
    ensures HasOrigin(s, events, p, i)
  {
    if k: nat :| Announced(front, p, i, k) {
      assert Announced(events, p, i, k);
    } else {
      var k: nat :| BornWith(s, front, p, i, k);
      assert events[..k] == front[..k];
      assert BornWith(s, events, p, i, k);
    }
  }

  lemma OriginNow(s: Swarm, front: seq<Event>, events: seq<Event>, e: Event, p: nat, i: nat)
    requires events == front + [e] && Runs(s, front)
    requires Says(e, p, i) || (e.Join? && |After(s, front).members| == p && e.newPeer.clients.At(i))
    ensures HasOrigin(s, events, p, i)
  {
    var k := |front|;
    assert events[..k] == front && events[k] == e;
    if Says(e, p, i) {
      assert Announced(events, p, i, k);
    } else {
      assert BornWith(s, events, p, i, k);
    }
  }

  /** Every claim a session goes by, for a piece its set has room for, was announced by its
      last BITFIELD or a later HAVE, or it came with the claim and has sent no BITFIELD. */
  lemma {:induction false} ClaimHasOrigin(s: Swarm, events: seq<Event>, p: nat, i: nat)
    requires Launch(s) && Runs(s, events) && p < |After(s, events).members|
    requires i < |Claims(After(s, events), p).bits| && Claims(After(s, events), p).At(i)
    ensures HasOrigin(s, events, p, i)
    decreases |events|
  {
    if events != [] {
      var front, e := events[..|events| - 1], events[|events| - 1];
      assert events == front + [e];
      AfterLastEvent(s, events, front, e);
      ClaimStep(After(s, front), e, p, i);
      if Says(e, p, i) || (e.Join? && |After(s, front).members| == p && e.newPeer.clients.At(i)) {
        OriginNow(s, front, events, e, p, i);
      } else {
        ClaimHasOrigin(s, front, p, i);
        OriginLater(s, front, events, e, p, i);
      }
    }
  }

  /** In every run: a piece that is drawn and kept has bytes, and was claimed in this way, unless
      the session's set has no room for it. Its requests are queued, and nothing else is. */
  lemma KeptWasClaimed(s: Swarm, events: seq<Event>, p: nat, i: nat)
    requires Launch(s) && Runs(s, events) && Enabled(After(s, events), DrawPiece(p))
    requires AfterDraw(After(s, events), p).members[p].task.Idle?
    requires AfterDraw(After(s, events), p).members[p].peer.index == i
    ensures var t, u := After(s, events), AfterDraw(After(s, events), p);
            && u.members[p].peer.size == t.pool.SizeOf(i) > 0
            && (i < |Claims(t, p).bits| ==> HasOrigin(s, events, p, i))
            && (i < TWO_TO_32 && t.pool.SizeOf(i) < TWO_TO_32 ==>
                  AsksFor(t.members[p].peer.queue, u.members[p].peer.queue, i, t.pool.SizeOf(i)))
  {
    var t := After(s, events);
    if i < |Claims(t, p).bits| {
      ClaimHasOrigin(s, events, p, i);
    }
    if i < TWO_TO_32 && t.pool.SizeOf(i) < TWO_TO_32 {
      StartAsks(TryDraw(WorldOf(t, p)));
    }
  }
}
