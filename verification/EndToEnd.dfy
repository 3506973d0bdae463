/** From the messages of the peers to the calls on the files. */
module EndToEnd {
  import opened Bytes
  import opened PieceLists
  import opened Swarms
  import opened SwarmRuns
  import opened SwarmWitnesses
  import opened Layouts
  import opened FileSets
  import opened Placement

  /** The allocator of the torrent with these files: one number for every started piece. */
  ghost predicate SameTorrent(sizes: seq<nat>, p: nat, pool: Pool) {
    && sizes != [] && p > 0 && pool.pieceSize == p
    && var total := BytesBefore(sizes, |sizes|);
       && pool.lastSize == total % p
       && pool.maxPiece == if total % p == 0 then total / p - 1 else total / p
  }

  /** Every slice of every piece a session can complete lies inside that piece. */
  ghost predicate AllSlicesFit(fs: seq<FileInfo>, pool: Pool) {
    forall id: nat, i :: id <= pool.maxPiece && pool.SizeOf(id) > 0 && 0 <= i < |fs| && Contains(fs[i], id) ==>
      SliceFits(fs[i], id, pool.SizeOf(id))
  }

  /** No file ends in the last piece behind the bytes it has. */
  ghost predicate EndsFit(fs: seq<FileInfo>, pool: Pool) {
    pool.lastSize > 0 ==>
      forall i :: 0 <= i < |fs| && fs[i].lastPiece.index == pool.maxPiece ==> fs[i].lastPiece.offset <= pool.lastSize
  }

  /** The slices fit exactly when, by the layout's count, no file ends too late in the
      allocator's last piece. */
  lemma AllSlicesFitIff(fs: seq<FileInfo>, p: nat, pool: Pool)
    requires Chained(fs, p) && pool.pieceSize == p && pool.lastSize <= p
    ensures AllSlicesFit(fs, pool) <==> EndsFit(fs, pool)
  {
    if EndsFit(fs, pool) {
      forall id: nat, i | id <= pool.maxPiece && pool.SizeOf(id) > 0 && 0 <= i < |fs| && Contains(fs[i], id)
        ensures SliceFits(fs[i], id, pool.SizeOf(id))
      {
        assert Sound(fs[i], p);
        if i > 0 { assert Follows(fs[i - 1], fs[i], p); }
      }
    }
    if AllSlicesFit(fs, pool) && pool.lastSize > 0 {
      forall i | 0 <= i < |fs| && fs[i].lastPiece.index == pool.maxPiece
        ensures fs[i].lastPiece.offset <= pool.lastSize {
        assert Sound(fs[i], p);
        assert SliceFits(fs[i], pool.maxPiece, pool.SizeOf(pool.maxPiece));
      }
    }
  }

  /** They always fit when no file ends on a piece boundary. */
  lemma UnalignedEndsFit(sizes: seq<nat>, p: nat, pool: Pool)
    requires SameTorrent(sizes, p, pool) && AlignedBefore(sizes, p, |sizes|) == 0
    ensures EndsFit(Layout(sizes, p), pool)
  {
    var fs := Layout(sizes, p);
    LayoutChained(sizes, p);
    assert fs[|fs| - 1] == Info(sizes, p, |sizes| - 1);
    forall i | 0 <= i < |fs| && fs[i].lastPiece.index == pool.maxPiece ensures fs[i].lastPiece.offset <= pool.lastSize {
      SameEnd(fs, p, i);
    }
  }

  /** A file of exactly one piece, and a second file shorter than a piece: by the layout's
      count the first ends behind the last byte of piece 1. */
  lemma AlignedFileOverruns(p: nat, rest: nat, pool: Pool)
    requires 0 < rest < p && SameTorrent([p, rest], p, pool)
    ensures !EndsFit(Layout([p, rest], p), pool)
  {
    var sizes := [p, rest];
    assert BytesBefore(sizes, 0) == 0 && BytesBefore(sizes, 1) == p;
    DivModUnique(p, p, 1, 0);
    DivModUnique(p + rest, p, 1, rest);
    var fs := Layout(sizes, p);
    assert fs[0] == Info(sizes, p, 0);
    assert pool.maxPiece == 1 && pool.lastSize == rest;
    assert fs[0].lastPiece == OffsetInPiece(1, p);
  }

  /** In every run of the sessions, every piece passed to Files::write_piece is one the layout
      knows; if no file ends too late in the last piece, every slice taken of it lies inside
      it; and if no file ends on a piece boundary it has the length that makes them tile it. */
  lemma EveryWriteFits(sizes: seq<nat>, p: nat, s: Swarm, events: seq<Event>, k: nat)
    requires SameTorrent(sizes, p, s.pool) && Launch(s) && Runs(s, events)
    requires k < |After(s, events).deliveries|
    ensures var fs, piece := Layout(sizes, p), After(s, events).deliveries[k].piece;
            && Chained(fs, p) && 0 <= piece.index <= fs[|fs| - 1].lastPiece.index
            && (EndsFit(fs, s.pool) ==>
                  forall i :: 0 <= i < |fs| && Contains(fs[i], piece.index) ==>
                    SliceFits(fs[i], piece.index, |piece.bytes|))
            && (AlignedBefore(sizes, p, |sizes|) == 0 ==> |piece.bytes| == PieceLength(fs, p, piece.index))
  {
    LaunchInv(s);
    RunKeepsInv(s, events);
    var t := After(s, events);
    var fs, piece := Layout(sizes, p), t.deliveries[k].piece;
    LayoutChained(sizes, p);
    WrittenWasDrawn(t, k);
    DrawnHasLength(sizes, p, t.pool, piece.index);
    if EndsFit(fs, s.pool) {
      AllSlicesFitIff(fs, p, t.pool);
    }
  }

  lemma WrittenWasDrawn(t: Swarm, k: nat)
    requires Inv(t) && k < |t.deliveries|
    ensures var piece := t.deliveries[k].piece;
            0 <= piece.index <= t.pool.maxPiece && |piece.bytes| == t.pool.SizeOf(piece.index) > 0
  {
    var i := t.deliveries[k].piece.index;
    assert DeliveryOk(t.pool, t.deliveries[k]);
    OnceInMultiset(Written(t.deliveries), k);
    assert Tally(t)[i] == if i < t.pool.next then 1 else 0;
  }

  lemma DrawnHasLength(sizes: seq<nat>, p: nat, pool: Pool, index: nat)
    requires SameTorrent(sizes, p, pool) && index <= pool.maxPiece
    ensures var fs := Layout(sizes, p);
            && index <= fs[|fs| - 1].lastPiece.index && pool.lastSize <= p
            && (AlignedBefore(sizes, p, |sizes|) == 0 ==> pool.SizeOf(index) == PieceLength(fs, p, index))
  {
    assert Layout(sizes, p)[|sizes| - 1] == Info(sizes, p, |sizes| - 1);
  }

  // ----- a downloaded file

  /** The pieces of a torrent with these bytes. When its length is a multiple of the piece
      length, the allocator takes the last piece for empty. */
  ghost predicate CutFrom(content: seq<seq<byte>>, stream: seq<byte>, sizes: seq<nat>, p: nat, pool: Pool) {
    && SameTorrent(sizes, p, pool) && |stream| == BytesBefore(sizes, |sizes|) && |content| == pool.maxPiece + 1
    && forall k :: 0 <= k < |content| ==>
         k * p <= |stream| && content[k] == if pool.SizeOf(k) > 0 then PieceOf(stream, p, k) else []
  }

  lemma PieceLengths(total: nat, p: nat, m: nat, k: nat)
    requires p > 0 && k <= m && m == (if total % p == 0 then total / p - 1 else total / p)
    ensures if k < m || total % p == 0 then k * p + p <= total else k * p + total % p == total
  {
    assert total == (total / p) * p + total % p;
    if k < m || total % p == 0 {
      assert k + 1 <= total / p;
      TimesMonotone(k + 1, total / p, p);
      assert (k + 1) * p == k * p + p;
    }
  }

  lemma TimesMonotone(a: nat, b: nat, p: nat)
    requires a <= b
    ensures a * p <= b * p
  {
  }

  lemma CutDescribes(content: seq<seq<byte>>, stream: seq<byte>, sizes: seq<nat>, p: nat, pool: Pool)
    requires CutFrom(content, stream, sizes, p, pool)
    ensures Describes(content, pool)
  {
    forall k | 0 <= k < |content| ensures |content[k]| == pool.SizeOf(k) {
      PieceHasSize(stream, p, pool, k);
    }
  }

  lemma PieceHasSize(stream: seq<byte>, p: nat, pool: Pool, k: nat)
    requires p > 0 && k <= pool.maxPiece && k * p <= |stream| && pool.pieceSize == p
    requires pool.lastSize == |stream| % p
    requires pool.maxPiece == if |stream| % p == 0 then |stream| / p - 1 else |stream| / p
    ensures pool.SizeOf(k) > 0 ==> |PieceOf(stream, p, k)| == pool.SizeOf(k)
  {
    PieceLengths(|stream|, p, pool.maxPiece, k);
  }

  function WritesOf(deliveries: seq<Delivery>): (ws: seq<Write>)
    requires forall k :: 0 <= k < |deliveries| ==> deliveries[k].piece.index >= 0
    ensures |ws| == |deliveries|
  {
    seq(|deliveries|, k requires 0 <= k < |deliveries| => Write(deliveries[k].piece.index, deliveries[k].piece.bytes))
  }

  /** A delivered piece is the torrent's, and every file can take its slice of it. */
  lemma DeliveryIsPiece(content: seq<seq<byte>>, stream: seq<byte>, sizes: seq<nat>, p: nat,
                        s: Swarm, events: seq<Event>, i: nat, k: nat)
    requires CutFrom(content, stream, sizes, p, s.pool) && EndsFit(Layout(sizes, p), s.pool) && i < |sizes|
    requires Launch(s) && Runs(s, events) && forall m :: 0 <= m < |events| ==> HonestEvent(content, events[m])
    requires k < |After(s, events).deliveries|
    ensures var f, piece := Info(sizes, p, i), After(s, events).deliveries[k].piece;
            && piece.index >= 0 && piece.index * p <= |stream| && |piece.bytes| <= p
            && piece.bytes == PieceOf(stream, p, piece.index)
            && (Contains(f, piece.index) ==> SliceFits(f, piece.index, |piece.bytes|))
  {
    CutDescribes(content, stream, sizes, p, s.pool);
    EveryWriteFits(sizes, p, s, events, k);
    DownloadsAreCorrect(content, s, events, k);
    LaunchInv(s);
    RunKeepsInv(s, events);
    WrittenWasDrawn(After(s, events), k);
    assert Layout(sizes, p)[i] == Info(sizes, p, i);
  }

  ghost predicate Honest(content: seq<seq<byte>>, s: Swarm, events: seq<Event>) {
    && Launch(s) && Runs(s, events)
    && forall k :: 0 <= k < |events| ==> HonestEvent(content, events[k])
  }

  /** The run has delivered every piece the file takes bytes from. */
  ghost predicate AllDelivered(f: FileInfo, t: Swarm) {
    forall id: nat :: Contains(f, id) ==> id in Written(t.deliveries)
  }

  /** The pieces a run has delivered are ones the file can take, whatever their order. */
  lemma DeliveriesSupply(content: seq<seq<byte>>, stream: seq<byte>, sizes: seq<nat>, p: nat,
                         s: Swarm, events: seq<Event>, i: nat)
    requires CutFrom(content, stream, sizes, p, s.pool) && EndsFit(Layout(sizes, p), s.pool) && i < |sizes|
    requires Honest(content, s, events) && AllDelivered(Info(sizes, p, i), After(s, events))
    ensures forall k :: 0 <= k < |After(s, events).deliveries| ==> After(s, events).deliveries[k].piece.index >= 0
    ensures Supplies(Info(sizes, p, i), p, stream, WritesOf(After(s, events).deliveries))
  {
    var f, ds := Info(sizes, p, i), After(s, events).deliveries;
    InfoSound(sizes, p, i);
    OwnershipIsExclusive(s, events);
    forall k | 0 <= k < |ds|
      ensures ds[k].piece.index >= 0 && ds[k].piece.index * p <= |stream| && |ds[k].piece.bytes| <= p
      ensures ds[k].piece.bytes == PieceOf(stream, p, ds[k].piece.index)
      ensures Contains(f, ds[k].piece.index) ==> SliceFits(f, ds[k].piece.index, |ds[k].piece.bytes|)
    {
      DeliveryIsPiece(content, stream, sizes, p, s, events, i, k);
    }
    forall id: nat | Contains(f, id) ensures exists k :: 0 <= k < |ds| && WritesOf(ds)[k].id == id {
      var k :| 0 <= k < |ds| && Written(ds)[k] == id;
      assert WritesOf(ds)[k].id == id;
    }
  }

  /** From the wire to the disk: in every run with honest blocks, on every torrent whose slices
      all fit, once all the pieces of a file have been delivered, in whatever order and to
      whichever sessions, the file holds its bytes exactly when it does not end on a piece
      boundary, lies inside one piece, and its bytes repeat one piece length later for every
      earlier file that ends on a boundary. */
  lemma DownloadedIffOnePiece(content: seq<seq<byte>>, stream: seq<byte>, sizes: seq<nat>, p: nat,
                              s: Swarm, events: seq<Event>, i: nat)
    requires CutFrom(content, stream, sizes, p, s.pool) && EndsFit(Layout(sizes, p), s.pool) && i < |sizes|
    requires Honest(content, s, events) && AllDelivered(Info(sizes, p, i), After(s, events))
    ensures forall k :: 0 <= k < |After(s, events).deliveries| ==> After(s, events).deliveries[k].piece.index >= 0
    ensures Supplies(Info(sizes, p, i), p, stream, WritesOf(After(s, events).deliveries))
    ensures BytesBefore(sizes, i + 1) <= |stream|
    ensures Replay(Info(sizes, p, i), p, map[], WritesOf(After(s, events).deliveries))
              == Extent(0, FileBytes(sizes, i, stream))
            <==> && !EndsAligned(sizes, p, i)
                 && Info(sizes, p, i).firstPiece.index == Info(sizes, p, i).lastPiece.index
                 && SameAfterDrift(sizes, p, i, stream)
  {
    DeliveriesSupply(content, stream, sizes, p, s, events, i);
    BytesGrow(sizes, i + 1, |sizes|);
    CorrectIffOnePiece(sizes, p, i, stream, WritesOf(After(s, events).deliveries));
  }

  // ----- which files can be finished

  /** The last piece of the file is one the allocator hands out, with bytes in it. */
  predicate Finishable(f: FileInfo, pool: Pool) {
    f.lastPiece.index <= pool.maxPiece && pool.SizeOf(f.lastPiece.index) > 0
  }

  ghost predicate Finishes(content: seq<seq<byte>>, s: Swarm, events: seq<Event>, f: FileInfo) {
    Honest(content, s, events) && AllDelivered(f, After(s, events))
  }

  /** Whatever a run delivers is handed out with bytes in it. */
  lemma FinishedIsFinishable(content: seq<seq<byte>>, s: Swarm, events: seq<Event>, f: FileInfo)
    requires Finishes(content, s, events, f) && f.firstPiece.index <= f.lastPiece.index
    ensures Finishable(f, s.pool)
  {
    LaunchInv(s);
    RunKeepsInv(s, events);
    var t, last := After(s, events), f.lastPiece.index;
    assert Contains(f, last);
    var k :| 0 <= k < |t.deliveries| && Written(t.deliveries)[k] == last;
    WrittenWasDrawn(t, k);
  }

  /** Some honest run finishes a file if and only if the layout's last piece for it exists
      and is not empty. A piece boundary that earlier files end on can put it out of reach. */
  lemma SomeRunFinishesIff(content: seq<seq<byte>>, sizes: seq<nat>, p: nat, s: Swarm, i: nat)
    requires SameTorrent(sizes, p, s.pool) && Describes(content, s.pool) && Launch(s) && i < |sizes|
    requires s.pool.maxPiece < TWO_TO_32 && p < TWO_TO_32 - 9
    ensures (exists events :: Finishes(content, s, events, Info(sizes, p, i))) <==>
            Finishable(Info(sizes, p, i), s.pool)
  {
    var f := Info(sizes, p, i);
    InfoSound(sizes, p, i);
    if events :| Finishes(content, s, events, f) {
      FinishedIsFinishable(content, s, events, f);
    }
    if Finishable(f, s.pool) {
      var events := SomeRunWritesAll(s, f.lastPiece.index, content);
      assert Finishes(content, s, events, f);
    }
  }

  /** Two files of exactly one piece and a shorter third: the second is never finished. */
  lemma DriftedFileNeverFinished(content: seq<seq<byte>>, p: nat, rest: nat, s: Swarm, events: seq<Event>)
    requires 0 < rest < p && SameTorrent([p, p, rest], p, s.pool)
    ensures EndsFit(Layout([p, p, rest], p), s.pool)
    ensures !Finishes(content, s, events, Info([p, p, rest], p, 1))
  {
    DriftedLayout([p, p, rest], p, rest, s.pool);
    if Finishes(content, s, events, Info([p, p, rest], p, 1)) {
      FinishedIsFinishable(content, s, events, Info([p, p, rest], p, 1));
    }
  }

  lemma DriftedLayout(sizes: seq<nat>, p: nat, rest: nat, pool: Pool)
    requires 0 < rest < p && sizes == [p, p, rest] && SameTorrent(sizes, p, pool)
    ensures pool.maxPiece == 2 && EndsFit(Layout(sizes, p), pool)
    ensures Info(sizes, p, 1).firstPiece.index == 2 && Info(sizes, p, 1).lastPiece.index == 3
  {
    assert BytesBefore(sizes, 0) == 0 && BytesBefore(sizes, 1) == p;
    assert BytesBefore(sizes, 2) == 2 * p && BytesBefore(sizes, 3) == 2 * p + rest;
    DivModUnique(p, p, 1, 0);
    DivModUnique(2 * p, p, 2, 0);
    DivModUnique(2 * p + rest, p, 2, rest);
    assert EndsAligned(sizes, p, 0) && EndsAligned(sizes, p, 1);
    assert AlignedBefore(sizes, p, 1) == AlignedBefore(sizes, p, 0) + 1;
    assert AlignedBefore(sizes, p, 2) == AlignedBefore(sizes, p, 1) + 1;
    var fs := Layout(sizes, p);
    assert fs[0] == Info(sizes, p, 0) && fs[0].lastPiece.index == 1;
    assert fs[1] == Info(sizes, p, 1) && fs[2] == Info(sizes, p, 2) && fs[2].lastPiece.index == 4;
  }

  /** The three conditions under which a finished file is correct. */
  ghost predicate Storable(stream: seq<byte>, sizes: seq<nat>, p: nat, i: nat)
    requires i < |sizes| && p > 0 && BytesBefore(sizes, i + 1) <= |stream|
  {
    && !EndsAligned(sizes, p, i)
    && Info(sizes, p, i).firstPiece.index == Info(sizes, p, i).lastPiece.index
    && SameAfterDrift(sizes, p, i, stream)
  }

  /** In one run: the file is downloaded exactly when it is finished and storable. */
  lemma DownloadsIff(content: seq<seq<byte>>, stream: seq<byte>, sizes: seq<nat>, p: nat,
                     s: Swarm, events: seq<Event>, i: nat)
    requires CutFrom(content, stream, sizes, p, s.pool) && EndsFit(Layout(sizes, p), s.pool) && i < |sizes|
    ensures BytesBefore(sizes, i + 1) <= |stream|
    ensures Downloads(content, stream, sizes, p, s, events, i) <==>
            Finishes(content, s, events, Info(sizes, p, i)) && Storable(stream, sizes, p, i)
  {
    BytesGrow(sizes, i + 1, |sizes|);
    if Finishes(content, s, events, Info(sizes, p, i)) {
      DownloadedIffOnePiece(content, stream, sizes, p, s, events, i);
    }
  }

  /** So some honest run leaves a file finished and correct if and only if it can be finished
      and meets the three conditions. */
  lemma SomeRunDownloadsIff(content: seq<seq<byte>>, stream: seq<byte>, sizes: seq<nat>, p: nat, s: Swarm, i: nat)
    requires CutFrom(content, stream, sizes, p, s.pool) && EndsFit(Layout(sizes, p), s.pool) && i < |sizes|
    requires Launch(s) && s.pool.maxPiece < TWO_TO_32 && p < TWO_TO_32 - 9
    ensures BytesBefore(sizes, i + 1) <= |stream|
    ensures (exists events :: Downloads(content, stream, sizes, p, s, events, i)) <==>
            Finishable(Info(sizes, p, i), s.pool) && Storable(stream, sizes, p, i)
  {
    var f := Info(sizes, p, i);
    BytesGrow(sizes, i + 1, |sizes|);
    CutDescribes(content, stream, sizes, p, s.pool);
    SomeRunFinishesIff(content, sizes, p, s, i);
    if events :| Downloads(content, stream, sizes, p, s, events, i) {
      DownloadsIff(content, stream, sizes, p, s, events, i);
      assert Finishes(content, s, events, f);
    }
    if Finishable(f, s.pool) && Storable(stream, sizes, p, i) {
      var events :| Finishes(content, s, events, f);
      DownloadsIff(content, stream, sizes, p, s, events, i);
    }
  }

  /** The run finishes the file, and it then has its contents. */
  ghost predicate Downloads(content: seq<seq<byte>>, stream: seq<byte>, sizes: seq<nat>, p: nat,
                            s: Swarm, events: seq<Event>, i: nat)
    requires i < |sizes| && p > 0
  {
    && Finishes(content, s, events, Info(sizes, p, i)) && BytesBefore(sizes, i + 1) <= |stream|
    && var ds := After(s, events).deliveries;
       && (forall k :: 0 <= k < |ds| ==> ds[k].piece.index >= 0)
       && Supplies(Info(sizes, p, i), p, stream, WritesOf(ds))
       && Replay(Info(sizes, p, i), p, map[], WritesOf(ds)) == Extent(0, FileBytes(sizes, i, stream))
  }
}
