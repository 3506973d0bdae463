/** What any sequence of adds does to a piece: first-writer-wins, fullness, block delivery. */
module PieceRuns {
  import opened Bytes
  import opened Blocks
  import opened Pieces

  datatype Chunk = Chunk(source: seq<byte>, offset: nat)
  {
    function End(): nat { offset + |source| }
    predicate Has(k: int) { offset <= k < End() }
  }

  ghost predicate AllFit(chunks: seq<Chunk>, n: nat) {
    forall i :: 0 <= i < |chunks| ==> chunks[i].End() <= n
  }

  /** A piece whose buffer holds n bytes and that is reserved for `id`. */
  ghost predicate Ready(p: PieceState, id: int, n: nat) {
    p.Valid() && p.data.Some? && p.size == n && p.id == id
  }

  /** The states `init` can leave behind: the buffer itself is not cleared. */
  ghost predicate JustInit(p: PieceState, id: int, n: nat) {
    Ready(p, id, n) && p.blocks == []
  }

  lemma AddKeepsReady(p: PieceState, id: int, chunk: Chunk, n: nat)
    requires Ready(p, id, n) && chunk.End() <= n
    ensures var (r, q) := AddSpec(p, id, chunk.source, chunk.offset);
            Ready(q, id, n) && (r.Accepted? || (r.SwallowsNext? && q == p))
  {
    NewBlocksNormal(p.blocks, chunk.offset, chunk.End(), n);
  }

  lemma AddKeepsNoneEmpty(p: PieceState, id: int, chunk: Chunk, n: nat)
    requires Ready(p, id, n) && chunk.End() <= n && NoneEmpty(p.blocks) && chunk.source != []
    ensures NoneEmpty(AddSpec(p, id, chunk.source, chunk.offset).1.blocks)
  {
    NewBlocksNormal(p.blocks, chunk.offset, chunk.End(), n);
  }

  /** The outcome of any add: the two misuse errors are exactly a missing buffer and a foreign id
      and change nothing; a piece without an id takes the one of the add; and the rest is
      refused exactly when a stored block is swallowed. */
  lemma AddOutcome(p: PieceState, id: int, chunk: Chunk)
    requires p.Fits(|chunk.source|, chunk.offset)
    ensures var (r, q) := AddSpec(p, id, chunk.source, chunk.offset);
            && (r.Uninitialized? <==> p.data.None?)
            && (r.InvalidId? <==> p.data.Some? && p.id != -1 && p.id != id)
            && (r.Uninitialized? || r.InvalidId? ==> q == p)
            && (r.Accepted? || r.SwallowsNext? ==> q.id == id && q.size == p.size)
            && (r.Accepted? || r.SwallowsNext? ==>
                  (r.SwallowsNext? <==> Swallows(p.blocks, chunk.offset, chunk.End())))
            && (r.SwallowsNext? || (r.Accepted? && chunk.source == [] && p.blocks != []) ==> q == p.(id := id))
  {
    if p.data.Some? && chunk.source == [] {
      assert Overlay(p.data.value, p.blocks, chunk.source, chunk.offset) == p.data.value;
    }
  }

  /** The piece after a sequence of adds for its own id; rejected adds leave it alone. */
  ghost function AfterAdds(p: PieceState, id: int, chunks: seq<Chunk>, n: nat): (q: PieceState)
    requires Ready(p, id, n) && AllFit(chunks, n)
    ensures Ready(q, id, n)
  {
    if chunks == [] then p
    else
      var last := chunks[|chunks| - 1];
      var q := AfterAdds(p, id, chunks[..|chunks| - 1], n);
      AddKeepsReady(q, id, last, n);
      AddSpec(q, id, last.source, last.offset).1
  }

  ghost predicate AcceptedAt(p: PieceState, id: int, chunks: seq<Chunk>, n: nat, i: nat)
    requires Ready(p, id, n) && AllFit(chunks, n) && i < |chunks|
  {
    AddSpec(AfterAdds(p, id, chunks[..i], n), id, chunks[i].source, chunks[i].offset).0.Accepted?
  }

  // ----- one add

  /** Coverage grows by exactly the accepted range; a byte already there keeps its value
      and a new one comes from the source. */
  lemma AddOverlays(p: PieceState, id: int, chunk: Chunk, n: nat, k: nat)
    requires Ready(p, id, n) && chunk.End() <= n && k < n
    ensures var (r, q) := AddSpec(p, id, chunk.source, chunk.offset);
            && Ready(q, id, n)
            && (Covered(q.blocks, k) <==> Covered(p.blocks, k) || (r.Accepted? && chunk.Has(k)))
            && (Covered(p.blocks, k) ==> q.data.value[k] == p.data.value[k])
            && (r.Accepted? && chunk.Has(k) && !Covered(p.blocks, k) ==>
              q.data.value[k] == chunk.source[k - chunk.offset])
  {
    AddKeepsReady(p, id, chunk, n);
    if !Swallows(p.blocks, chunk.offset, chunk.End()) {
      AddAccepted(p, id, chunk.source, chunk.offset);
      NewBlocksCover(p.blocks, chunk.offset, chunk.End(), k);
    }
  }

  lemma NewBlocksCover(bs: seq<Block>, from: nat, to: nat, k: int)
    requires from <= to
    ensures Covered(NewBlocks(bs, from, to), k) <==> Covered(bs, k) || from <= k < to
  {
    UnionCovers(bs, from, to, k);
  }

  /** Byte b is here; a before it and c after it, in the same range, are not. */
  ghost predicate Straddles(bs: seq<Block>, from: nat, to: nat, a: int, b: int, c: int) {
    from <= a < b < c < to && !Covered(bs, a) && Covered(bs, b) && !Covered(bs, c)
  }

  ghost predicate WouldStraddle(bs: seq<Block>, chunk: Chunk) {
    exists a, b, c :: Straddles(bs, chunk.offset, chunk.End(), a, b, c)
  }

  /** With no empty block stored, a stored block is swallowed exactly when the range fills a
      gap, runs over received bytes and reaches into the next gap. */
  lemma SwallowsIffStraddles(bs: seq<Block>, n: nat, from: nat, to: nat)
    requires Normal(bs, n) && NoneEmpty(bs)
    ensures Swallows(bs, from, to) <==> exists a, b, c :: Straddles(bs, from, to, a, b, c)
  {
    if Swallows(bs, from, to) {
      var i :| 0 <= i < |bs| && from < bs[i].offset && bs[i].End() < to;
      BordersUncovered(bs, n, i);
      assert InBlock(bs[i].offset, bs[i]);
      assert Straddles(bs, from, to, bs[i].offset - 1, bs[i].offset, bs[i].End());
    }
    if a, b, c :| Straddles(bs, from, to, a, b, c) {
      var i :| 0 <= i < |bs| && InBlock(b, bs[i]);
      assert !InBlock(a, bs[i]) && !InBlock(c, bs[i]);
    }
  }

  lemma BordersUncovered(bs: seq<Block>, n: nat, i: nat)
    requires Normal(bs, n) && i < |bs|
    ensures !Covered(bs, bs[i].offset - 1) && !Covered(bs, bs[i].End())
  {
    forall j | 0 <= j < |bs| ensures !InBlock(bs[i].offset - 1, bs[j]) && !InBlock(bs[i].End(), bs[j]) {
      if j < i { assert bs[j].End() < bs[i].offset; }
      if j > i { assert bs[i].End() < bs[j].offset; }
    }
  }

  /** Testing the first block's size is testing every byte of the piece. */
  lemma FullIffCovered(p: PieceState, id: int, n: nat)
    requires Ready(p, id, n) && n > 0
    ensures FullSpec(p) <==> forall k :: 0 <= k < n ==> Covered(p.blocks, k)
  {
    var bs := p.blocks;
    if FullSpec(p) {
      forall k | 0 <= k < n ensures Covered(bs, k) {
        assert InBlock(k, bs[0]);
      }
    } else if bs != [] && bs[0].offset == 0 {
      BordersUncovered(bs, n, 0);
      assert 0 <= bs[0].End() < n;
    } else {
      forall i | 0 <= i < |bs| ensures !InBlock(0, bs[i]) {
        if i > 0 { assert bs[0].End() < bs[i].offset; }
      }
      assert !Covered(bs, 0);
    }
  }

  // ----- sequences of adds

  /** Whether an add is accepted depends only on the adds before it. */
  lemma AcceptedInFront(p: PieceState, id: int, chunks: seq<Chunk>, n: nat, m: nat, i: nat)
    requires Ready(p, id, n) && AllFit(chunks, n) && i < m <= |chunks|
    ensures AllFit(chunks[..m], n)
    ensures AcceptedAt(p, id, chunks[..m], n, i) <==> AcceptedAt(p, id, chunks, n, i)
  {
    assert chunks[..m][..i] == chunks[..i];
  }

  /** Some accepted add contained byte k. */
  ghost predicate Received(p: PieceState, id: int, chunks: seq<Chunk>, n: nat, k: int)
    requires Ready(p, id, n) && AllFit(chunks, n)
  {
    exists i {:trigger AcceptedAt(p, id, chunks, n, i)} ::
      0 <= i < |chunks| && AcceptedAt(p, id, chunks, n, i) && chunks[i].Has(k)
  }

  lemma ReceivedBy(p: PieceState, id: int, chunks: seq<Chunk>, n: nat, k: int, i: nat)
    requires Ready(p, id, n) && AllFit(chunks, n) && i < |chunks| && AcceptedAt(p, id, chunks, n, i) && chunks[i].Has(k)
    ensures Received(p, id, chunks, n, k)
  {
  }

  lemma ReceivedEarlier(p: PieceState, id: int, chunks: seq<Chunk>, n: nat, k: int, m: nat)
    requires Ready(p, id, n) && AllFit(chunks, n) && m <= |chunks|
    ensures AllFit(chunks[..m], n)
    ensures Received(p, id, chunks[..m], n, k) ==> Received(p, id, chunks, n, k)
  {
    if i :| 0 <= i < m && AcceptedAt(p, id, chunks[..m], n, i) && chunks[..m][i].Has(k) {
      AcceptedInFront(p, id, chunks, n, m, i);
      ReceivedBy(p, id, chunks, n, k, i);
    }
  }

  lemma ReceivedLast(p: PieceState, id: int, chunks: seq<Chunk>, n: nat, k: int, m: nat)
    requires Ready(p, id, n) && AllFit(chunks, n) && |chunks| == m + 1 && Received(p, id, chunks, n, k)
    ensures AllFit(chunks[..m], n)
    ensures Received(p, id, chunks[..m], n, k) || (AcceptedAt(p, id, chunks, n, m) && chunks[m].Has(k))
  {
    var i :| 0 <= i < |chunks| && AcceptedAt(p, id, chunks, n, i) && chunks[i].Has(k);
    ReceivedAtOrBefore(p, id, chunks, n, k, m, i);
  }

  lemma ReceivedAtOrBefore(p: PieceState, id: int, chunks: seq<Chunk>, n: nat, k: int, m: nat, i: nat)
    requires Ready(p, id, n) && AllFit(chunks, n) && i <= m < |chunks|
    requires AcceptedAt(p, id, chunks, n, i) && chunks[i].Has(k)
    ensures AllFit(chunks[..m], n)
    ensures Received(p, id, chunks[..m], n, k) || (AcceptedAt(p, id, chunks, n, m) && chunks[m].Has(k))
  {
    if i < m {
      ReceivedInFront(p, id, chunks, n, k, m, i);
    } else {
      assert i == m;
    }
  }

  lemma ReceivedInFront(p: PieceState, id: int, chunks: seq<Chunk>, n: nat, k: int, m: nat, i: nat)
    requires Ready(p, id, n) && AllFit(chunks, n) && i < m <= |chunks|
    requires AcceptedAt(p, id, chunks, n, i) && chunks[i].Has(k)
    ensures AllFit(chunks[..m], n) && Received(p, id, chunks[..m], n, k)
  {
    AcceptedInFront(p, id, chunks, n, m, i);
    ReceivedBy(p, id, chunks[..m], n, k, i);
  }

  lemma ReceivedSnoc(p: PieceState, id: int, chunks: seq<Chunk>, n: nat, k: int)
    requires Ready(p, id, n) && AllFit(chunks, n) && chunks != []
    ensures var m := |chunks| - 1;
            AllFit(chunks[..m], n) &&
            (Received(p, id, chunks, n, k) <==>
             Received(p, id, chunks[..m], n, k) || (AcceptedAt(p, id, chunks, n, m) && chunks[m].Has(k)))
  {
    var m := |chunks| - 1;
    ReceivedEarlier(p, id, chunks, n, k, m);
    if Received(p, id, chunks, n, k) {
      ReceivedLast(p, id, chunks, n, k, m);
    }
  }

  lemma AfterLast(p: PieceState, id: int, chunks: seq<Chunk>, n: nat, m: nat, front: seq<Chunk>)
    requires Ready(p, id, n) && AllFit(chunks, n) && |chunks| == m + 1 && front == chunks[..m]
    ensures AllFit(front, n)
    ensures AfterAdds(p, id, chunks, n) == AddSpec(AfterAdds(p, id, front, n), id, chunks[m].source, chunks[m].offset).1
  {
  }

  /** What the last of a sequence of adds does to byte k. */
  lemma LastAdd(p: PieceState, id: int, chunks: seq<Chunk>, n: nat, k: nat)
    requires Ready(p, id, n) && AllFit(chunks, n) && k < n && chunks != []
    ensures AllFit(chunks[..|chunks| - 1], n)
    ensures var m := |chunks| - 1;
            var before, q, writes := AfterAdds(p, id, chunks[..m], n), AfterAdds(p, id, chunks, n),
                                     AcceptedAt(p, id, chunks, n, m) && chunks[m].Has(k);
            && (Covered(q.blocks, k) <==> Covered(before.blocks, k) || writes)
            && (Covered(before.blocks, k) ==> q.data.value[k] == before.data.value[k])
            && (writes && !Covered(before.blocks, k) ==> q.data.value[k] == chunks[m].source[k - chunks[m].offset])
  {
    var m := |chunks| - 1;
    AfterLast(p, id, chunks, n, m, chunks[..m]);
    AddOverlays(AfterAdds(p, id, chunks[..m], n), id, chunks[m], n, k);
  }

  /** A byte is covered exactly when some accepted add contained it. */
  lemma {:induction false} CoverageIsUnion(p: PieceState, id: int, chunks: seq<Chunk>, n: nat, k: nat)
    requires JustInit(p, id, n) && AllFit(chunks, n) && k < n
    ensures Covered(AfterAdds(p, id, chunks, n).blocks, k) <==> Received(p, id, chunks, n, k)
  {
    if chunks != [] {
      var m := |chunks| - 1;
      ReceivedSnoc(p, id, chunks, n, k);
      CoverageIsUnion(p, id, chunks[..m], n, k);
      LastAdd(p, id, chunks, n, k);
    }
  }

  ghost predicate AllNonEmpty(chunks: seq<Chunk>) {
    forall i :: 0 <= i < |chunks| ==> chunks[i].source != []
  }

  /** The block set always stays in normal form, and holds no empty block as long as no
      empty range is added. */
  lemma {:induction false} BlocksStayNormal(p: PieceState, id: int, chunks: seq<Chunk>, n: nat)
    requires JustInit(p, id, n) && AllFit(chunks, n)
    ensures Normal(AfterAdds(p, id, chunks, n).blocks, n)
    ensures AllNonEmpty(chunks) ==> NoneEmpty(AfterAdds(p, id, chunks, n).blocks)
  {
    if chunks != [] {
      var m := |chunks| - 1;
      BlocksStayNormal(p, id, chunks[..m], n);
      AfterLast(p, id, chunks, n, m, chunks[..m]);
      if AllNonEmpty(chunks) {
        assert chunks[m].source != [] && AllNonEmpty(chunks[..m]);
        AddKeepsNoneEmpty(AfterAdds(p, id, chunks[..m], n), id, chunks[m], n);
      }
    }
  }

  /** In any sequence of non-empty adds, one is rejected exactly when it fills a gap of what
      the adds before it left, runs over received bytes and reaches into the next gap. */
  lemma RejectedIffStraddles(p: PieceState, id: int, chunks: seq<Chunk>, n: nat, i: nat)
    requires JustInit(p, id, n) && AllFit(chunks, n) && i < |chunks| && AllNonEmpty(chunks[..i])
    ensures AllFit(chunks[..i], n)
    ensures !AcceptedAt(p, id, chunks, n, i) <==>
            WouldStraddle(AfterAdds(p, id, chunks[..i], n).blocks, chunks[i])
  {
    var q := AfterAdds(p, id, chunks[..i], n);
    BlocksStayNormal(p, id, chunks[..i], n);
    SwallowsIffStraddles(q.blocks, n, chunks[i].offset, chunks[i].End());
    RejectedIffSwallows(q, id, chunks[i], n);
  }

  lemma RejectedIffSwallows(p: PieceState, id: int, chunk: Chunk, n: nat)
    requires Ready(p, id, n) && chunk.End() <= n
    ensures !AddSpec(p, id, chunk.source, chunk.offset).0.Accepted? <==> Swallows(p.blocks, chunk.offset, chunk.End())
  {
  }

  /** Add j is the first accepted one that contained byte k. */
  ghost predicate FirstWriter(p: PieceState, id: int, chunks: seq<Chunk>, n: nat, k: nat, j: int)
    requires Ready(p, id, n) && AllFit(chunks, n)
  {
    && 0 <= j < |chunks| && AcceptedAt(p, id, chunks, n, j) && chunks[j].Has(k)
    && forall i {:trigger AcceptedAt(p, id, chunks, n, i)} ::
         0 <= i < j && AcceptedAt(p, id, chunks, n, i) ==> !chunks[i].Has(k)
  }

  lemma NobodyBefore(p: PieceState, id: int, chunks: seq<Chunk>, n: nat, k: nat, j: nat)
    requires JustInit(p, id, n) && AllFit(chunks, n) && FirstWriter(p, id, chunks, n, k, j) && k < n
    ensures AllFit(chunks[..j], n) && !Covered(AfterAdds(p, id, chunks[..j], n).blocks, k)
  {
    CoverageIsUnion(p, id, chunks[..j], n, k);
    if i :| 0 <= i < j && AcceptedAt(p, id, chunks[..j], n, i) && chunks[..j][i].Has(k) {
      AcceptedInFront(p, id, chunks, n, j, i);
    }
  }

  lemma AcceptedWrites(p: PieceState, id: int, chunks: seq<Chunk>, n: nat, k: nat, i: nat, upTo: seq<Chunk>)
    requires Ready(p, id, n) && AllFit(chunks, n) && k < n && i < |chunks| && upTo == chunks[..i + 1]
    requires AcceptedAt(p, id, chunks, n, i) && chunks[i].Has(k)
    requires !Covered(AfterAdds(p, id, chunks[..i], n).blocks, k)
    ensures AllFit(upTo, n) && Covered(AfterAdds(p, id, upTo, n).blocks, k)
    ensures AfterAdds(p, id, upTo, n).data.value[k] == chunks[i].source[k - chunks[i].offset]
  {
    assert upTo[..i] == chunks[..i] && upTo[i] == chunks[i];
    LastAdd(p, id, upTo, n, k);
  }

  /** A covered byte is never overwritten. */
  lemma {:induction false} CoveredStays(p: PieceState, id: int, chunks: seq<Chunk>, n: nat, k: nat, i: nat)
    requires Ready(p, id, n) && AllFit(chunks, n) && k < n && i <= |chunks|
    requires Covered(AfterAdds(p, id, chunks[..i], n).blocks, k)
    ensures Covered(AfterAdds(p, id, chunks, n).blocks, k)
    ensures AfterAdds(p, id, chunks, n).data.value[k] == AfterAdds(p, id, chunks[..i], n).data.value[k]
  {
    if i == |chunks| {
      assert chunks[..i] == chunks;
    } else {
      assert chunks[..|chunks| - 1][..i] == chunks[..i];
      CoveredStays(p, id, chunks[..|chunks| - 1], n, k, i);
      LastAdd(p, id, chunks, n, k);
    }
  }

  lemma {:induction false} FindFirstWriter(p: PieceState, id: int, chunks: seq<Chunk>, n: nat, k: nat, from: nat)
    returns (j: nat)
    requires JustInit(p, id, n) && AllFit(chunks, n)
    requires from < |chunks| && AcceptedAt(p, id, chunks, n, from) && chunks[from].Has(k)
    ensures FirstWriter(p, id, chunks, n, k, j)
    decreases from
  {
    if i :| 0 <= i < from && AcceptedAt(p, id, chunks, n, i) && chunks[i].Has(k) {
      j := FindFirstWriter(p, id, chunks, n, k, i);
    } else {
      j := from;
    }
  }

  lemma FullPieceReceived(p: PieceState, id: int, chunks: seq<Chunk>, n: nat, k: nat) returns (some: nat)
    requires JustInit(p, id, n) && AllFit(chunks, n) && FullSpec(AfterAdds(p, id, chunks, n)) && k < n
    ensures some < |chunks| && AcceptedAt(p, id, chunks, n, some) && chunks[some].Has(k)
  {
    FullIffCovered(AfterAdds(p, id, chunks, n), id, n);
    CoverageIsUnion(p, id, chunks, n, k);
    some :| 0 <= some < |chunks| && AcceptedAt(p, id, chunks, n, some) && chunks[some].Has(k);
  }

  /** Every byte of a full piece is the byte of the first accepted add that contained it. */
  lemma FullPieceWriter(p: PieceState, id: int, chunks: seq<Chunk>, n: nat, k: nat) returns (j: nat)
    requires JustInit(p, id, n) && AllFit(chunks, n) && FullSpec(AfterAdds(p, id, chunks, n)) && k < n
    ensures FirstWriter(p, id, chunks, n, k, j)
    ensures AfterAdds(p, id, chunks, n).data.value[k] == chunks[j].source[k - chunks[j].offset]
  {
    var some := FullPieceReceived(p, id, chunks, n, k);
    j := FindFirstWriter(p, id, chunks, n, k, some);
    FirstWriterWins(p, id, chunks, n, k, j);
  }

  /** Every covered byte has the value of the first accepted add that contained it. */
  lemma FirstWriterWins(p: PieceState, id: int, chunks: seq<Chunk>, n: nat, k: nat, i: nat)
    requires JustInit(p, id, n) && AllFit(chunks, n) && k < n
    requires FirstWriter(p, id, chunks, n, k, i)
    ensures AfterAdds(p, id, chunks, n).data.value[k] == chunks[i].source[k - chunks[i].offset]
    ensures Covered(AfterAdds(p, id, chunks, n).blocks, k)
  {
    NobodyBefore(p, id, chunks, n, k, i);
    AcceptedWrites(p, id, chunks, n, k, i, chunks[..i + 1]);
    CoveredStays(p, id, chunks, n, k, i + 1);
  }

  /** The chunk carries the bytes of `whole` at its place. */
  predicate FromPiece(whole: seq<byte>, c: Chunk) {
    c.End() <= |whole| && c.source == whole[c.offset..c.End()]
  }

  ghost predicate AllFromPiece(whole: seq<byte>, chunks: seq<Chunk>) {
    forall i :: 0 <= i < |chunks| ==> FromPiece(whole, chunks[i])
  }

  lemma ChunkByte(whole: seq<byte>, c: Chunk, k: nat)
    requires FromPiece(whole, c) && c.Has(k)
    ensures c.source[k - c.offset] == whole[k]
  {
  }

  /** If every chunk carries the bytes of `whole`, every covered byte is a byte of `whole`,
      whatever overlaps, repeats or is rejected. */
  lemma {:induction false} HonestBytes(p: PieceState, id: int, chunks: seq<Chunk>, whole: seq<byte>, k: nat)
    requires JustInit(p, id, |whole|) && AllFit(chunks, |whole|) && k < |whole|
    requires AllFromPiece(whole, chunks)
    requires Covered(AfterAdds(p, id, chunks, |whole|).blocks, k)
    ensures AfterAdds(p, id, chunks, |whole|).data.value[k] == whole[k]
    decreases |chunks|
  {
    if chunks != [] {
      var m := |chunks| - 1;
      var front, n := chunks[..m], |whole|;
      var before := AfterAdds(p, id, front, n);
      AfterLast(p, id, chunks, n, m, front);
      if Covered(before.blocks, k) {
        HonestBytes(p, id, front, whole, k);
      }
      HonestAdd(before, id, chunks[m], whole, k);
    }
  }

  lemma HonestAdd(p: PieceState, id: int, chunk: Chunk, whole: seq<byte>, k: nat)
    requires Ready(p, id, |whole|) && FromPiece(whole, chunk) && k < |whole|
    requires Covered(p.blocks, k) ==> p.data.value[k] == whole[k]
    ensures var q := AddSpec(p, id, chunk.source, chunk.offset).1;
            Ready(q, id, |whole|) && (Covered(q.blocks, k) ==> q.data.value[k] == whole[k])
  {
    AddOverlays(p, id, chunk, |whole|, k);
    if chunk.Has(k) {
      ChunkByte(whole, chunk, k);
    }
  }

  /** A full piece assembled from honest chunks is the original piece. */
  lemma HonestPiece(p: PieceState, id: int, chunks: seq<Chunk>, whole: seq<byte>)
    requires whole != [] && JustInit(p, id, |whole|) && AllFit(chunks, |whole|)
    requires AllFromPiece(whole, chunks)
    requires FullSpec(AfterAdds(p, id, chunks, |whole|))
    ensures AfterAdds(p, id, chunks, |whole|).data == Some(whole)
  {
    var q := AfterAdds(p, id, chunks, |whole|);
    FullIffCovered(q, id, |whole|);
    forall k | 0 <= k < |whole| ensures q.data.value[k] == whole[k] {
      HonestBytes(p, id, chunks, whole, k);
    }
    assert q.data.value == whole;
  }

  // ----- the blocks the client asks for

  const BLOCK_SIZE: nat := 16384

  /** How many requests a piece of n bytes takes. */
  function RequestCount(n: nat): nat { (n + BLOCK_SIZE - 1) / BLOCK_SIZE }

  function RequestStart(j: nat): nat { j * BLOCK_SIZE }

  function RequestLength(n: nat, j: nat): (length: nat)
    requires j < RequestCount(n)
  {
    if RequestStart(j) + BLOCK_SIZE > n then n - RequestStart(j) else BLOCK_SIZE
  }

  /** The requests cut the piece into its 16 KiB blocks: byte k lies in request k / 16384 only. */
  lemma RequestsTile(n: nat, k: nat, j: nat)
    requires k < n && j < RequestCount(n)
    ensures k / BLOCK_SIZE < RequestCount(n)
    ensures RequestStart(j) <= k < RequestStart(j) + RequestLength(n, j) <==> j == k / BLOCK_SIZE
    ensures 0 < RequestLength(n, j) <= BLOCK_SIZE && RequestStart(j) + RequestLength(n, j) <= n
  {
  }

  /** The answer to request j about the piece `whole`. */
  function Answer(whole: seq<byte>, j: nat): (c: Chunk)
    requires j < RequestCount(|whole|)
    ensures FromPiece(whole, c)
  {
    Chunk(whole[RequestStart(j)..RequestStart(j) + RequestLength(|whole|, j)], RequestStart(j))
  }

  ghost predicate Aligned(bs: seq<Block>) {
    forall i :: 0 <= i < |bs| ==> bs[i].offset % BLOCK_SIZE == 0
  }

  lemma {:induction false} UnionAligned(bs: seq<Block>, from: nat, to: nat)
    requires from <= to && from % BLOCK_SIZE == 0 && Aligned(bs)
    ensures Aligned(Union(bs, from, to))
  {
    if bs != [] && from <= bs[0].End() && bs[0].offset <= to {
      assert bs[0].offset % BLOCK_SIZE == 0;
      UnionAligned(bs[1..], Min(from, bs[0].offset), Max(to, bs[0].End()));
    } else if bs != [] && bs[0].End() < from {
      UnionAligned(bs[1..], from, to);
    }
  }

  ghost predicate ValidOrder(order: seq<nat>, n: nat) {
    forall i :: 0 <= i < |order| ==> order[i] < RequestCount(n)
  }

  /** The answers to a sequence of request numbers. */
  ghost function Answers(whole: seq<byte>, order: seq<nat>): (r: seq<Chunk>)
    requires ValidOrder(order, |whole|)
    ensures |r| == |order| && AllFit(r, |whole|)
  {
    seq(|order|, i requires 0 <= i < |order| => Answer(whole, order[i]))
  }

  /** A block-aligned set never makes the answer to a request straddle. */
  lemma AlignedNeverSwallows(bs: seq<Block>, n: nat, j: nat)
    requires Aligned(bs) && j < RequestCount(n)
    ensures !Swallows(bs, RequestStart(j), RequestStart(j) + RequestLength(n, j))
  {
    forall i | 0 <= i < |bs| && RequestStart(j) < bs[i].offset
      ensures RequestStart(j) + RequestLength(n, j) <= bs[i].End()
    {
      var blockNumber := bs[i].offset / BLOCK_SIZE;
      assert bs[i].offset == blockNumber * BLOCK_SIZE;
    }
  }

  lemma AnswersFront(whole: seq<byte>, order: seq<nat>, m: nat)
    requires ValidOrder(order, |whole|) && m <= |order|
    ensures ValidOrder(order[..m], |whole|) && Answers(whole, order)[..m] == Answers(whole, order[..m])
  {
  }

  lemma AnswerKeepsAligned(p: PieceState, id: int, whole: seq<byte>, j: nat)
    requires Ready(p, id, |whole|) && Aligned(p.blocks) && j < RequestCount(|whole|)
    ensures var c := Answer(whole, j); Aligned(AddSpec(p, id, c.source, c.offset).1.blocks)
  {
    UnionAligned(p.blocks, RequestStart(j), RequestStart(j) + RequestLength(|whole|, j));
  }

  /** Answers to requests, in any order and with any repetition, keep the set block-aligned. */
  lemma {:induction false} AnswersAligned(p: PieceState, id: int, whole: seq<byte>, order: seq<nat>)
    requires JustInit(p, id, |whole|) && ValidOrder(order, |whole|)
    ensures Aligned(AfterAdds(p, id, Answers(whole, order), |whole|).blocks)
    decreases |order|
  {
    if order != [] {
      var m := |order| - 1;
      AnswersFront(whole, order, m);
      AnswersAligned(p, id, whole, order[..m]);
      AfterLast(p, id, Answers(whole, order), |whole|, m, Answers(whole, order[..m]));
      AnswerKeepsAligned(AfterAdds(p, id, Answers(whole, order[..m]), |whole|), id, whole, order[m]);
    }
  }

  /** No answer to a request is ever rejected, whatever the order and the repetitions. */
  lemma AnswersAccepted(p: PieceState, id: int, whole: seq<byte>, order: seq<nat>, i: nat)
    requires JustInit(p, id, |whole|) && ValidOrder(order, |whole|) && i < |order|
    ensures AcceptedAt(p, id, Answers(whole, order), |whole|, i)
  {
    AnswersFront(whole, order, i);
    AnswersAligned(p, id, whole, order[..i]);
    AlignedNeverSwallows(AfterAdds(p, id, Answers(whole, order[..i]), |whole|).blocks, |whole|, order[i]);
  }

  lemma AnswerCovers(p: PieceState, id: int, whole: seq<byte>, order: seq<nat>, k: nat, i: nat)
    requires JustInit(p, id, |whole|) && ValidOrder(order, |whole|) && k < |whole|
    requires i < |order| && order[i] == k / BLOCK_SIZE
    ensures Received(p, id, Answers(whole, order), |whole|, k)
  {
    AnswersAccepted(p, id, whole, order, i);
    RequestsTile(|whole|, k, order[i]);
    ReceivedBy(p, id, Answers(whole, order), |whole|, k, i);
  }

  /** They cover exactly the blocks that arrived. */
  lemma AnswersCover(p: PieceState, id: int, whole: seq<byte>, order: seq<nat>, k: nat)
    requires JustInit(p, id, |whole|) && ValidOrder(order, |whole|) && k < |whole|
    ensures Covered(AfterAdds(p, id, Answers(whole, order), |whole|).blocks, k) <==> k / BLOCK_SIZE in order
  {
    var answers := Answers(whole, order);
    CoverageIsUnion(p, id, answers, |whole|, k);
    if k / BLOCK_SIZE in order {
      var i :| 0 <= i < |order| && order[i] == k / BLOCK_SIZE;
      AnswerCovers(p, id, whole, order, k, i);
    } else if Received(p, id, answers, |whole|, k) {
      var i :| 0 <= i < |answers| && AcceptedAt(p, id, answers, |whole|, i) && answers[i].Has(k);
      AnswerHas(whole, order, k, i);
    }
  }

  lemma AnswerHas(whole: seq<byte>, order: seq<nat>, k: nat, i: nat)
    requires ValidOrder(order, |whole|) && k < |whole| && i < |order| && Answers(whole, order)[i].Has(k)
    ensures order[i] == k / BLOCK_SIZE
  {
    RequestsTile(|whole|, k, order[i]);
  }

  /** The piece is full exactly when the last missing block has arrived, and then it is the
      original piece. */
  lemma DeliveryCompletes(p: PieceState, id: int, whole: seq<byte>, order: seq<nat>)
    requires whole != [] && JustInit(p, id, |whole|) && ValidOrder(order, |whole|)
    ensures var q := AfterAdds(p, id, Answers(whole, order), |whole|);
            && (FullSpec(q) <==> forall j :: 0 <= j < RequestCount(|whole|) ==> j in order)
            && (FullSpec(q) ==> q.data == Some(whole))
  {
    var n := |whole|;
    var q := AfterAdds(p, id, Answers(whole, order), n);
    FullIffCovered(q, id, n);
    forall k | 0 <= k < n ensures Covered(q.blocks, k) <==> k / BLOCK_SIZE in order {
      AnswersCover(p, id, whole, order, k);
    }
    if FullSpec(q) {
      forall j | 0 <= j < RequestCount(n) ensures j in order {
        var k := RequestStart(j);
        assert 0 <= k < n && k / BLOCK_SIZE == j;
      }
      HonestPiece(p, id, Answers(whole, order), whole);
    }
    if forall j :: 0 <= j < RequestCount(n) ==> j in order {
      forall k | 0 <= k < n ensures Covered(q.blocks, k) {
        RequestsTile(n, k, 0);
      }
    }
  }

  // ----- where the code falls short

  /** Adding nothing is not always harmless: an empty first range stays in the set as an
      empty block, and an add that straddles it is then rejected. */
  lemma EmptyFirstAddBlocks(p: PieceState, id: int, whole: seq<byte>, at: nat)
    requires JustInit(p, id, |whole|) && at <= |whole|
    ensures var q := AddSpec(p, id, [], at).1;
            && Ready(q, id, |whole|)
            && (AddSpec(q, id, whole, 0).0.SwallowsNext? <==> 0 < at < |whole|)
  {
    var q := AddSpec(p, id, [], at).1;
    assert q.blocks == [Block(at, 0)];
    if 0 < at < |whole| {
      assert q.blocks[0].End() == at;
    }
  }
}
