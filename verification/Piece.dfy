/** The buffer one peer reassembles a piece in (piece.cpp), with the byte map it stands for. */
module Pieces {
  import opened Bytes
  import opened Blocks

  /** The fields of a Piece object as a value. */
  datatype PieceState = PieceState(data: Option<seq<byte>>, id: int, size: nat, blocks: seq<Block>)
  {
    ghost predicate Valid() {
      match data
      case None => size == 0 && blocks == [] && id == -1
      case Some(bytes) => |bytes| == size && Normal(blocks, size)
    }

    /** Writing `length` bytes at `offset` stays inside the buffer, if there is one. */
    predicate Fits(length: nat, offset: nat) {
      data.Some? ==> offset + length <= |data.value|
    }
  }

  datatype AddResult = Accepted | Uninitialized | InvalidId | SwallowsNext

  /** The bytes after an accepted add: whoever wrote a byte first has written it for good. */
  ghost function Overlay(data: seq<byte>, bs: seq<Block>, source: seq<byte>, offset: nat): (r: seq<byte>)
    requires offset + |source| <= |data|
    ensures |r| == |data|
  {
    seq(|data|, k requires 0 <= k < |data| =>
      if offset <= k < offset + |source| && !Covered(bs, k) then source[k - offset] else data[k])
  }

  /** What add means: reject, or take the union of the ranges and overlay the new bytes. */
  ghost function AddSpec(p: PieceState, id: int, source: seq<byte>, offset: nat): (r: (AddResult, PieceState))
    requires p.Fits(|source|, offset)
  {
    match p.data
    case None => (Uninitialized, p)
    case Some(data) =>
      if p.id != -1 && p.id != id then (InvalidId, p)
      else if Swallows(p.blocks, offset, offset + |source|) then (SwallowsNext, p.(id := id))
      else (Accepted, PieceState(Some(Overlay(data, p.blocks, source, offset)), id, p.size,
                                 NewBlocks(p.blocks, offset, offset + |source|)))
  }

  /** A piece after `init`: the new buffer holds whatever was in that memory. */
  ghost function FreshPiece(garbage: nat -> byte, id: int, size: nat): (p: PieceState)
    ensures p.Valid()
  {
    PieceState(Some(seq(size, k requires 0 <= k < size => garbage(k))), id, size, [])
  }

  const EMPTY_PIECE := PieceState(None, -1, 0, [])

  function FullSpec(p: PieceState): bool {
    p.blocks != [] && p.blocks[0].size == p.size
  }

  class Piece {
    const garbage: nat -> byte  // contents of uninitialised memory
    var data: array?<byte>
    var id: int
    var fullPieceSize: nat
    var blocks: seq<Block>

    ghost function State(): PieceState
      reads this, data
    {
      PieceState(if data == null then None else Some(data[..]), id, fullPieceSize, blocks)
    }

    ghost predicate Valid()
      reads this, data
    {
      State().Valid()
    }

    constructor (garbage: nat -> byte)
      ensures Valid() && State() == EMPTY_PIECE && data == null && this.garbage == garbage
    {
      this.garbage := garbage;
      data, id, fullPieceSize, blocks := null, -1, 0, [];
    }

    method Init(newId: int, size: nat)
      modifies this
      ensures Valid() && data != null && fresh(data)
      ensures State() == FreshPiece(garbage, newId, size)
    {
      id := newId;
      data := new byte[size];
      forall k | 0 <= k < size {
        data[k] := garbage(k);
      }
      assert data[..] == FreshPiece(garbage, newId, size).data.value;
      blocks := [];
      fullPieceSize := size;
    }

    method Add(pieceId: int, source: seq<byte>, offset: nat) returns (r: AddResult)
      requires Valid() && State().Fits(|source|, offset)
      modifies this, data
      ensures data == old(data)
      ensures (r, State()) == AddSpec(old(State()), pieceId, source, offset)
      ensures Valid()
    {
      if data == null {
        return Uninitialized;
      }
      if id == -1 {
        id := pieceId;
      } else if id != pieceId {
        return InvalidId;
      }
      ghost var before := State();
      NewBlocksNormal(blocks, offset, offset + |source|, fullPieceSize);
      if blocks == [] {
        blocks := [Block(offset, |source|)];
        CopyInto(data, offset, source);
        AddsFirst(before, pieceId, source, offset);
        return Accepted;
      }
      r := Merge(source, offset);
    }

    /** The part of add that runs when something was received before. */
    method Merge(source: seq<byte>, offset: nat) returns (r: AddResult)
      requires Valid() && data != null && blocks != [] && offset + |source| <= fullPieceSize
      modifies this`blocks, data
      ensures (r, State()) == AddSpec(old(State()), id, source, offset)
    {
      var newBlock, j;
      r, newBlock, j := FindRoom(State(), blocks, source, offset);
      if r.Accepted? && newBlock.size > 0 {
        CopyCut(data, source, offset, newBlock);
        blocks := Coalesce(blocks, newBlock, j, fullPieceSize);
      }
    }

    method Full() returns (r: bool)
      ensures r == FullSpec(State())
    {
      if blocks == [] {
        return false;
      }
      return blocks[0].size == fullPieceSize;
    }

    /** Hands the buffer over and resets the piece. */
    method Get() returns (output: array?<byte>)
      modifies this
      ensures output == old(data) && Valid() && State() == EMPTY_PIECE && data == null
    {
      output := data;
      data, id, fullPieceSize, blocks := null, -1, 0, [];
    }

    method Clear()
      modifies this
      ensures Valid() && State() == EMPTY_PIECE && data == null
    {
      data, id, fullPieceSize, blocks := null, -1, 0, [];
    }
  }

  /** Where the new bytes go: the uncovered rest of the range and its place in the block
      list, or an empty block when there is nothing to store. */
  method FindRoom(ghost p: PieceState, blocks: seq<Block>, source: seq<byte>, offset: nat)
    returns (r: AddResult, newBlock: Block, j: nat)
    requires p.Valid() && p.Fits(|source|, offset) && p.data.Some? && p.blocks == blocks && blocks != []
    ensures r.SwallowsNext? || r.Accepted?
    ensures r.SwallowsNext? || newBlock.size == 0 ==> AddSpec(p, p.id, source, offset) == (r, p)
    ensures r.Accepted? && newBlock.size > 0 ==>
              && FitsAt(blocks, newBlock, j, p.size) && offset <= newBlock.offset && newBlock.End() <= offset + |source|
              && AddSpec(p, p.id, source, offset) == (r, AfterCut(p, source, offset, newBlock))
  {
    var whole := Block(offset, |source|);
    newBlock := Block(offset, 0);
    j := UpperBound(blocks, offset, p.size);
    var trim := TrimNeighbours(blocks, whole, j, p.size);
    match trim {
      case RightInSelf =>
        r := SwallowsNext;
      case SelfInRight =>
        AddsNothing(p, p.id, source, offset, j - 1);
        r := Accepted;
      case Trimmed(cut) =>
        r := Accepted;
        if cut.size > 0 {
          newBlock := cut;
          AddsCut(p, p.id, source, offset, j, whole, cut);
        } else if source != [] {
          AddsNothing(p, p.id, source, offset, j - 1);
        } else {
          assert Overlay(p.data.value, blocks, source, offset) == p.data.value;
        }
    }
  }

  /** The buffer after the part of the source that belongs in `cut` has been copied. */
  ghost function CutData(data: seq<byte>, source: seq<byte>, offset: nat, cut: Block): seq<byte>
    requires offset + |source| <= |data| && offset <= cut.offset && cut.End() <= offset + |source|
  {
    data[..cut.offset] + source[cut.offset - offset..cut.End() - offset] + data[cut.End()..]
  }

  ghost function AfterCut(p: PieceState, source: seq<byte>, offset: nat, cut: Block): PieceState
    requires p.Valid() && p.Fits(|source|, offset) && p.data.Some?
    requires offset <= cut.offset && cut.End() <= offset + |source|
  {
    PieceState(Some(CutData(p.data.value, source, offset, cut)), p.id, p.size, Union(p.blocks, cut.offset, cut.End()))
  }

  /** memcpy. */
  method CopyInto(dst: array<byte>, at: nat, source: seq<byte>)
    requires at + |source| <= dst.Length
    modifies dst
    ensures dst[..] == old(dst[..at]) + source + old(dst[at + |source|..])
  {
    forall k | 0 <= k < |source| {
      dst[at + k] := source[k];
    }
  }

  /** Copies the part of the source that belongs in `cut`. */
  method CopyCut(dst: array<byte>, source: seq<byte>, offset: nat, cut: Block)
    requires offset + |source| <= dst.Length && offset <= cut.offset && cut.End() <= offset + |source|
    modifies dst
    ensures dst[..] == CutData(old(dst[..]), source, offset, cut)
  {
    CopyInto(dst, cut.offset, source[cut.offset - offset..cut.End() - offset]);
  }

  /** The first range is stored as it is. */
  lemma AddsFirst(p: PieceState, id: int, source: seq<byte>, offset: nat)
    requires p.Valid() && p.data.Some? && p.Fits(|source|, offset) && p.id == id && p.blocks == []
    ensures AddSpec(p, id, source, offset) ==
            (Accepted, PieceState(Some(p.data.value[..offset] + source + p.data.value[offset + |source|..]), id, p.size,
                                  [Block(offset, |source|)]))
  {
    assert Overlay(p.data.value, [], source, offset)
      == p.data.value[..offset] + source + p.data.value[offset + |source|..];
  }

  /** Bytes inside one stored block are all duplicates. */
  lemma AddsNothing(p: PieceState, id: int, source: seq<byte>, offset: nat, i: nat)
    requires p.Valid() && p.Fits(|source|, offset) && p.data.Some? && p.id == id
    requires i < |p.blocks| && p.blocks[i].offset <= offset && offset + |source| <= p.blocks[i].End()
    requires !Swallows(p.blocks, offset, offset + |source|)
    ensures AddSpec(p, id, source, offset) == (Accepted, p)
  {
    if source != [] {
      UnionInside(p.blocks, i, offset, offset + |source|, p.size);
    }
    forall k | offset <= k < offset + |source| ensures Covered(p.blocks, k) {
      assert InBlock(k, p.blocks[i]);
    }
    assert Overlay(p.data.value, p.blocks, source, offset) == p.data.value;
  }

  /** Copying the trimmed range and taking its union is what add means. */
  lemma AddsCut(p: PieceState, id: int, source: seq<byte>, offset: nat, j: nat, whole: Block, cut: Block)
    requires p.Valid() && p.Fits(|source|, offset) && p.data.Some? && p.id == id && whole == Block(offset, |source|)
    requires !Swallows(p.blocks, offset, offset + |source|) && offset <= cut.offset && cut.End() <= offset + |source|
    requires cut.size > 0 && IsRest(p.blocks, whole, cut)
    requires Reaches(p.blocks, j, offset, offset + |source|) && IsCut(p.blocks, j, whole, cut)
    ensures AddSpec(p, id, source, offset) == (Accepted, AfterCut(p, source, offset, cut))
  {
    var data := CutData(p.data.value, source, offset, cut);
    var blocks := Union(p.blocks, cut.offset, cut.End());
    CutIsOverlay(p.data.value, p.blocks, source, offset, j, whole, cut, data, blocks);
    AddAcceptedAs(p, id, source, offset, data, blocks);
  }

  lemma CutIsOverlay(was: seq<byte>, bs: seq<Block>, source: seq<byte>, offset: nat, j: nat, whole: Block, cut: Block,
                     data: seq<byte>, blocks: seq<Block>)
    requires Normal(bs, |was|) && whole == Block(offset, |source|) && whole.End() <= |was|
    requires offset <= cut.offset && cut.End() <= whole.End() && cut.size > 0 && IsRest(bs, whole, cut)
    requires Reaches(bs, j, offset, offset + |source|) && IsCut(bs, j, whole, cut)
    requires data == CutData(was, source, offset, cut) && blocks == Union(bs, cut.offset, cut.End())
    ensures Overlay(was, bs, source, offset) == data && NewBlocks(bs, offset, offset + |source|) == blocks
  {
    OverlayCut(was, bs, source, offset, whole, cut);
    NewBlocksCut(bs, j, offset, offset + |source|, whole, cut, |was|);
  }

  lemma AddAcceptedAs(p: PieceState, id: int, source: seq<byte>, offset: nat, data: seq<byte>, blocks: seq<Block>)
    requires p.Fits(|source|, offset) && p.data.Some? && p.id == id && !Swallows(p.blocks, offset, offset + |source|)
    requires Overlay(p.data.value, p.blocks, source, offset) == data
    requires NewBlocks(p.blocks, offset, offset + |source|) == blocks
    ensures AddSpec(p, id, source, offset) == (Accepted, PieceState(Some(data), id, p.size, blocks))
  {
  }

  lemma NewBlocksCut(bs: seq<Block>, j: nat, from: nat, to: nat, whole: Block, cut: Block, n: nat)
    requires Normal(bs, n) && Reaches(bs, j, from, to) && whole.offset == from && whole.End() == to
    requires cut.size > 0 && IsCut(bs, j, whole, cut)
    ensures NewBlocks(bs, from, to) == Union(bs, cut.offset, cut.End())
  {
    UnionOfTrimmed(bs, j, whole, cut, n);
  }

  lemma AddAccepted(p: PieceState, id: int, source: seq<byte>, offset: nat)
    requires p.Fits(|source|, offset) && p.data.Some? && p.id == id && !Swallows(p.blocks, offset, offset + |source|)
    ensures AddSpec(p, id, source, offset) ==
            (Accepted, PieceState(Some(Overlay(p.data.value, p.blocks, source, offset)), id, p.size,
                                  NewBlocks(p.blocks, offset, offset + |source|)))
  {
  }

  /** Copying only the uncovered rest of the source is the overlay. */
  lemma OverlayCut(data: seq<byte>, bs: seq<Block>, source: seq<byte>, offset: nat, whole: Block, cut: Block)
    requires offset + |source| <= |data| && offset <= cut.offset && cut.End() <= offset + |source|
    requires whole == Block(offset, |source|) && IsRest(bs, whole, cut)
    ensures Overlay(data, bs, source, offset) == CutData(data, source, offset, cut)
  {
    var r := Overlay(data, bs, source, offset);
    forall k | 0 <= k < |data| ensures r[k] == CutData(data, source, offset, cut)[k] {
      assert InBlock(k, cut) <==> InBlock(k, whole) && !Covered(bs, k);
    }
  }

  lemma NewBlocksNormal(bs: seq<Block>, from: nat, to: nat, n: nat)
    requires Normal(bs, n) && from <= to <= n
    ensures Normal(NewBlocks(bs, from, to), n)
    ensures NoneEmpty(bs) && from < to ==> NoneEmpty(NewBlocks(bs, from, to))
  {
    UnionNormal(bs, from, to, n, 0);
  }
}
