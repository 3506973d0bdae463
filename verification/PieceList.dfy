/** The shared allocator of piece numbers (piece_list.cpp). */
module PieceLists {
  /** The allocator as a value. The list of returned pieces may hold -1. */
  datatype Pool = Pool(maxPiece: nat, lastSize: nat, pieceSize: nat, next: nat, returned: seq<int>)
  {
    function SizeOf(index: int): nat {
      if index == maxPiece then lastSize else pieceSize
    }
  }

  datatype Drawn = Drawn(size: nat, index: int, pool: Pool)

  /** get_piece: a returned piece first, in the order they came back; then a new one. */
  function Draw(pool: Pool): Drawn {
    if pool.returned != [] then
      Drawn(pool.SizeOf(pool.returned[0]), pool.returned[0], pool.(returned := pool.returned[1..]))
    else if pool.next <= pool.maxPiece then
      Drawn(pool.SizeOf(pool.next), pool.next, pool.(next := pool.next + 1))
    else
      Drawn(0, -1, pool)
  }

  function Return(pool: Pool, index: int): Pool {
    pool.(returned := pool.returned + [index])
  }

  /** The numbers n draws in a row give out. */
  function Draws(pool: Pool, n: nat): seq<int>
    decreases n
  {
    if n == 0 then [] else [Draw(pool).index] + Draws(Draw(pool).pool, n - 1)
  }

  /** Returned pieces come back first, in the order they were returned; then new ones follow
      in ascending order up to the last; after that there is nothing. */
  lemma {:induction false} DrawOrder(pool: Pool, n: nat, k: nat)
    requires k < n
    ensures |Draws(pool, n)| == n
    ensures var unused := pool.next + k - |pool.returned|;
            Draws(pool, n)[k] == if k < |pool.returned| then pool.returned[k]
                                 else if unused <= pool.maxPiece then unused else -1
    decreases n
  {
    if k > 0 {
      DrawOrder(Draw(pool).pool, n - 1, k - 1);
    } else if n > 1 {
      DrawOrder(Draw(pool).pool, n - 1, 0);
    }
  }

  class PieceList {
    const maxPieceNum: nat
    const lastPieceSize: nat
    const pieceSize: nat
    var nextPiece: nat
    var returnedPieces: seq<int>

    ghost function State(): Pool
      reads this
    {
      Pool(maxPieceNum, lastPieceSize, pieceSize, nextPiece, returnedPieces)
    }

    constructor (numberOfPieces: nat, lastPieceSize: nat, pieceSize: nat)
      requires numberOfPieces > 0
      ensures State() == Pool(numberOfPieces - 1, lastPieceSize, pieceSize, 0, [])
    {
      this.maxPieceNum, this.lastPieceSize, this.pieceSize := numberOfPieces - 1, lastPieceSize, pieceSize;
      nextPiece, returnedPieces := 0, [];
    }

    method GetPiece() returns (size: nat, pieceIndex: int)
      modifies this
      ensures Drawn(size, pieceIndex, State()) == Draw(old(State()))
    {
      pieceIndex := -1;
      if returnedPieces != [] {
        pieceIndex := returnedPieces[0];
        returnedPieces := returnedPieces[1..];
        return if pieceIndex == maxPieceNum then lastPieceSize else pieceSize, pieceIndex;
      }
      if nextPiece <= maxPieceNum {
        pieceIndex := nextPiece;
        nextPiece := nextPiece + 1;
        return if pieceIndex == maxPieceNum then lastPieceSize else pieceSize, pieceIndex;
      }
      return 0, pieceIndex;
    }

    method ReturnPiece(piece: int)
      modifies this
      ensures State() == Return(old(State()), piece)
    {
      returnedPieces := returnedPieces + [piece];
    }
  }
}
