/** How the files of a torrent are laid over its pieces (TorrentFile::fill_piece_offsets). */
module Layouts {
  datatype OffsetInPiece = OffsetInPiece(index: nat, offset: nat)

  datatype FileInfo = FileInfo(size: nat, firstPiece: OffsetInPiece, lastPiece: OffsetInPiece)

  // ----- arithmetic

  lemma DivModUnique(n: int, p: nat, q: int, r: int)
    requires p > 0 && n == q * p + r && 0 <= r < p
    ensures n / p == q && n % p == r
  {
    var d := n / p - q;
    assert n == (n / p) * p + n % p;
    assert d * p == r - n % p;
    var width: int := p;
    assert d >= 1 ==> d * width >= width;
    assert d <= -1 ==> d * width <= -width;
  }

  lemma DivModAdd(a: nat, b: nat, p: nat)
    requires p > 0
    ensures (a + b) / p == a / p + (a % p + b) / p
    ensures (a + b) % p == (a % p + b) % p
  {
    var q, r := (a % p + b) / p, (a % p + b) % p;
    assert a == (a / p) * p + a % p && a % p + b == q * p + r;
    assert (a / p + q) * p == (a / p) * p + q * p;
    DivModUnique(a + b, p, a / p + q, r);
  }

  lemma DivTimes(n: nat, p: nat, d: nat)
    requires p > 0
    ensures (n / p + d) * p + n % p == n + d * p
  {
    assert (n / p + d) * p == (n / p) * p + d * p;
  }

  // ----- the closed form

  /** Bytes of the first i files. */
  function BytesBefore(sizes: seq<nat>, i: nat): nat
    requires i <= |sizes|
  {
    if i == 0 then 0 else BytesBefore(sizes, i - 1) + sizes[i - 1]
  }

  /** File i ends exactly on a piece boundary. */
  predicate EndsAligned(sizes: seq<nat>, p: nat, i: nat)
    requires i < |sizes| && p > 0
  {
    BytesBefore(sizes, i + 1) % p == 0
  }

  /** How many of the first i files end on a piece boundary. */
  function AlignedBefore(sizes: seq<nat>, p: nat, i: nat): nat
    requires i <= |sizes| && p > 0
  {
    if i == 0 then 0 else AlignedBefore(sizes, p, i - 1) + if EndsAligned(sizes, p, i - 1) then 1 else 0
  }

  function Info(sizes: seq<nat>, p: nat, i: nat): FileInfo
    requires i < |sizes| && p > 0
  {
    var first, end, drift := BytesBefore(sizes, i), BytesBefore(sizes, i + 1), AlignedBefore(sizes, p, i);
    FileInfo(sizes[i], OffsetInPiece(first / p + drift, first % p),
             OffsetInPiece(end / p + drift, if end % p == 0 then p else end % p))
  }

  function Layout(sizes: seq<nat>, p: nat): (r: seq<FileInfo>)
    requires p > 0
    ensures |r| == |sizes|
  {
    seq(|sizes|, i requires 0 <= i < |sizes| => Info(sizes, p, i))
  }

  /** One turn of the loop, from where file i starts to where it stops. */
  lemma OneFile(sizes: seq<nat>, p: nat, i: nat)
    requires i < |sizes| && p > 0
    ensures var start, drift := BytesBefore(sizes, i), AlignedBefore(sizes, p, i);
            var end, offset := start + sizes[i], start % p + sizes[i];
            && end == BytesBefore(sizes, i + 1) && offset % p == end % p
            && start / p + drift + offset / p == end / p + drift
  {
    DivModAdd(BytesBefore(sizes, i), sizes[i], p);
  }

  /** The running piece number and offset before file i. */
  ghost predicate AtFile(sizes: seq<nat>, p: nat, i: nat, pieceIndex: nat, offset: nat)
    requires i <= |sizes| && p > 0
  {
    && offset == BytesBefore(sizes, i) % p
    && pieceIndex == BytesBefore(sizes, i) / p + AlignedBefore(sizes, p, i)
  }

  /** One turn of the loop: the positions of file i, and where the next file starts. */
  method PlaceFile(p: nat, size: nat, pieceIndex: nat, offset: nat, ghost sizes: seq<nat>, ghost i: nat)
    returns (info: FileInfo, nextIndex: nat, nextOffset: nat)
    requires p > 0 && i < |sizes| && size == sizes[i] && AtFile(sizes, p, i, pieceIndex, offset)
    ensures info == Info(sizes, p, i) && AtFile(sizes, p, i + 1, nextIndex, nextOffset)
  {
    OneFile(sizes, p, i);
    var end := offset + size;
    nextIndex := pieceIndex + end / p;
    nextOffset := end % p;
    var last := OffsetInPiece(nextIndex, if nextOffset == 0 then p else nextOffset);
    info := FileInfo(size, OffsetInPiece(pieceIndex, offset), last);
    if nextOffset == 0 {
      nextIndex := nextIndex + 1;
    }
  }

  class TorrentFile {
    const pieceSize: nat
    const numberOfPieces: nat
    var files: seq<FileInfo>
    var fullSize: nat
    var lastPieceSize: nat

    constructor (pieceSize: nat, numberOfPieces: nat, files: seq<FileInfo>)
      ensures this.pieceSize == pieceSize && this.numberOfPieces == numberOfPieces && this.files == files
      ensures fullSize == 0 && lastPieceSize == 0
    {
      this.pieceSize, this.numberOfPieces, this.files := pieceSize, numberOfPieces, files;
      fullSize, lastPieceSize := 0, 0;
    }

    ghost function Sizes(): seq<nat>
      reads this
    {
      seq(|files|, i requires 0 <= i < |files| reads this => files[i].size)
    }

    /** Fills in the first and last piece of every file; fails if the torrent lists no pieces. */
    method FillPieceOffsets() returns (ok: bool)
      requires pieceSize > 0 && fullSize == 0
      modifies this
      ensures files == Layout(old(Sizes()), pieceSize)
      ensures fullSize == BytesBefore(old(Sizes()), |files|)
      ensures ok <==> numberOfPieces > 0
      ensures lastPieceSize == if ok then fullSize % pieceSize else old(lastPieceSize)
    {
      ghost var sizes, before := Sizes(), files;
      ghost var goal := Layout(sizes, pieceSize);
      var offset, pieceIndex, i := 0, 0, 0;
      while i < |files|
        invariant i <= |files| == |sizes| && lastPieceSize == old(lastPieceSize)
        invariant |goal| == |files| && fullSize == BytesBefore(sizes, i)
        invariant AtFile(sizes, pieceSize, i, pieceIndex, offset)
        invariant files[..i] == goal[..i] && files[i..] == before[i..]
      {
        fullSize := fullSize + files[i].size;
        var info;
        assert files[i] == before[i..][0];
        info, pieceIndex, offset := PlaceFile(pieceSize, files[i].size, pieceIndex, offset, sizes, i);
        files := files[i := info];
        i := i + 1;
      }
      if numberOfPieces == 0 {
        return false;
      }
      lastPieceSize := fullSize % pieceSize;
      return true;
    }
  }

  // ----- what the closed form implies

  lemma {:induction false} BytesGrow(sizes: seq<nat>, i: nat, j: nat)
    requires i <= j <= |sizes|
    ensures BytesBefore(sizes, i) <= BytesBefore(sizes, j)
  {
    if i < j { BytesGrow(sizes, i, j - 1); }
  }

  /** Where a position lies along the piece numbers the code assigns. */
  function Along(at: OffsetInPiece, p: nat): nat { at.index * p + at.offset }

  /** A file starts at the bytes before it, plus one piece length for every earlier file that
      stops on a piece boundary. */
  lemma StartPosition(sizes: seq<nat>, p: nat, i: nat)
    requires i < |sizes| && p > 0
    ensures Along(Info(sizes, p, i).firstPiece, p) == BytesBefore(sizes, i) + AlignedBefore(sizes, p, i) * p
  {
    DivTimes(BytesBefore(sizes, i), p, AlignedBefore(sizes, p, i));
  }

  /** It ends its own size later, plus one more piece length if it stops on a boundary. */
  lemma EndPosition(sizes: seq<nat>, p: nat, i: nat)
    requires i < |sizes| && p > 0
    ensures var f := Info(sizes, p, i);
            Along(f.lastPiece, p) == Along(f.firstPiece, p) + f.size + if EndsAligned(sizes, p, i) then p else 0
  {
    StartPosition(sizes, p, i);
    DivTimes(BytesBefore(sizes, i + 1), p, AlignedBefore(sizes, p, i));
  }

  /** File g follows file f: in the same piece at the offset where f stops, or at the start
      of the next piece when f fills its last one. */
  predicate Follows(f: FileInfo, g: FileInfo, p: nat) {
    if f.lastPiece.offset == p then
      g.firstPiece == OffsetInPiece(f.lastPiece.index + 1, 0)
    else
      g.firstPiece == f.lastPiece
  }

  predicate Sound(f: FileInfo, p: nat) {
    && f.firstPiece.index <= f.lastPiece.index
    && f.firstPiece.offset < p && 0 < f.lastPiece.offset <= p
    && (f.firstPiece.index == f.lastPiece.index ==> f.firstPiece.offset <= f.lastPiece.offset)
  }

  /** The piece ranges of consecutive files leave no gap. */
  ghost predicate Chained(fs: seq<FileInfo>, p: nat) {
    && fs != [] && p > 0 && fs[0].firstPiece == OffsetInPiece(0, 0)
    && (forall i :: 0 <= i < |fs| ==> Sound(fs[i], p))
    && (forall i, j :: 0 <= i && j == i + 1 && j < |fs| ==> Follows(fs[i], fs[j], p))
  }

  lemma InfoSound(sizes: seq<nat>, p: nat, i: nat)
    requires i < |sizes| && p > 0
    ensures Sound(Info(sizes, p, i), p)
  {
    var a, b := BytesBefore(sizes, i), sizes[i];
    DivModAdd(a, b, p);
    assert b >= 0 && (a % p + b) / p >= 0 by { DivNonNegative(a % p + b, p); }
    if (a % p + b) / p == 0 {
      assert a % p + b == ((a % p + b) / p) * p + (a % p + b) % p;
    }
  }

  lemma DivNonNegative(n: nat, p: nat)
    requires p > 0
    ensures n / p >= 0
  {
  }

  lemma LayoutChained(sizes: seq<nat>, p: nat)
    requires sizes != [] && p > 0
    ensures Chained(Layout(sizes, p), p)
  {
    var fs := Layout(sizes, p);
    DivModUnique(0, p, 0, 0);
    forall i | 0 <= i < |fs| ensures Sound(fs[i], p) {
      InfoSound(sizes, p, i);
    }
    forall i, j | 0 <= i && j == i + 1 && j < |fs| ensures Follows(fs[i], fs[j], p) {
      assert fs[i] == Info(sizes, p, i) && fs[j] == Info(sizes, p, j);
    }
  }
}
