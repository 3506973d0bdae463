/** Wire layout of the peer messages (message_types.hpp): length, id, big-endian fields. */
module Messages {
  import opened Bytes

  const CHOKE: byte := 0
  const UNCHOKE: byte := 1
  const INTERESTED: byte := 2
  const HAVE: byte := 4
  const BITFIELD: byte := 5
  const REQUEST: byte := 6
  const PIECE: byte := 7
  const NUM_OF_TYPES := 10

  const LENGTH_SIZE := 4
  const BASE_SIZE := 5

  /** One complete length-prefixed message with a known id. */
  predicate IsFrame(m: seq<byte>) {
    |m| >= BASE_SIZE && Get32(m) + LENGTH_SIZE == |m| && m[4] < NUM_OF_TYPES
  }

  function BaseMessage(length: nat, id: byte): (m: seq<byte>)
    ensures |m| == BASE_SIZE
  {
    Put32(length) + [id]
  }

  const INTERESTED_MESSAGE: seq<byte> := BaseMessage(1, INTERESTED)

  function RequestMessage(index: nat, offset: nat, blockLength: nat): (m: seq<byte>)
    ensures |m| == 17
  {
    BaseMessage(13, REQUEST) + Put32(index) + Put32(offset) + Put32(blockLength)
  }

  /** A PIECE message as a peer sends it: nine header bytes count towards the length. */
  function PieceMessage(index: nat, offset: nat, data: seq<byte>): (m: seq<byte>)
    ensures |m| == 13 + |data|
  {
    BaseMessage(9 + |data|, PIECE) + Put32(index) + Put32(offset) + data
  }

  /** The 32-bit field that starts at byte `at`. */
  function Field(m: seq<byte>, at: nat): (n: nat)
    requires at + 4 <= |m|
    ensures n < TWO_TO_32
  {
    Get32(m[at..])
  }

  lemma FieldOf(before: seq<byte>, n: nat, after: seq<byte>)
    ensures Field(before + Put32(n) + after, |before|) == n % TWO_TO_32
  {
    assert (before + Put32(n) + after)[|before|..] == Put32(n) + after;
    Get32Put32(n, after);
  }

  /** A request is one frame, and its fields read back as the 32 low bits of what went in. */
  lemma RequestRoundTrip(index: nat, offset: nat, blockLength: nat)
    ensures var m := RequestMessage(index, offset, blockLength);
            && IsFrame(m) && m[4] == REQUEST
            && Field(m, 5) == index % TWO_TO_32
            && Field(m, 9) == offset % TWO_TO_32
            && Field(m, 13) == blockLength % TWO_TO_32
  {
    var m := RequestMessage(index, offset, blockLength);
    var base := BaseMessage(13, REQUEST);
    Get32Put32(13, m[4..]);
    assert m == Put32(13) + m[4..];
    FieldOf(base, index, Put32(offset) + Put32(blockLength));
    assert m == base + Put32(index) + (Put32(offset) + Put32(blockLength));
    FieldOf(base + Put32(index), offset, Put32(blockLength));
    FieldOf(base + Put32(index) + Put32(offset), blockLength, []);
    assert m == base + Put32(index) + Put32(offset) + Put32(blockLength) + [];
  }

  lemma RequestReadsBack(m: seq<byte>, index: nat, offset: nat, blockLength: nat)
    requires m == RequestMessage(index, offset, blockLength)
    requires index < TWO_TO_32 && offset < TWO_TO_32 && blockLength < TWO_TO_32
    ensures m[4] == REQUEST && Field(m, 5) == index && Field(m, 9) == offset && Field(m, 13) == blockLength
  {
    RequestRoundTrip(index, offset, blockLength);
  }

  lemma InterestedIsFrame()
    ensures IsFrame(INTERESTED_MESSAGE) && INTERESTED_MESSAGE[4] == INTERESTED
  {
    Get32Put32(1, [INTERESTED]);
  }

  /** The bytes of a PIECE message before its payload. */
  function PieceHeader(index: nat, offset: nat, length: nat): (m: seq<byte>)
    ensures |m| == 13
  {
    BaseMessage(9 + length, PIECE) + Put32(index) + Put32(offset)
  }

  lemma FieldOfLast(before: seq<byte>, n: nat)
    ensures Field(before + Put32(n), |before|) == n % TWO_TO_32
  {
    FieldOf(before, n, []);
    assert before + Put32(n) + [] == before + Put32(n);
  }

  lemma Get32Front(a: seq<byte>, b: seq<byte>)
    requires |a| >= 5
    ensures Get32(a + b) == Get32(a) && (a + b)[4] == a[4]
  {
  }

  lemma PieceHeaderLength(index: nat, offset: nat, length: nat)
    requires 9 + length < TWO_TO_32
    ensures Get32(PieceHeader(index, offset, length)) == 9 + length && PieceHeader(index, offset, length)[4] == PIECE
  {
    HeaderOf(BaseMessage(9 + length, PIECE), Put32(index), Put32(offset));
    Get32Put32(9 + length, [PIECE]);
  }

  lemma PieceHeaderIndex(index: nat, offset: nat, length: nat)
    requires index < TWO_TO_32
    ensures Field(PieceHeader(index, offset, length), 5) == index
  {
    FieldOf(BaseMessage(9 + length, PIECE), index, Put32(offset));
  }

  lemma PieceHeaderOffset(index: nat, offset: nat, length: nat)
    requires offset < TWO_TO_32
    ensures Field(PieceHeader(index, offset, length), 9) == offset
  {
    FieldOfLast(BaseMessage(9 + length, PIECE) + Put32(index), offset);
  }

  lemma PieceHeaderFields(index: nat, offset: nat, length: nat, m: seq<byte>)
    requires index < TWO_TO_32 && offset < TWO_TO_32 && 9 + length < TWO_TO_32
             && m == PieceHeader(index, offset, length)
    ensures Get32(m) == 9 + length && m[4] == PIECE && Field(m, 5) == index && Field(m, 9) == offset
  {
    PieceHeaderLength(index, offset, length);
    PieceHeaderIndex(index, offset, length);
    PieceHeaderOffset(index, offset, length);
  }

  lemma HeaderOf(base: seq<byte>, a: seq<byte>, b: seq<byte>)
    requires |base| >= 5
    ensures Get32(base + a + b) == Get32(base) && (base + a + b)[4] == base[4]
  {
    Get32Front(base, a);
    Get32Front(base + a, b);
  }

  /** A PIECE message is one frame, and index, offset and payload read back. */
  lemma PieceRoundTrip(index: nat, offset: nat, data: seq<byte>)
    requires index < TWO_TO_32 && offset < TWO_TO_32 && 9 + |data| < TWO_TO_32
    ensures var m := PieceMessage(index, offset, data);
            IsFrame(m) && m[4] == PIECE && Field(m, 5) == index && Field(m, 9) == offset && m[13..] == data
  {
    var header := PieceHeader(index, offset, |data|);
    PieceHeaderFields(index, offset, |data|, header);
    assert PieceMessage(index, offset, data) == header + data;
    assert forall k :: 0 <= k < 13 ==> (header + data)[k] == header[k];
  }
}
