/** What the layout and the writes amount to: tiling, sizes, order, and misplacement. */
module Placement {
  import opened Bytes
  import opened Layouts
  import opened FileSets

  /** The length a piece must have: full, except that the last one ends where the last file
      ends. */
  function PieceLength(fs: seq<FileInfo>, p: nat, id: nat): nat
    requires fs != []
  {
    if id == fs[|fs| - 1].lastPiece.index then fs[|fs| - 1].lastPiece.offset else p
  }

  // ----- every piece is cut up completely

  /** The files a, ..., b - 1 are exactly those that contain the piece, and their slices are
      consecutive and cover bytes 0 to n - 1 of it. */
  ghost predicate Tiles(fs: seq<FileInfo>, id: nat, n: nat, a: nat, b: nat) {
    && a < b <= |fs|
    && (forall i :: 0 <= i < |fs| ==> (Contains(fs[i], id) <==> a <= i < b))
    && SliceStart(fs[a], id) == 0 && SliceEnd(fs[b - 1], id, n) == n
    && (forall i, j :: a <= i && j == i + 1 && j < b ==> SliceEnd(fs[i], id, n) == SliceStart(fs[j], id))
    && (forall i :: a <= i < b ==> SliceFits(fs[i], id, n))
  }

  /** First file that ends in the piece or later. */
  lemma {:induction false} FirstReaching(fs: seq<FileInfo>, id: nat, k: nat) returns (a: nat)
    requires k < |fs| && id <= fs[k].lastPiece.index
    ensures a <= k && id <= fs[a].lastPiece.index && forall i :: 0 <= i < a ==> fs[i].lastPiece.index < id
    decreases k
  {
    if i :| 0 <= i < k && id <= fs[i].lastPiece.index {
      a := FirstReaching(fs, id, i);
    } else {
      a := k;
    }
  }

  /** One past the last file that starts in the piece or earlier. */
  lemma {:induction false} LastStarting(fs: seq<FileInfo>, id: nat, k: nat) returns (b: nat)
    requires k < |fs| && fs[k].firstPiece.index <= id
    ensures k < b <= |fs| && fs[b - 1].firstPiece.index <= id
    ensures forall i :: b <= i < |fs| ==> fs[i].firstPiece.index > id
    decreases |fs| - k
  {
    if i :| k < i < |fs| && fs[i].firstPiece.index <= id {
      b := LastStarting(fs, id, i);
    } else {
      b := k + 1;
    }
  }

  /** The first file that reaches the piece starts in it or before it, at byte 0 of it. */
  lemma StartsAtZero(fs: seq<FileInfo>, p: nat, id: nat, a: nat)
    requires Chained(fs, p) && a < |fs| && id <= fs[a].lastPiece.index
    requires forall i :: 0 <= i < a ==> fs[i].lastPiece.index < id
    ensures fs[a].firstPiece.index <= id && SliceStart(fs[a], id) == 0
  {
    if a > 0 {
      assert Follows(fs[a - 1], fs[a], p) && Sound(fs[a - 1], p);
    }
  }

  lemma SlicesMeet(fs: seq<FileInfo>, p: nat, id: nat, n: nat, i: nat)
    requires Chained(fs, p) && i + 1 < |fs| && Contains(fs[i], id) && Contains(fs[i + 1], id)
    ensures fs[i].lastPiece.index == id && SliceEnd(fs[i], id, n) == SliceStart(fs[i + 1], id)
  {
    assert Follows(fs[i], fs[i + 1], p);
  }

  lemma LastSliceEnds(fs: seq<FileInfo>, p: nat, id: nat, b: nat)
    requires Chained(fs, p) && 0 < b <= |fs| && Contains(fs[b - 1], id)
    requires forall i :: b <= i < |fs| ==> fs[i].firstPiece.index > id
    ensures SliceEnd(fs[b - 1], id, PieceLength(fs, p, id)) == PieceLength(fs, p, id)
  {
    if b < |fs| {
      assert Follows(fs[b - 1], fs[b], p);
      if b < |fs| - 1 { InOrder(fs, p, b, |fs| - 1); }
      assert Sound(fs[|fs| - 1], p) && Sound(fs[b], p);
    }
  }

  lemma ContainedSliceFits(fs: seq<FileInfo>, p: nat, id: nat, i: nat)
    requires Chained(fs, p) && i < |fs| && Contains(fs[i], id)
    ensures SliceFits(fs[i], id, PieceLength(fs, p, id))
  {
    assert Sound(fs[i], p);
    if i < |fs| - 1 {
      InOrder(fs, p, i, |fs| - 1);
    }
    assert Sound(fs[|fs| - 1], p);
    if fs[i].lastPiece.index == fs[|fs| - 1].lastPiece.index {
      SameEnd(fs, p, i);
    }
  }

  /** A file whose last piece is the last piece of all ends no later in it than the last file,
      and starts no later than its end. */
  lemma {:induction false} SameEnd(fs: seq<FileInfo>, p: nat, i: nat)
    requires Chained(fs, p) && i < |fs| && fs[i].lastPiece.index == fs[|fs| - 1].lastPiece.index
    ensures fs[i].lastPiece.offset <= fs[|fs| - 1].lastPiece.offset
    decreases |fs| - i
  {
    if i < |fs| - 1 {
      assert Follows(fs[i], fs[i + 1], p) && Sound(fs[i + 1], p);
      if i + 1 < |fs| - 1 { InOrder(fs, p, i + 1, |fs| - 1); }
      assert Sound(fs[|fs| - 1], p);
      SameEnd(fs, p, i + 1);
    }
  }

  /** Given a piece of its proper length, the slices its files take tile it. */
  lemma SlicesTile(fs: seq<FileInfo>, p: nat, id: nat) returns (a: nat, b: nat)
    requires Chained(fs, p) && id <= fs[|fs| - 1].lastPiece.index
    ensures Tiles(fs, id, PieceLength(fs, p, id), a, b)
  {
    var n := PieceLength(fs, p, id);
    a := FirstReaching(fs, id, |fs| - 1);
    StartsAtZero(fs, p, id, a);
    b := LastStarting(fs, id, a);
    forall i | 0 <= i < |fs| ensures Contains(fs[i], id) <==> a <= i < b {
      if a < i < b {
        InOrder(fs, p, a, i);
        if i < b - 1 { InOrder(fs, p, i, b - 1); }
        assert Sound(fs[i], p);
      }
    }
    LastSliceEnds(fs, p, id, b);
    forall i, j | a <= i && j == i + 1 && j < b ensures SliceEnd(fs[i], id, n) == SliceStart(fs[j], id) {
      SlicesMeet(fs, p, id, n, i);
    }
    forall i | a <= i < b ensures SliceFits(fs[i], id, n) {
      ContainedSliceFits(fs, p, id, i);
    }
  }

  // ----- how much a file takes

  /** Bytes the file takes from pieces id, ..., last, when each but the last is full. */
  function TakenFrom(f: FileInfo, p: nat, id: nat): int
    requires id <= f.lastPiece.index
    decreases f.lastPiece.index - id
  {
    SliceEnd(f, id, p) - SliceStart(f, id) + if id == f.lastPiece.index then 0 else TakenFrom(f, p, id + 1)
  }

  lemma {:induction false} TakenFromLater(f: FileInfo, p: nat, id: nat)
    requires f.firstPiece.index < id <= f.lastPiece.index
    ensures TakenFrom(f, p, id) == (f.lastPiece.index - id) * p + f.lastPiece.offset
    decreases f.lastPiece.index - id
  {
    if id < f.lastPiece.index {
      TakenFromLater(f, p, id + 1);
      assert (f.lastPiece.index - id) * p == (f.lastPiece.index - (id + 1)) * p + p;
    }
  }

  lemma TakenInAll(f: FileInfo, p: nat)
    requires Sound(f, p)
    ensures TakenFrom(f, p, f.firstPiece.index) == Along(f.lastPiece, p) - Along(f.firstPiece, p)
  {
    var a, b := f.firstPiece.index, f.lastPiece.index;
    if a < b {
      TakenFromLater(f, p, a + 1);
      TimesApart(a, b, p);
    }
  }

  lemma TimesApart(a: nat, b: nat, p: nat)
    requires a < b
    ensures b * p - a * p == (b - (a + 1)) * p + p
  {
    assert b * p == a * p + (b - a) * p;
  }

  /** The slices of a file add up to its size exactly when it does not end on a piece
      boundary; otherwise it takes one whole piece too many. */
  lemma TakenIsSize(sizes: seq<nat>, p: nat, i: nat)
    requires i < |sizes| && p > 0
    ensures var f := Info(sizes, p, i);
            && f.firstPiece.index <= f.lastPiece.index
            && TakenFrom(f, p, f.firstPiece.index) == sizes[i] + (if EndsAligned(sizes, p, i) then p else 0)
            && (TakenFrom(f, p, f.firstPiece.index) == sizes[i] <==> !EndsAligned(sizes, p, i))
  {
    InfoSound(sizes, p, i);
    TakenInAll(Info(sizes, p, i), p);
    EndPosition(sizes, p, i);
  }

  // ----- where the slices land

  /** By how much a slice is written past its place. The place of byte k of piece id in file i
      is id * p + k bytes into the torrent, less the bytes before the file. */
  lemma Misplacement(sizes: seq<nat>, p: nat, i: nat, id: nat)
    requires i < |sizes| && p > 0 && Contains(Info(sizes, p, i), id)
    ensures Sound(Info(sizes, p, i), p)
    ensures var f, drift := Info(sizes, p, i), AlignedBefore(sizes, p, i);
            FilePosition(f, p, id) - (id * p + SliceStart(f, id) - BytesBefore(sizes, i))
            == if id == f.firstPiece.index then -(drift * p) else p - drift * p
  {
    InfoSound(sizes, p, i);
    StartPosition(sizes, p, i);
    var f := Info(sizes, p, i);
    PositionOf(f, p, id, BytesBefore(sizes, i), AlignedBefore(sizes, p, i) * p);
  }

  lemma PositionOf(f: FileInfo, p: nat, id: nat, start: int, drift: int)
    requires Contains(f, id) && Along(f.firstPiece, p) == start + drift
    ensures FilePosition(f, p, id) - (id * p + SliceStart(f, id) - start)
         == if id == f.firstPiece.index then -drift else p - drift
  {
    TimesSplit(f.firstPiece.index, id, p);
  }

  lemma TimesSplit(a: nat, b: nat, p: nat)
    requires a <= b
    ensures b * p == a * p + (b - a) * p
  {
  }

  lemma TimesIs(d: nat, p: nat)
    requires p > 0
    ensures d * p == 0 <==> d == 0
    ensures d * p == p <==> d == 1
  {
    if d >= 2 {
      assert d * p == p + (d - 1) * p;
      assert (d - 1) * p >= p;
    }
  }

  /** A slice lands in its place exactly when it is a file's first and no earlier file ended
      on a piece boundary, or is not its first and exactly one did. */
  lemma WellPlacedIff(sizes: seq<nat>, p: nat, i: nat, id: nat)
    requires i < |sizes| && p > 0 && Contains(Info(sizes, p, i), id)
    ensures Sound(Info(sizes, p, i), p)
    ensures var f := Info(sizes, p, i);
            FilePosition(f, p, id) == id * p + SliceStart(f, id) - BytesBefore(sizes, i) <==>
            AlignedBefore(sizes, p, i) == if id == f.firstPiece.index then 0 else 1
  {
    Misplacement(sizes, p, i, id);
    TimesIs(AlignedBefore(sizes, p, i), p);
  }

  // ----- the order of writes

  datatype Write = Write(id: nat, source: seq<byte>)

  /** Writes a file can receive: distinct pieces, none longer than the piece length. */
  ghost predicate Distinct(f: FileInfo, p: nat, ws: seq<Write>) {
    && Sound(f, p)
    && (forall i :: 0 <= i < |ws| ==>
      |ws[i].source| <= p && (Contains(f, ws[i].id) ==> SliceFits(f, ws[i].id, |ws[i].source|)))
    && (forall i, j :: 0 <= i < j < |ws| ==> ws[i].id != ws[j].id)
  }

  /** The contents after the writes, in order. */
  function Replay(f: FileInfo, p: nat, contents: map<int, byte>, ws: seq<Write>): map<int, byte>
    requires Sound(f, p)
    requires forall i :: 0 <= i < |ws| ==> (Contains(f, ws[i].id) ==> SliceFits(f, ws[i].id, |ws[i].source|))
  {
    if ws == [] then contents
    else
      var last := ws[|ws| - 1];
      Replay(f, p, contents, ws[..|ws| - 1]) + Stored(f, p, last.id, last.source)
  }

  /** Different pieces go to disjoint parts of the file. */
  lemma StoredDisjoint(f: FileInfo, p: nat, v: Write, w: Write, pos: int)
    requires Sound(f, p) && v.id != w.id && |v.source| <= p && |w.source| <= p
    requires Contains(f, v.id) ==> SliceFits(f, v.id, |v.source|)
    requires Contains(f, w.id) ==> SliceFits(f, w.id, |w.source|)
    ensures !(pos in Stored(f, p, v.id, v.source) && pos in Stored(f, p, w.id, w.source))
  {
    if v.id < w.id {
      StoredBefore(f, p, v, w, pos);
    } else {
      StoredBefore(f, p, w, v, pos);
    }
  }

  lemma StoredBefore(f: FileInfo, p: nat, v: Write, w: Write, pos: int)
    requires Sound(f, p) && v.id < w.id && |v.source| <= p
    requires Contains(f, v.id) ==> SliceFits(f, v.id, |v.source|)
    requires Contains(f, w.id) ==> SliceFits(f, w.id, |w.source|)
    ensures !(pos in Stored(f, p, v.id, v.source) && pos in Stored(f, p, w.id, w.source))
  {
    if Contains(f, v.id) && Contains(f, w.id) {
      var a, b, c := f.firstPiece.index, v.id - f.firstPiece.index, w.id - f.firstPiece.index;
      assert c >= b + 1 ==> c * p >= (b + 1) * p;
      assert (b + 1) * p == b * p + p;
      assert FilePosition(f, p, v.id) + SliceEnd(f, v.id, |v.source|) - SliceStart(f, v.id) <= FilePosition(f, p, w.id);
    }
  }

  /** Position by position, the write that covers it decides, wherever it comes in the order. */
  lemma {:induction false} ReplayHit(f: FileInfo, p: nat, contents: map<int, byte>, ws: seq<Write>, i: nat, pos: int)
    requires Distinct(f, p, ws) && i < |ws| && pos in Stored(f, p, ws[i].id, ws[i].source)
    ensures pos in Replay(f, p, contents, ws)
    ensures Replay(f, p, contents, ws)[pos] == Stored(f, p, ws[i].id, ws[i].source)[pos]
  {
    var m := |ws| - 1;
    if i < m {
      ReplayHit(f, p, contents, ws[..m], i, pos);
      StoredDisjoint(f, p, ws[i], ws[m], pos);
    }
  }

  /** A position no write covers keeps what it had. */
  lemma {:induction false} ReplayMiss(f: FileInfo, p: nat, contents: map<int, byte>, ws: seq<Write>, pos: int)
    requires Distinct(f, p, ws)
    requires forall i :: 0 <= i < |ws| ==> pos !in Stored(f, p, ws[i].id, ws[i].source)
    ensures pos in Replay(f, p, contents, ws) <==> pos in contents
    ensures pos in contents ==> Replay(f, p, contents, ws)[pos] == contents[pos]
  {
    if ws != [] {
      ReplayMiss(f, p, contents, ws[..|ws| - 1], pos);
    }
  }

  /** Writing the same distinct pieces in any order leaves the same file. */
  lemma OrderIrrelevant(f: FileInfo, p: nat, contents: map<int, byte>, ws: seq<Write>, vs: seq<Write>)
    requires Distinct(f, p, ws) && Distinct(f, p, vs) && multiset(ws) == multiset(vs)
    ensures Replay(f, p, contents, ws) == Replay(f, p, contents, vs)
  {
    var a, b := Replay(f, p, contents, ws), Replay(f, p, contents, vs);
    forall pos ensures (pos in a <==> pos in b) && (pos in a ==> a[pos] == b[pos]) {
      SamePosition(f, p, contents, ws, vs, pos);
    }
  }

  lemma SamePosition(f: FileInfo, p: nat, contents: map<int, byte>, ws: seq<Write>, vs: seq<Write>, pos: int)
    requires Distinct(f, p, ws) && Distinct(f, p, vs) && multiset(ws) == multiset(vs)
    ensures var a, b := Replay(f, p, contents, ws), Replay(f, p, contents, vs);
            (pos in a <==> pos in b) && (pos in a ==> a[pos] == b[pos])
  {
    if i :| 0 <= i < |ws| && pos in Stored(f, p, ws[i].id, ws[i].source) {
      assert ws[i] in multiset(vs);
      var j :| 0 <= j < |vs| && vs[j] == ws[i];
      ReplayHit(f, p, contents, ws, i, pos);
      ReplayHit(f, p, contents, vs, j, pos);
    } else {
      forall j | 0 <= j < |vs| ensures pos !in Stored(f, p, vs[j].id, vs[j].source) {
        assert vs[j] in multiset(ws);
        var i :| 0 <= i < |ws| && ws[i] == vs[j];
      }
      ReplayMiss(f, p, contents, ws, pos);
      ReplayMiss(f, p, contents, vs, pos);
    }
  }

  // ----- a finished file

  /** Piece `id` of a torrent with these contents. */
  function PieceOf(stream: seq<byte>, p: nat, id: nat): seq<byte>
    requires id * p <= |stream|
  {
    if id * p + p <= |stream| then stream[id * p..id * p + p] else stream[id * p..]
  }

  /** The writes are pieces of the torrent, and all the pieces of the file are among them. */
  ghost predicate Supplies(f: FileInfo, p: nat, stream: seq<byte>, ws: seq<Write>) {
    && Distinct(f, p, ws)
    && (forall k :: 0 <= k < |ws| ==> ws[k].id * p <= |stream| && ws[k].source == PieceOf(stream, p, ws[k].id))
    && (forall id :: Contains(f, id) ==> exists k :: 0 <= k < |ws| && ws[k].id == id)
  }

  /** The bytes of the torrent that stand where the layout puts file i: its own, but d piece
      lengths later when d earlier files end on a piece boundary. */
  ghost predicate SameAfterDrift(sizes: seq<nat>, p: nat, i: nat, stream: seq<byte>)
    requires i < |sizes| && p > 0 && BytesBefore(sizes, i + 1) <= |stream|
  {
    var start, end, drift := BytesBefore(sizes, i), BytesBefore(sizes, i + 1), AlignedBefore(sizes, p, i) * p;
    && end + drift <= |stream|
    && stream[start + drift..end + drift] == stream[start..end]
  }

  /** The slice of a file inside one piece: bytes of the torrent as long as the file, from
      `drift` bytes behind its start. */
  lemma OneSlice(sizes: seq<nat>, p: nat, i: nat, stream: seq<byte>, start: nat, end: nat, drift: nat)
    requires i < |sizes| && p > 0 && !EndsAligned(sizes, p, i)
    requires start == BytesBefore(sizes, i) && end == start + sizes[i] && drift == AlignedBefore(sizes, p, i) * p
    requires Info(sizes, p, i).firstPiece.index == Info(sizes, p, i).lastPiece.index
    requires Info(sizes, p, i).firstPiece.index * p <= |stream|
    requires Info(sizes, p, i).lastPiece.offset <= |PieceOf(stream, p, Info(sizes, p, i).firstPiece.index)|
    ensures var f := Info(sizes, p, i);
            var a, b := f.firstPiece.offset, f.lastPiece.offset;
            && a <= b && end + drift <= |stream|
            && PieceOf(stream, p, f.firstPiece.index)[a..b] == stream[start + drift..end + drift]
  {
    InfoSound(sizes, p, i);
    StartPosition(sizes, p, i);
    EndPosition(sizes, p, i);
    SliceOfPiece(Info(sizes, p, i), p, stream, start + drift, end + drift);
  }

  lemma SliceOfPiece(f: FileInfo, p: nat, stream: seq<byte>, start: nat, end: nat)
    requires Sound(f, p) && f.firstPiece.index == f.lastPiece.index && f.firstPiece.index * p <= |stream|
    requires f.firstPiece.index * p + f.firstPiece.offset == start
    requires f.firstPiece.index * p + f.lastPiece.offset == end
    requires f.lastPiece.offset <= |PieceOf(stream, p, f.firstPiece.index)|
    ensures start <= end <= |stream|
    ensures PieceOf(stream, p, f.firstPiece.index)[f.firstPiece.offset..f.lastPiece.offset] == stream[start..end]
  {
    var base := f.firstPiece.index * p;
    var piece := PieceOf(stream, p, f.firstPiece.index);
    SliceOfSlice(stream, base, base + |piece|, f.firstPiece.offset, f.lastPiece.offset);
  }

  lemma SliceOfSlice<T>(s: seq<T>, lo: nat, hi: nat, from: nat, to: nat)
    requires lo <= hi <= |s| && from <= to <= hi - lo
    ensures s[lo..hi][from..to] == s[lo + from..lo + to]
  {
    var mid := s[lo..hi];
    forall k | 0 <= k < to - from ensures mid[from..to][k] == s[lo + from..lo + to][k] {
      assert mid[from + k] == s[lo + (from + k)];
    }
  }

  /** When only one of the writes is for the file, it alone decides the contents. */
  lemma ReplayOne(f: FileInfo, p: nat, ws: seq<Write>, k: nat)
    requires Distinct(f, p, ws) && k < |ws|
    requires f.firstPiece.index == f.lastPiece.index == ws[k].id
    ensures Replay(f, p, map[], ws) == Stored(f, p, ws[k].id, ws[k].source)
  {
    var wanted := Stored(f, p, ws[k].id, ws[k].source);
    forall pos ensures (pos in Replay(f, p, map[], ws) <==> pos in wanted)
                       && (pos in wanted ==> Replay(f, p, map[], ws)[pos] == wanted[pos]) {
      if pos in wanted {
        ReplayHit(f, p, map[], ws, k, pos);
      } else {
        ReplayMiss(f, p, map[], ws, pos);
      }
    }
  }

  lemma SuppliedWrite(f: FileInfo, p: nat, stream: seq<byte>, ws: seq<Write>, id: nat) returns (k: nat)
    requires Supplies(f, p, stream, ws) && Contains(f, id)
    ensures k < |ws| && ws[k].id == id && SliceFits(f, id, |ws[k].source|)
    ensures id * p <= |stream| && ws[k].source == PieceOf(stream, p, id)
  {
    k :| 0 <= k < |ws| && ws[k].id == id;
  }

  /** A file inside one piece gets its own number of bytes, from where the layout puts it. */
  lemma OnePieceHolds(sizes: seq<nat>, p: nat, i: nat, stream: seq<byte>, ws: seq<Write>, start: nat, end: nat,
                      drift: nat)
    requires i < |sizes| && p > 0 && !EndsAligned(sizes, p, i)
    requires start == BytesBefore(sizes, i) && end == start + sizes[i] && drift == AlignedBefore(sizes, p, i) * p
    requires Supplies(Info(sizes, p, i), p, stream, ws)
    requires Info(sizes, p, i).firstPiece.index == Info(sizes, p, i).lastPiece.index
    ensures end + drift <= |stream|
    ensures Replay(Info(sizes, p, i), p, map[], ws) == Extent(0, stream[start + drift..end + drift])
  {
    var f := Info(sizes, p, i);
    var k := SuppliedWrite(f, p, stream, ws, f.firstPiece.index);
    OneSlice(sizes, p, i, stream, start, end, drift);
    ReplayOne(f, p, ws, k);
  }

  lemma NotInShort(contents: map<int, byte>, bytes: seq<byte>, pos: nat)
    requires pos in contents && pos >= |bytes|
    ensures contents != Extent(0, bytes)
  {
    assert pos !in Extent(0, bytes);
  }

  /** Two byte strings laid from position 0 are the same map only if they are the same. */
  lemma ExtentInjective(a: seq<byte>, b: seq<byte>)
    ensures Extent(0, a) == Extent(0, b) <==> a == b
  {
    if |a| > |b| {
      assert |b| in Extent(0, a);
      NotInShort(Extent(0, a), b, |b|);
    } else if |b| > |a| {
      assert |a| in Extent(0, b);
      NotInShort(Extent(0, b), a, |a|);
    } else if Extent(0, a) == Extent(0, b) {
      forall k | 0 <= k < |a| ensures a[k] == b[k] {
        assert Extent(0, a)[k] == Shifted(a, 0, k) && Extent(0, b)[k] == Shifted(b, 0, k);
      }
    }
  }

  lemma HoleNotStored(f: FileInfo, p: nat, w: Write)
    requires Sound(f, p) && f.firstPiece.index < f.lastPiece.index && |w.source| <= p
    requires Contains(f, w.id) ==> SliceFits(f, w.id, |w.source|)
    ensures p - f.firstPiece.offset !in Stored(f, p, w.id, w.source)
  {
    if Contains(f, w.id) && w.id != f.firstPiece.index {
      TimesAtLeast(w.id - f.firstPiece.index, p);
    }
  }

  lemma TimesAtLeast(m: nat, p: nat)
    requires m >= 1
    ensures m * p >= p
  {
  }

  /** In a longer file, the byte after its first slice is never written. */
  lemma LongerFileHasHole(f: FileInfo, p: nat, ws: seq<Write>)
    requires Distinct(f, p, ws) && f.firstPiece.index < f.lastPiece.index
    ensures p - f.firstPiece.offset !in Replay(f, p, map[], ws)
    ensures 0 <= p - f.firstPiece.offset < Along(f.lastPiece, p) - Along(f.firstPiece, p)
  {
    var hole := p - f.firstPiece.offset;
    forall j | 0 <= j < |ws| ensures hole !in Stored(f, p, ws[j].id, ws[j].source) {
      HoleNotStored(f, p, ws[j]);
    }
    ReplayMiss(f, p, map[], ws, hole);
    OneMoreTimes(f.firstPiece.index, f.lastPiece.index, p);
  }

  lemma {:induction false} OneMoreTimes(a: nat, b: nat, p: nat)
    requires a < b
    ensures b * p >= a * p + p
    decreases b
  {
    assert b * p == (b - 1) * p + p;
    if a < b - 1 { OneMoreTimes(a, b - 1, p); }
  }

  /** Where the last slice of a file that ends on a piece boundary goes: p bytes, at the end
      of the file or, when it has several pieces, even one piece length further. */
  lemma AlignedLastSlice(sizes: seq<nat>, p: nat, i: nat, source: seq<byte>, past: nat)
    requires i < |sizes| && p > 0 && EndsAligned(sizes, p, i)
    requires SliceFits(Info(sizes, p, i), Info(sizes, p, i).lastPiece.index, |source|)
    requires past == if Info(sizes, p, i).firstPiece.index < Info(sizes, p, i).lastPiece.index then p else 0
    ensures Sound(Info(sizes, p, i), p) && |source| >= p
    ensures Stored(Info(sizes, p, i), p, Info(sizes, p, i).lastPiece.index, source)
            == Extent(sizes[i] + past, source[..p])
  {
    var f := Info(sizes, p, i);
    InfoSound(sizes, p, i);
    EndPosition(sizes, p, i);
    var d := f.lastPiece.index - f.firstPiece.index;
    assert f.lastPiece.index * p == f.firstPiece.index * p + d * p;
  }

  /** So it always gets a whole piece length of bytes behind its end. */
  lemma AlignedFileTooLong(f: FileInfo, p: nat, ws: seq<Write>, k: nat, from: nat)
    requires p > 0 && Distinct(f, p, ws) && k < |ws| && |ws[k].source| >= p
    requires Stored(f, p, ws[k].id, ws[k].source) == Extent(from, ws[k].source[..p])
    ensures forall pos :: from <= pos < from + p ==> pos in Replay(f, p, map[], ws)
  {
    forall pos | from <= pos < from + p ensures pos in Replay(f, p, map[], ws) {
      assert pos in Extent(from, ws[k].source[..p]);
      ReplayHit(f, p, map[], ws, k, pos);
    }
  }

  /** The bytes a file should have. */
  function FileBytes(sizes: seq<nat>, i: nat, stream: seq<byte>): (bytes: seq<byte>)
    requires i < |sizes| && BytesBefore(sizes, i + 1) <= |stream|
    ensures |bytes| == sizes[i]
  {
    stream[BytesBefore(sizes, i)..BytesBefore(sizes, i + 1)]
  }

  lemma AlignedNeverCorrect(sizes: seq<nat>, p: nat, i: nat, stream: seq<byte>, ws: seq<Write>)
    requires i < |sizes| && p > 0 && EndsAligned(sizes, p, i) && BytesBefore(sizes, i + 1) <= |stream|
    requires Supplies(Info(sizes, p, i), p, stream, ws)
    ensures Replay(Info(sizes, p, i), p, map[], ws) != Extent(0, FileBytes(sizes, i, stream))
  {
    var f := Info(sizes, p, i);
    InfoSound(sizes, p, i);
    var k := SuppliedWrite(f, p, stream, ws, f.lastPiece.index);
    var past := if f.firstPiece.index < f.lastPiece.index then p else 0;
    AlignedLastSlice(sizes, p, i, ws[k].source, past);
    AlignedFileTooLong(f, p, ws, k, sizes[i] + past);
    NotInShort(Replay(f, p, map[], ws), FileBytes(sizes, i, stream), sizes[i] + past);
  }

  lemma LongerNeverCorrect(sizes: seq<nat>, p: nat, i: nat, stream: seq<byte>, ws: seq<Write>)
    requires i < |sizes| && p > 0 && !EndsAligned(sizes, p, i) && BytesBefore(sizes, i + 1) <= |stream|
    requires Distinct(Info(sizes, p, i), p, ws)
    requires Info(sizes, p, i).firstPiece.index < Info(sizes, p, i).lastPiece.index
    ensures Replay(Info(sizes, p, i), p, map[], ws) != Extent(0, FileBytes(sizes, i, stream))
  {
    var f := Info(sizes, p, i);
    LongerFileHasHole(f, p, ws);
    EndPosition(sizes, p, i);
    assert p - f.firstPiece.offset in Extent(0, FileBytes(sizes, i, stream));
  }

  /** For every file of every torrent: once all its pieces are written, in any order, a file
      has its contents exactly when it does not end on a piece boundary, lies inside one
      piece, and the torrent repeats its bytes one piece length later for every earlier file
      that ends on a boundary. */
  lemma CorrectIffOnePiece(sizes: seq<nat>, p: nat, i: nat, stream: seq<byte>, ws: seq<Write>)
    requires i < |sizes| && p > 0 && BytesBefore(sizes, i + 1) <= |stream|
    requires Supplies(Info(sizes, p, i), p, stream, ws)
    ensures Replay(Info(sizes, p, i), p, map[], ws) == Extent(0, FileBytes(sizes, i, stream))
            <==> && !EndsAligned(sizes, p, i)
                 && Info(sizes, p, i).firstPiece.index == Info(sizes, p, i).lastPiece.index
                 && SameAfterDrift(sizes, p, i, stream)
  {
    var f := Info(sizes, p, i);
    InfoSound(sizes, p, i);
    if EndsAligned(sizes, p, i) {
      AlignedNeverCorrect(sizes, p, i, stream, ws);
    } else if f.firstPiece.index < f.lastPiece.index {
      LongerNeverCorrect(sizes, p, i, stream, ws);
    } else {
      OnePieceCorrectIff(sizes, p, i, stream, ws);
    }
  }

  lemma OnePieceCorrectIff(sizes: seq<nat>, p: nat, i: nat, stream: seq<byte>, ws: seq<Write>)
    requires i < |sizes| && p > 0 && !EndsAligned(sizes, p, i) && BytesBefore(sizes, i + 1) <= |stream|
    requires Supplies(Info(sizes, p, i), p, stream, ws)
    requires Info(sizes, p, i).firstPiece.index == Info(sizes, p, i).lastPiece.index
    ensures Replay(Info(sizes, p, i), p, map[], ws) == Extent(0, FileBytes(sizes, i, stream))
            <==> SameAfterDrift(sizes, p, i, stream)
  {
    var start, end, drift := BytesBefore(sizes, i), BytesBefore(sizes, i + 1), AlignedBefore(sizes, p, i) * p;
    OnePieceHolds(sizes, p, i, stream, ws, start, end, drift);
    ExtentInjective(stream[start + drift..end + drift], FileBytes(sizes, i, stream));
  }

  // ----- the objects

  /** From each list of file states to the next, one piece was dispatched. */
  ghost predicate Dispatches(fs: seq<FileInfo>, p: nat, states: seq<seq<FileState>>, ws: seq<Write>) {
    && |states| == |ws| + 1
    && forall k :: 0 <= k < |ws| ==> DispatchedOnce(fs, p, states[k], states[k + 1], ws[k])
  }

  ghost predicate DispatchedOnce(fs: seq<FileInfo>, p: nat, before: seq<FileState>, after: seq<FileState>, w: Write) {
    && Callable(fs, p, before, w.id, w.source)
    && exists visited: seq<nat> :: Dispatched(fs, p, before, after, visited, w.id, w.source)
  }

  /** Any sequence of calls of Files::write_piece leaves in each file what Replay says. */
  lemma {:induction false} DispatchesReplay(fs: seq<FileInfo>, p: nat, states: seq<seq<FileState>>, ws: seq<Write>,
                                            i: nat)
    requires Dispatches(fs, p, states, ws) && i < |fs| && Sound(fs[i], p)
    requires |states[0]| == |fs|
    ensures |states[|ws|]| == |fs|
    ensures forall k :: 0 <= k < |ws| ==> (Contains(fs[i], ws[k].id) ==> SliceFits(fs[i], ws[k].id, |ws[k].source|))
    ensures states[|ws|][i].contents == Replay(fs[i], p, states[0][i].contents, ws)
    decreases |ws|
  {
    if ws != [] {
      var m := |ws| - 1;
      assert forall k :: 0 <= k < m ==> states[..m + 1][k] == states[k] && ws[..m][k] == ws[k];
      DispatchesReplay(fs, p, states[..m + 1], ws[..m], i);
      DispatchedContents(fs, p, states[m], states[m + 1], ws[m], i);
    }
  }

  lemma DispatchedContents(fs: seq<FileInfo>, p: nat, before: seq<FileState>, after: seq<FileState>, w: Write, i: nat)
    requires DispatchedOnce(fs, p, before, after, w) && i < |fs| && Sound(fs[i], p)
    ensures |before| == |after| == |fs| && (Contains(fs[i], w.id) ==> SliceFits(fs[i], w.id, |w.source|))
    ensures after[i].contents == before[i].contents + Stored(fs[i], p, w.id, w.source)
  {
  }

  /** One of the writes is for this piece. */
  ghost predicate WritesPiece(ws: seq<Write>, id: nat) {
    exists m :: 0 <= m < |ws| && ws[m].id == id
  }

  lemma WritesPieceFront(ws: seq<Write>, m: nat, id: nat)
    requires |ws| == m + 1
    ensures WritesPiece(ws, id) <==> WritesPiece(ws[..m], id) || ws[m].id == id
  {
    if WritesPiece(ws[..m], id) {
      var j :| 0 <= j < m && ws[..m][j].id == id;
      assert ws[j].id == id;
    }
    if WritesPiece(ws, id) && ws[m].id != id {
      var j :| 0 <= j < |ws| && ws[j].id == id;
      assert ws[..m][j].id == id;
    }
  }

  /** After any sequence of calls of Files::write_piece, a bit of a file is set if and only if
      it was set before or one of the calls was for its piece. */
  lemma {:induction false} DispatchesMark(fs: seq<FileInfo>, p: nat, states: seq<seq<FileState>>, ws: seq<Write>,
                                          i: nat, k: nat)
    requires Dispatches(fs, p, states, ws) && i < |fs| && |states[0]| == |fs|
    requires k <= fs[i].lastPiece.index - fs[i].firstPiece.index && k < |states[0][i].bits|
    ensures |states[|ws|]| == |fs| && |states[|ws|][i].bits| == |states[0][i].bits|
    ensures states[|ws|][i].bits[k] <==> states[0][i].bits[k] || WritesPiece(ws, fs[i].firstPiece.index + k)
    decreases |ws|
  {
    if ws != [] {
      var m := |ws| - 1;
      assert forall j :: 0 <= j < m ==> states[..m + 1][j] == states[j] && ws[..m][j] == ws[j];
      DispatchesMark(fs, p, states[..m + 1], ws[..m], i, k);
      assert DispatchedOnce(fs, p, states[m], states[m + 1], ws[m]);
      BitAfterCall(fs[i], p, states[m][i], ws[m].id, ws[m].source, k);
      WritesPieceFront(ws, m, fs[i].firstPiece.index + k);
    }
  }
}
