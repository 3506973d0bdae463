/** Which files a piece goes to, and where in them (files.cpp). A file is a byte map. */
module FileSets {
  import opened Bytes
  import opened Layouts

  predicate Contains(f: FileInfo, id: nat) {
    f.firstPiece.index <= id <= f.lastPiece.index
  }

  // ----- the part of a piece a file takes

  function SliceStart(f: FileInfo, id: nat): nat {
    if id == f.firstPiece.index then f.firstPiece.offset else 0
  }

  function SliceEnd(f: FileInfo, id: nat, n: nat): nat {
    if id == f.lastPiece.index then f.lastPiece.offset else n
  }

  /** The slice lies inside a piece of n bytes. */
  predicate SliceFits(f: FileInfo, id: nat, n: nat) {
    SliceStart(f, id) <= SliceEnd(f, id, n) <= n
  }

  /** Where in the file the slice is written. */
  function FilePosition(f: FileInfo, p: nat, id: nat): int
    requires Contains(f, id)
  {
    if id == f.firstPiece.index then 0 else p - f.firstPiece.offset + (id - f.firstPiece.index) * p
  }

  function Shifted(bytes: seq<byte>, at: int, pos: int): byte
    requires at <= pos < at + |bytes|
  {
    bytes[pos - at]
  }

  /** What pwrite changes: the bytes, by their position in the file. */
  function Extent(at: int, bytes: seq<byte>): map<int, byte> {
    map pos: int | at <= pos < at + |bytes| :: Shifted(bytes, at, pos)
  }

  /** What a call for piece `id` stores in the file: its slice of the piece, or nothing. */
  function Stored(f: FileInfo, p: nat, id: nat, source: seq<byte>): map<int, byte>
    requires Sound(f, p) && (Contains(f, id) ==> SliceFits(f, id, |source|))
  {
    if Contains(f, id) then
      Extent(FilePosition(f, p, id), source[SliceStart(f, id)..SliceEnd(f, id, |source|)])
    else map[]
  }

  /** What a File object holds: the contents, the pieces it has, and how often it was called. */
  datatype FileState = FileState(contents: map<int, byte>, bits: seq<bool>, calls: nat)

  /** A bit for every piece of the file. */
  predicate HasBits(f: FileInfo, bits: seq<bool>) {
    |bits| > f.lastPiece.index - f.firstPiece.index
  }

  /** The bits after a call for piece `id`: one more set, if the file contains it. */
  function Marked(f: FileInfo, bits: seq<bool>, id: nat): seq<bool>
    requires HasBits(f, bits)
  {
    if Contains(f, id) then bits[id - f.firstPiece.index := true] else bits
  }

  function AfterCall(f: FileInfo, p: nat, st: FileState, id: nat, source: seq<byte>): FileState
    requires Sound(f, p) && HasBits(f, st.bits) && (Contains(f, id) ==> SliceFits(f, id, |source|))
  {
    FileState(st.contents + Stored(f, p, id, source), Marked(f, st.bits, id), st.calls + 1)
  }

  /** A call sets the bit of its piece, if the file contains it, and leaves every other bit. */
  lemma BitAfterCall(f: FileInfo, p: nat, st: FileState, id: nat, source: seq<byte>, k: nat)
    requires Sound(f, p) && HasBits(f, st.bits) && (Contains(f, id) ==> SliceFits(f, id, |source|)) && k < |st.bits|
    ensures |AfterCall(f, p, st, id, source).bits| == |st.bits|
    ensures AfterCall(f, p, st, id, source).bits[k] <==> st.bits[k] || (Contains(f, id) && id == f.firstPiece.index + k)
  {
  }

  /** A file that does not contain the piece may be called or not. */
  lemma CallOrNone(f: FileInfo, p: nat, before: FileState, after: FileState, id: nat, source: seq<byte>, called: bool)
    requires Sound(f, p) && HasBits(f, before.bits) && (Contains(f, id) ==> called && SliceFits(f, id, |source|))
    requires after == if called then AfterCall(f, p, before, id, source) else before
    ensures after.contents == before.contents + Stored(f, p, id, source) && after.bits == Marked(f, before.bits, id)
  {
    if !called {
      assert before.contents + map[] == before.contents;
    }
  }

  class File {
    const info: FileInfo
    const pieceSize: nat
    var bits: seq<bool>
    var contents: map<int, byte>
    ghost var calls: nat

    predicate Valid()
      reads this
    {
      Sound(info, pieceSize) && HasBits(info, bits)
    }

    ghost function State(): FileState
      reads this
    {
      FileState(contents, bits, calls)
    }

    constructor (info: FileInfo, pieceSize: nat)
      requires Sound(info, pieceSize)
      ensures Valid() && this.info == info && this.pieceSize == pieceSize && contents == map[] && calls == 0
      ensures forall i :: 0 <= i < |bits| ==> !bits[i]
    {
      this.info, this.pieceSize := info, pieceSize;
      bits := seq((info.lastPiece.index - info.firstPiece.index + 1) * 8, _ => false);
      contents := map[];
      calls := 0;
    }

    method WritePiece(id: nat, source: seq<byte>)
      requires Valid() && (Contains(info, id) ==> SliceFits(info, id, |source|))
      modifies this
      ensures Valid()
      ensures State() == AfterCall(info, pieceSize, old(State()), id, source)
    {
      calls := calls + 1;
      if id < info.firstPiece.index || id > info.lastPiece.index {
        assert contents + map[] == contents;
        return;
      }
      WriteSlice(id, source);
      bits := bits[id - info.firstPiece.index := true];
    }

    /** The part of the piece that belongs in the file. */
    method WriteSlice(id: nat, source: seq<byte>)
      requires Sound(info, pieceSize) && Contains(info, id) && SliceFits(info, id, |source|)
      modifies this`contents
      ensures contents == old(contents) + Stored(info, pieceSize, id, source)
    {
      var offset := if id == info.firstPiece.index then info.firstPiece.offset else 0;
      var size := (if id == info.lastPiece.index then info.lastPiece.offset else |source|) - offset;
      var offsetInFile := OffsetInFile(id);
      Store(offsetInFile, source[offset..offset + size]);
    }

    /** pwrite. */
    method Store(at: int, bytes: seq<byte>)
      modifies this`contents
      ensures contents == old(contents) + Extent(at, bytes)
    {
      contents := contents + Extent(at, bytes);
    }

    method OffsetInFile(id: nat) returns (at: int)
      requires Sound(info, pieceSize) && Contains(info, id)
      ensures at == FilePosition(info, pieceSize, id)
    {
      at := 0;
      if id != info.firstPiece.index {
        at := pieceSize - info.firstPiece.offset + (id - info.firstPiece.index) * pieceSize;
      }
    }
  }

  // ----- finding the files of a piece

  /** Along a chained layout, a later file starts no earlier than an earlier one ends. */
  lemma {:induction false} InOrder(fs: seq<FileInfo>, p: nat, i: nat, j: nat)
    requires Chained(fs, p) && i < j < |fs|
    ensures fs[i].lastPiece.index <= fs[j].firstPiece.index
    decreases j
  {
    assert Follows(fs[j - 1], fs[j], p);
    if i < j - 1 {
      InOrder(fs, p, i, j - 1);
      assert Sound(fs[j - 1], p);
    }
  }

  /** From r on lie all the files of the piece: r itself or one before the first that starts
      in it, then those that start in it. */
  ghost predicate LeadsTo(fs: seq<FileInfo>, r: nat, id: nat) {
    && r < |fs| && fs[r].firstPiece.index <= id
    && (forall k :: r < k < |fs| ==> fs[k].firstPiece.index >= id)
    && (forall k :: 0 <= k < r ==> !Contains(fs[k], id))
  }

  /** The recursive binary search, then the step back to where the piece begins. */
  method Search(data: seq<FileInfo>, begin: nat, end: nat, value: nat, ghost p: nat) returns (r: nat)
    requires Chained(data, p) && begin < end <= |data|
    requires data[begin].firstPiece.index <= value <= data[end - 1].lastPiece.index
    ensures LeadsTo(data, r, value)
    decreases end - begin
  {
    var middle := (end + begin) / 2;
    if value > data[middle].lastPiece.index {
      assert Sound(data[middle], p);
      r := Search(data, middle, end, value, p);
      return;
    } else if value < data[middle].firstPiece.index {
      assert Follows(data[middle - 1], data[middle], p);
      r := Search(data, begin, middle, value, p);
      return;
    }
    forall k | middle < k < |data| ensures data[k].firstPiece.index >= value {
      InOrder(data, p, middle, k);
    }
    while middle != 0 && data[middle].firstPiece.index == value
      invariant middle < |data| && data[middle].firstPiece.index <= value
      invariant forall k :: middle < k < |data| ==> data[k].firstPiece.index >= value
    {
      InOrder(data, p, middle - 1, middle);
      assert Sound(data[middle - 1], p);
      middle := middle - 1;
    }
    forall k | 0 <= k < middle ensures !Contains(data[k], value) {
      InOrder(data, p, k, middle);
    }
    r := middle;
  }

  // ----- when the search returns at all

  /** One call of the search: it finds its place or calls itself on a smaller range. */
  datatype Probe = Found | Narrowed(begin: nat, end: nat)

  function ProbeOnce(data: seq<FileInfo>, begin: nat, end: nat, value: nat): Probe
    requires (end + begin) / 2 < |data|
  {
    var middle := (end + begin) / 2;
    if value > data[middle].lastPiece.index then Narrowed(middle, end)
    else if value < data[middle].firstPiece.index then Narrowed(begin, middle)
    else Found
  }

  /** n calls, one inside the other. */
  function Probes(data: seq<FileInfo>, begin: nat, end: nat, value: nat, n: nat): Probe
    requires begin <= end <= |data| && (end + begin) / 2 < |data|
    decreases n
  {
    if n == 0 then Narrowed(begin, end)
    else
      match ProbeOnce(data, begin, end, value)
      case Found => Found
      case Narrowed(b, e) => Probes(data, b, e, value, n - 1)
  }

  lemma {:induction false} SearchReturns(data: seq<FileInfo>, p: nat, begin: nat, end: nat, value: nat) returns (n: nat)
    requires Chained(data, p) && begin < end <= |data|
    requires data[begin].firstPiece.index <= value <= data[end - 1].lastPiece.index
    ensures Probes(data, begin, end, value, n).Found?
    decreases end - begin
  {
    var middle := (end + begin) / 2;
    if value > data[middle].lastPiece.index {
      assert Sound(data[middle], p);
      n := SearchReturns(data, p, middle, end, value);
      n := n + 1;
    } else if value < data[middle].firstPiece.index {
      assert Follows(data[middle - 1], data[middle], p);
      n := SearchReturns(data, p, begin, middle, value);
      n := n + 1;
    } else {
      n := 1;
    }
  }

  lemma {:induction false} SearchDescendsForever(data: seq<FileInfo>, p: nat, begin: nat, value: nat, n: nat)
    requires Chained(data, p) && begin < |data| && value > data[|data| - 1].lastPiece.index
    ensures Probes(data, begin, |data|, value, n).Narrowed?
    decreases n
  {
    if n > 0 {
      var middle := (|data| + begin) / 2;
      if middle < |data| - 1 {
        InOrder(data, p, middle, |data| - 1);
        assert Sound(data[|data| - 1], p);
      }
      SearchDescendsForever(data, p, middle, value, n - 1);
    }
  }

  /** The search returns exactly for the pieces up to the last file's last one; for any other
      number it calls itself for ever. */
  lemma SearchReturnsIff(data: seq<FileInfo>, p: nat, value: nat)
    requires Chained(data, p)
    ensures (exists n: nat :: Probes(data, 0, |data|, value, n).Found?) <==> value <= data[|data| - 1].lastPiece.index
  {
    if value <= data[|data| - 1].lastPiece.index {
      var n := SearchReturns(data, p, 0, |data|, value);
    } else {
      forall n: nat ensures Probes(data, 0, |data|, value, n).Narrowed? {
        SearchDescendsForever(data, p, 0, value, n);
      }
    }
  }

  ghost function Calls(start: nat, stop: nat): (r: seq<nat>)
    requires start <= stop
    ensures |r| == stop - start && forall k :: 0 <= k < |r| ==> r[k] == start + k
    ensures forall i :: i in r <==> start <= i < stop
    decreases stop - start
  {
    if start == stop then [] else [start] + Calls(start + 1, stop)
  }

  /** Every file of these can be called for the piece. */
  ghost predicate Callable(fs: seq<FileInfo>, p: nat, sts: seq<FileState>, id: nat, source: seq<byte>) {
    && |sts| == |fs|
    && forall i :: 0 <= i < |fs| ==>
         Sound(fs[i], p) && HasBits(fs[i], sts[i].bits) && (Contains(fs[i], id) ==> SliceFits(fs[i], id, |source|))
  }

  /** The states after calling the files from `start` up to `stop`. */
  ghost function CallRange(fs: seq<FileInfo>, p: nat, sts: seq<FileState>, start: nat, stop: nat, id: nat,
                           source: seq<byte>): (r: seq<FileState>)
    requires Callable(fs, p, sts, id, source)
    ensures |r| == |fs|
  {
    seq(|fs|, i requires 0 <= i < |fs| => if start <= i < stop then AfterCall(fs[i], p, sts[i], id, source) else sts[i])
  }

  lemma CallRangeNone(fs: seq<FileInfo>, p: nat, sts: seq<FileState>, start: nat, id: nat, source: seq<byte>)
    requires Callable(fs, p, sts, id, source)
    ensures CallRange(fs, p, sts, start, start, id, source) == sts
  {
  }

  lemma CallRangeOneMore(fs: seq<FileInfo>, p: nat, sts: seq<FileState>, start: nat, stop: nat, id: nat,
                         source: seq<byte>)
    requires Callable(fs, p, sts, id, source) && start <= stop < |fs|
    ensures CallRange(fs, p, sts, start, stop, id, source)[stop] == sts[stop]
    ensures CallRange(fs, p, sts, start, stop + 1, id, source)
         == CallRange(fs, p, sts, start, stop, id, source)[stop := AfterCall(fs[stop], p, sts[stop], id, source)]
  {
  }

  /** The piece has been written to the files that contain it, and to no other, and marked
      there. The files called, `visited`, are consecutive; each is called once, and all but the
      first contain the piece. */
  ghost predicate Dispatched(fs: seq<FileInfo>, p: nat, before: seq<FileState>, after: seq<FileState>,
                             visited: seq<nat>,
                             id: nat, source: seq<byte>)
    requires Callable(fs, p, before, id, source)
  {
    && |after| == |fs|
    && (forall i :: 0 <= i < |fs| ==> after[i].contents == before[i].contents + Stored(fs[i], p, id, source))
    && (forall i :: 0 <= i < |fs| ==> after[i].bits == Marked(fs[i], before[i].bits, id))
    && (forall i :: 0 <= i < |fs| ==> after[i].calls == before[i].calls + if i in visited then 1 else 0)
    && visited != [] && (forall k :: 0 <= k < |visited| ==> visited[k] == visited[0] + k < |fs|)
    && (forall k :: 1 <= k < |visited| ==> Contains(fs[visited[k]], id))
    && (forall i :: 0 <= i < |fs| && Contains(fs[i], id) ==> i in visited)
  }

  /** What calling the files from start to stop amounts to. */
  lemma Accounted(fs: seq<FileInfo>, p: nat, before: seq<FileState>, after: seq<FileState>, start: nat, stop: nat,
                  id: nat, source: seq<byte>)
    requires Chained(fs, p) && LeadsTo(fs, start, id) && start < stop <= |fs| && Callable(fs, p, before, id, source)
    requires stop == |fs| || fs[stop].firstPiece.index != id
    requires forall k :: start < k < stop ==> fs[k].firstPiece.index == id
    requires after == CallRange(fs, p, before, start, stop, id, source)
    ensures Dispatched(fs, p, before, after, Calls(start, stop), id, source)
  {
    forall i | 0 <= i < |fs|
      ensures Contains(fs[i], id) ==> start <= i < stop
      ensures after[i].contents == before[i].contents + Stored(fs[i], p, id, source)
      ensures after[i].bits == Marked(fs[i], before[i].bits, id)
    {
      NoneMissed(fs, p, start, stop, id, i);
      CallOrNone(fs[i], p, before[i], after[i], id, source, start <= i < stop);
    }
  }

  class Files {
    const files: seq<File>
    const pieceSize: nat

    function Infos(): (fs: seq<FileInfo>)
      ensures |fs| == |files| && forall i :: 0 <= i < |files| ==> fs[i] == files[i].info
    {
      seq(|files|, i requires 0 <= i < |files| => files[i].info)
    }

    ghost predicate Valid()
      reads files
    {
      && Chained(Infos(), pieceSize)
      && (forall i :: 0 <= i < |files| ==> files[i].Valid() && files[i].pieceSize == pieceSize)
      && forall i, j :: 0 <= i < j < |files| ==> files[i] != files[j]
    }

    ghost function States(): (r: seq<FileState>)
      reads files
      ensures |r| == |files| && forall i :: 0 <= i < |files| ==> r[i] == files[i].State()
    {
      seq(|files|, i requires 0 <= i < |files| reads files => files[i].State())
    }

    /** Writes a piece to the files that contain it. */
    method WritePiece(id: nat, source: seq<byte>) returns (ghost visited: seq<nat>)
      requires Valid() && id <= files[|files| - 1].info.lastPiece.index
      requires Callable(Infos(), pieceSize, States(), id, source)
      modifies files
      ensures Valid()
      ensures Dispatched(Infos(), pieceSize, old(States()), States(), visited, id, source)
    {
      ghost var before := States();
      var start := Search(Infos(), 0, |files|, id, pieceSize);
      var stop := Scan(start, id, source);
      visited := Calls(start, stop);
      Accounted(Infos(), pieceSize, before, States(), start, stop, id, source);
    }

    /** One call of File::write_piece among the files. */
    method WriteTo(i: nat, id: nat, source: seq<byte>)
      requires Valid() && i < |files| && Callable(Infos(), pieceSize, States(), id, source)
      modifies files
      ensures Valid()
      ensures States() == old(States())[i := AfterCall(Infos()[i], pieceSize, old(States())[i], id, source)]
    {
      files[i].WritePiece(id, source);
    }

    /** The do-while loop: the file found, then every next one that starts in the piece. */
    method Scan(start: nat, id: nat, source: seq<byte>) returns (stop: nat)
      requires Valid() && start < |files| && Callable(Infos(), pieceSize, States(), id, source)
      modifies files
      ensures Valid() && start < stop <= |files|
      ensures stop == |files| || files[stop].info.firstPiece.index != id
      ensures forall k :: start < k < stop ==> files[k].info.firstPiece.index == id
      ensures States() == CallRange(Infos(), pieceSize, old(States()), start, stop, id, source)
    {
      ghost var before := States();
      CallRangeNone(Infos(), pieceSize, before, start, id, source);
      stop := start;
      while stop == start || (stop < |files| && files[stop].info.firstPiece.index == id)
        invariant start <= stop <= |files| && Valid()
        invariant forall k :: start < k < stop ==> files[k].info.firstPiece.index == id
        invariant States() == CallRange(Infos(), pieceSize, before, start, stop, id, source)
        invariant Callable(Infos(), pieceSize, States(), id, source)
        decreases |files| - stop
      {
        CallRangeOneMore(Infos(), pieceSize, before, start, stop, id, source);
        WriteTo(stop, id, source);
        stop := stop + 1;
      }
    }
  }

  /** The forward scan stops only after the last file of the piece. */
  lemma NoneMissed(fs: seq<FileInfo>, p: nat, start: nat, stop: nat, id: nat, i: nat)
    requires Chained(fs, p) && LeadsTo(fs, start, id) && start < stop <= |fs| && i < |fs|
    requires stop == |fs| || fs[stop].firstPiece.index != id
    ensures Contains(fs[i], id) ==> start <= i < stop
  {
    if stop <= i {
      if stop < i { InOrder(fs, p, stop, i); }
      assert Sound(fs[stop], p);
    }
  }
}
