/** The ordered set of byte ranges a partly received piece has collected (piece.cpp). */
module Blocks {
  datatype Block = Block(offset: nat, size: nat)
  {
    function End(): nat { offset + size }
  }

  predicate InBlock(k: int, b: Block) { b.offset <= k < b.End() }

  predicate Covered(bs: seq<Block>, k: int) {
    exists i :: 0 <= i < |bs| && InBlock(k, bs[i])
  }

  /** Normal form inside a piece of n bytes: ordered, with at least one missing byte
      between neighbours. */
  ghost predicate Normal(bs: seq<Block>, n: nat) {
    && (forall i, j :: 0 <= i < j < |bs| ==> bs[i].End() < bs[j].offset)
    && (forall i :: 0 <= i < |bs| ==> bs[i].End() <= n)
  }

  ghost predicate NoneEmpty(bs: seq<Block>) {
    forall i :: 0 <= i < |bs| ==> bs[i].size > 0
  }

  /** Some stored range lies strictly inside [from, to): it starts later and ends earlier. */
  ghost predicate Swallows(bs: seq<Block>, from: nat, to: nat) {
    exists i :: 0 <= i < |bs| && from < bs[i].offset && bs[i].End() < to
  }

  function Min(a: int, b: int): int { if a < b then a else b }
  function Max(a: int, b: int): int { if a < b then b else a }

  // ----- the reference definition: union of an interval set with one interval

  /** The textbook union: skip what ends before, absorb everything that touches. */
  function Union(bs: seq<Block>, from: nat, to: nat): seq<Block>
    requires from <= to
  {
    if bs == [] then [Block(from, to - from)]
    else if bs[0].End() < from then [bs[0]] + Union(bs[1..], from, to)
    else if to < bs[0].offset then [Block(from, to - from)] + bs
    else Union(bs[1..], Min(from, bs[0].offset), Max(to, bs[0].End()))
  }

  ghost predicate StartsFrom(bs: seq<Block>, low: int) {
    forall i :: 0 <= i < |bs| ==> low <= bs[i].offset
  }

  /** A block in front of later ones. */
  lemma NormalCons(b: Block, rest: seq<Block>, n: nat, low: int)
    requires Normal(rest, n) && low <= b.offset && b.End() <= n && StartsFrom(rest, b.End() + 1)
    ensures Normal([b] + rest, n) && StartsFrom([b] + rest, low)
  {
    var all := [b] + rest;
    forall i, j | 0 <= i < j < |all| ensures all[i].End() < all[j].offset {
      assert all[j] == rest[j - 1];
      if i > 0 { assert all[i] == rest[i - 1]; }
    }
  }

  lemma NormalTail(bs: seq<Block>, n: nat)
    requires Normal(bs, n) && bs != []
    ensures Normal(bs[1..], n) && bs[0].End() <= n && StartsFrom(bs[1..], bs[0].End() + 1)
  {
  }

  /** The union stays in normal form, and without empty blocks if the range is not empty. */
  lemma UnionNormal(bs: seq<Block>, from: nat, to: nat, n: nat, low: int)
    requires Normal(bs, n) && from <= to <= n && low <= from && StartsFrom(bs, low)
    ensures Normal(Union(bs, from, to), n) && StartsFrom(Union(bs, from, to), low)
    ensures NoneEmpty(bs) && from < to ==> NoneEmpty(Union(bs, from, to))
  {
    UnionOrdered(bs, from, to, n, low);
    if NoneEmpty(bs) && from < to {
      UnionNoneEmpty(bs, from, to);
    }
  }

  lemma {:induction false} UnionOrdered(bs: seq<Block>, from: nat, to: nat, n: nat, low: int)
    requires Normal(bs, n) && from <= to <= n && low <= from && StartsFrom(bs, low)
    ensures Normal(Union(bs, from, to), n) && StartsFrom(Union(bs, from, to), low)
    decreases |bs|
  {
    if bs == [] {
      NormalCons(Block(from, to - from), [], n, low);
    } else {
      NormalTail(bs, n);
      if bs[0].End() < from {
        UnionOrdered(bs[1..], from, to, n, bs[0].End() + 1);
        NormalCons(bs[0], Union(bs[1..], from, to), n, low);
      } else if to < bs[0].offset {
        NormalCons(Block(from, to - from), bs, n, low);
      } else {
        assert low <= bs[0].offset;
        UnionOrdered(bs[1..], Min(from, bs[0].offset), Max(to, bs[0].End()), n, low);
      }
    }
  }

  lemma {:induction false} UnionNoneEmpty(bs: seq<Block>, from: nat, to: nat)
    requires NoneEmpty(bs) && from < to
    ensures NoneEmpty(Union(bs, from, to))
    decreases |bs|
  {
    if bs != [] && bs[0].End() < from {
      UnionNoneEmpty(bs[1..], from, to);
    } else if bs != [] && bs[0].offset <= to {
      UnionNoneEmpty(bs[1..], Min(from, bs[0].offset), Max(to, bs[0].End()));
    }
  }

  lemma CoveredCons(b: Block, rest: seq<Block>, k: int)
    ensures Covered([b] + rest, k) <==> InBlock(k, b) || Covered(rest, k)
  {
    var all := [b] + rest;
    if InBlock(k, b) { assert InBlock(k, all[0]); }
    if Covered(rest, k) {
      var i :| 0 <= i < |rest| && InBlock(k, rest[i]);
      assert InBlock(k, all[i + 1]);
    }
  }

  /** The union covers the old bytes and the new interval, and nothing else. */
  lemma {:induction false} UnionCovers(bs: seq<Block>, from: nat, to: nat, k: int)
    requires from <= to
    ensures Covered(Union(bs, from, to), k) <==> Covered(bs, k) || from <= k < to
  {
    var own := Block(from, to - from);
    if bs == [] {
      CoveredCons(own, [], k);
      assert [own] + [] == [own];
    } else {
      assert bs == [bs[0]] + bs[1..];
      CoveredCons(bs[0], bs[1..], k);
      if bs[0].End() < from {
        UnionCovers(bs[1..], from, to, k);
        CoveredCons(bs[0], Union(bs[1..], from, to), k);
      } else if to < bs[0].offset {
        CoveredCons(own, bs, k);
      } else {
        UnionCovers(bs[1..], Min(from, bs[0].offset), Max(to, bs[0].End()), k);
      }
    }
  }

  /** Blocks that end before the interval stay in front. */
  lemma {:induction false} UnionSkips(front: seq<Block>, rest: seq<Block>, from: nat, to: nat)
    requires from <= to && forall i :: 0 <= i < |front| ==> front[i].End() < from
    ensures Union(front + rest, from, to) == front + Union(rest, from, to)
    decreases |front|
  {
    if front == [] {
      assert front + rest == rest;
    } else {
      assert (front + rest)[0] == front[0] && (front + rest)[1..] == front[1..] + rest;
      UnionSkips(front[1..], rest, from, to);
      assert [front[0]] + (front[1..] + Union(rest, from, to)) == front + Union(rest, from, to);
    }
  }

  /** A block that touches the interval is absorbed. */
  lemma UnionAbsorbs(b: Block, rest: seq<Block>, from: nat, to: nat)
    requires from <= to && b.offset <= to && from <= b.End()
    ensures Union([b] + rest, from, to) == Union(rest, Min(from, b.offset), Max(to, b.End()))
  {
    assert ([b] + rest)[1..] == rest;
  }

  lemma UnionStops(rest: seq<Block>, from: nat, to: nat)
    requires from <= to && (rest != [] ==> to < rest[0].offset)
    ensures Union(rest, from, to) == [Block(from, to - from)] + rest
  {
  }

  /** bs with the blocks a, ..., b - 1 replaced by one block. */
  function Splice(bs: seq<Block>, a: nat, block: Block, b: nat): seq<Block>
    requires a <= b <= |bs|
  {
    bs[..a] + ([block] + bs[b..])
  }

  /** The pieces of a block list around an interval: what ends before it, the rest. */
  ghost predicate EndBefore(front: seq<Block>, from: nat) {
    forall i :: 0 <= i < |front| ==> front[i].End() < from
  }

  ghost predicate StartAfter(rest: seq<Block>, to: nat) {
    rest != [] ==> to < rest[0].offset
  }

  lemma UnionBetween(front: seq<Block>, rest: seq<Block>, from: nat, to: nat)
    requires from <= to && EndBefore(front, from) && StartAfter(rest, to)
    ensures Union(front + rest, from, to) == front + ([Block(from, to - from)] + rest)
  {
    UnionSkips(front, rest, from, to);
    UnionStops(rest, from, to);
  }

  lemma UnionWithOne(front: seq<Block>, b: Block, rest: seq<Block>, from: nat, to: nat, lo: nat, hi: nat)
    requires from <= to && EndBefore(front, from) && b.offset <= to && from <= b.End()
    requires lo == Min(from, b.offset) && hi == Max(to, b.End()) && StartAfter(rest, hi)
    ensures lo <= hi && Union(front + ([b] + rest), from, to) == front + ([Block(lo, hi - lo)] + rest)
  {
    UnionSkips(front, [b] + rest, from, to);
    UnionAbsorbs(b, rest, from, to);
    UnionStops(rest, lo, hi);
  }

  lemma UnionWithTwo(front: seq<Block>, a: Block, b: Block, rest: seq<Block>, from: nat, to: nat)
    requires EndBefore(front, from) && a.offset <= from <= a.End() <= to && a.offset <= b.offset <= to <= b.End()
    requires StartAfter(rest, b.End())
    ensures Union(front + ([a] + ([b] + rest)), from, to) == front + ([Block(a.offset, b.End() - a.offset)] + rest)
  {
    UnionSkips(front, [a] + ([b] + rest), from, to);
    UnionAbsorbs(a, [b] + rest, from, to);
    UnionAbsorbs(b, rest, a.offset, to);
    UnionStops(rest, a.offset, b.End());
  }

  /** Block j and what is around it: what comes before ends before it starts, what comes
      after starts later. */
  lemma NormalParts(bs: seq<Block>, j: nat, n: nat, front: seq<Block>, b: Block, rest: seq<Block>)
    requires Normal(bs, n) && j < |bs| && front == bs[..j] && b == bs[j] && rest == bs[j + 1..]
    ensures bs == front + ([b] + rest)
    ensures EndBefore(front, b.offset) && StartAfter(rest, b.End())
  {
    forall i | 0 <= i < j ensures front[i].End() < b.offset {
      assert front[i] == bs[i];
    }
    if rest != [] { assert rest[0] == bs[j + 1]; }
  }

  lemma NormalFront(bs: seq<Block>, j: nat, n: nat, from: nat)
    requires Normal(bs, n) && j <= |bs| && (j > 0 ==> bs[j - 1].End() < from)
    ensures EndBefore(bs[..j], from)
  {
    forall i | 0 <= i < j ensures bs[..j][i].End() < from {
      assert bs[..j][i] == bs[i];
      if i < j - 1 { assert bs[i].End() < bs[j - 1].offset; }
    }
  }

  lemma TailFrom(bs: seq<Block>, j: nat, to: nat)
    requires j <= |bs| && (j < |bs| ==> to < bs[j].offset)
    ensures StartAfter(bs[j..], to)
  {
  }

  /** An interval that touches neither block j - 1 nor block j. */
  lemma UnionApart(bs: seq<Block>, j: nat, from: nat, to: nat, n: nat)
    requires Normal(bs, n) && j <= |bs| && from <= to
    requires (j > 0 ==> bs[j - 1].End() < from) && (j < |bs| ==> to < bs[j].offset)
    ensures Union(bs, from, to) == Splice(bs, j, Block(from, to - from), j)
  {
    NormalFront(bs, j, n, from);
    TailFrom(bs, j, to);
    assert bs == bs[..j] + bs[j..];
    UnionBetween(bs[..j], bs[j..], from, to);
  }

  lemma UnionVia(bs: seq<Block>, front: seq<Block>, b: Block, rest: seq<Block>, from: nat, to: nat, lo: nat, hi: nat)
    requires bs == front + ([b] + rest)
    requires from <= to && EndBefore(front, from) && b.offset <= to && from <= b.End()
    requires lo == Min(from, b.offset) && hi == Max(to, b.End()) && StartAfter(rest, hi)
    ensures lo <= hi && Union(bs, from, to) == front + ([Block(lo, hi - lo)] + rest)
  {
    UnionWithOne(front, b, rest, from, to, lo, hi);
  }

  /** An interval that touches block j but not block j - 1. */
  lemma UnionApartNext(bs: seq<Block>, j: nat, from: nat, to: nat, n: nat)
    requires Normal(bs, n) && j < |bs| && from < bs[j].offset <= to <= bs[j].End()
    requires j > 0 ==> bs[j - 1].End() < from
    ensures Union(bs, from, to) == Splice(bs, j, Block(from, bs[j].End() - from), j + 1)
  {
    NormalParts(bs, j, n, bs[..j], bs[j], bs[j + 1..]);
    NormalFront(bs, j, n, from);
    UnionVia(bs, bs[..j], bs[j], bs[j + 1..], from, to, from, bs[j].End());
  }

  /** An interval that touches block j - 1 and ends before block j. */
  lemma UnionJoined(bs: seq<Block>, j: nat, from: nat, to: nat, n: nat)
    requires Normal(bs, n) && 0 < j <= |bs| && from <= to
    requires bs[j - 1].offset <= from <= bs[j - 1].End() <= to
    requires j < |bs| ==> to < bs[j].offset
    ensures Union(bs, from, to) == Splice(bs, j - 1, Block(bs[j - 1].offset, to - bs[j - 1].offset), j)
  {
    var front, a, rest := bs[..j - 1], bs[j - 1], bs[j..];
    assert bs == front + ([a] + rest) && EndBefore(front, a.offset) by {
      NormalParts(bs, j - 1, n, front, a, rest);
    }
    TailFrom(bs, j, to);
    UnionVia(bs, front, a, rest, from, to, a.offset, to);
  }

  /** Block j - 1, block j, and what is around them. */
  lemma TwoParts(bs: seq<Block>, j: nat, n: nat, front: seq<Block>, a: Block, b: Block, rest: seq<Block>)
    requires Normal(bs, n) && 0 < j < |bs|
    requires front == bs[..j - 1] && a == bs[j - 1] && b == bs[j] && rest == bs[j + 1..]
    ensures bs == front + ([a] + ([b] + rest)) && EndBefore(front, a.offset) && a.offset <= b.offset
            && StartAfter(rest, b.End())
  {
    NormalParts(bs, j - 1, n, front, a, bs[j..]);
    assert bs[j..] == [b] + rest;
    TailFrom(bs, j + 1, b.End());
  }

  lemma UnionViaTwo(bs: seq<Block>, front: seq<Block>, a: Block, b: Block, rest: seq<Block>, from: nat, to: nat)
    requires bs == front + ([a] + ([b] + rest))
    requires EndBefore(front, from) && a.offset <= from <= a.End() <= to && a.offset <= b.offset <= to <= b.End()
    requires StartAfter(rest, b.End())
    ensures Union(bs, from, to) == front + ([Block(a.offset, b.End() - a.offset)] + rest)
  {
    UnionWithTwo(front, a, b, rest, from, to);
  }

  /** An interval that touches block j - 1 and block j. */
  lemma UnionJoinedBoth(bs: seq<Block>, j: nat, from: nat, to: nat, n: nat)
    requires Normal(bs, n) && 0 < j < |bs| && from <= to
    requires bs[j - 1].offset <= from <= bs[j - 1].End() <= to && bs[j].offset <= to <= bs[j].End()
    ensures bs[j - 1].offset <= bs[j].End()
    ensures Union(bs, from, to) == Splice(bs, j - 1, Block(bs[j - 1].offset, bs[j].End() - bs[j - 1].offset), j + 1)
  {
    TwoParts(bs, j, n, bs[..j - 1], bs[j - 1], bs[j], bs[j + 1..]);
    UnionViaTwo(bs, bs[..j - 1], bs[j - 1], bs[j], bs[j + 1..], from, to);
  }

  /** A range inside one block adds nothing. */
  lemma UnionInside(bs: seq<Block>, i: nat, from: nat, to: nat, n: nat)
    requires Normal(bs, n) && i < |bs| && bs[i].offset <= from < to <= bs[i].End()
    ensures Union(bs, from, to) == bs
  {
    var front, b, rest := bs[..i], bs[i], bs[i + 1..];
    assert bs == front + ([b] + rest) && EndBefore(front, from) && StartAfter(rest, b.End()) by {
      NormalParts(bs, i, n, front, b, rest);
    }
    UnionKeeps(front, b, rest, from, to);
  }

  lemma UnionKeeps(front: seq<Block>, b: Block, rest: seq<Block>, from: nat, to: nat)
    requires EndBefore(front, from) && b.offset <= from <= to <= b.End() && StartAfter(rest, b.End())
    ensures Union(front + ([b] + rest), from, to) == front + ([b] + rest)
  {
    assert Block(b.offset, b.End() - b.offset) == b;
    UnionWithOne(front, b, rest, from, to, b.offset, b.End());
  }

  /** `rest` is precisely the bytes of `whole` that no stored block covers. */
  ghost predicate IsRest(bs: seq<Block>, whole: Block, rest: Block) {
    forall k :: InBlock(k, rest) <==> InBlock(k, whole) && !Covered(bs, k)
  }

  /** What the two trims leave of `whole` at position j. */
  ghost predicate IsCut(bs: seq<Block>, j: nat, whole: Block, cut: Block)
    requires j <= |bs|
  {
    && cut.offset == (if j > 0 && whole.offset < bs[j - 1].End() then bs[j - 1].End() else whole.offset)
    && cut.End() == (if j < |bs| && bs[j].offset < whole.End() then bs[j].offset else whole.End())
  }

  /** Position j for an interval that reaches past block j - 1 and not past block j. */
  ghost predicate Reaches(bs: seq<Block>, j: nat, from: nat, to: nat) {
    && j <= |bs| && from < to
    && (j > 0 ==> bs[j - 1].offset <= from && bs[j - 1].End() <= to)
    && (j < |bs| ==> from < bs[j].offset && to <= bs[j].End())
  }

  ghost function Around(bs: seq<Block>, j: nat, from: nat, to: nat): seq<Block>
    requires Reaches(bs, j, from, to)
  {
    if j > 0 && from <= bs[j - 1].End() then
      if j < |bs| && bs[j].offset <= to then
        Splice(bs, j - 1, Block(bs[j - 1].offset, bs[j].End() - bs[j - 1].offset), j + 1)
      else Splice(bs, j - 1, Block(bs[j - 1].offset, to - bs[j - 1].offset), j)
    else if j < |bs| && bs[j].offset <= to then Splice(bs, j, Block(from, bs[j].End() - from), j + 1)
    else Splice(bs, j, Block(from, to - from), j)
  }

  lemma UnionAround(bs: seq<Block>, j: nat, from: nat, to: nat, n: nat)
    requires Normal(bs, n) && Reaches(bs, j, from, to)
    ensures Union(bs, from, to) == Around(bs, j, from, to)
  {
    var right := j < |bs| && bs[j].offset <= to;
    if j > 0 && from <= bs[j - 1].End() {
      if right { UnionJoinedBoth(bs, j, from, to, n); } else { UnionJoined(bs, j, from, to, n); }
    } else {
      if right { UnionApartNext(bs, j, from, to, n); } else { UnionApart(bs, j, from, to, n); }
    }
  }

  lemma AroundCut(bs: seq<Block>, j: nat, whole: Block, cut: Block)
    requires Reaches(bs, j, whole.offset, whole.End()) && cut.size > 0 && IsCut(bs, j, whole, cut)
    ensures Reaches(bs, j, cut.offset, cut.End())
    ensures Around(bs, j, whole.offset, whole.End()) == Around(bs, j, cut.offset, cut.End())
  {
  }

  /** Cutting off what block j - 1 and block j already hold does not change the union. */
  lemma UnionOfTrimmed(bs: seq<Block>, j: nat, whole: Block, cut: Block, n: nat)
    requires Normal(bs, n) && Reaches(bs, j, whole.offset, whole.End()) && cut.size > 0 && IsCut(bs, j, whole, cut)
    ensures Union(bs, whole.offset, whole.End()) == Union(bs, cut.offset, cut.End())
  {
    AroundCut(bs, j, whole, cut);
    UnionAround(bs, j, whole.offset, whole.End(), n);
    UnionAround(bs, j, cut.offset, cut.End(), n);
  }

  // ----- Block::modify_on_intersection

  datatype Trim = Trimmed(block: Block) | SelfInRight | RightInSelf

  ghost predicate Meets(a: Block, b: Block) { b.offset < a.End() && a.offset < b.End() }

  /** Cuts `self` back against a stored block `right`. The two errors are exactly the two
      strict containments; otherwise what is left is `self` without the bytes of `right`. */
  method ModifyOnIntersection(self: Block, right: Block) returns (r: Trim)
    ensures r.SelfInRight? <==> Meets(self, right) && right.offset <= self.offset && self.End() < right.End()
    ensures r.RightInSelf? <==> Meets(self, right) && self.offset < right.offset && right.End() < self.End()
    ensures r.Trimmed? ==> forall k :: InBlock(k, r.block) <==> InBlock(k, self) && !InBlock(k, right)
    ensures r.Trimmed? ==>
              r.block.offset == if Meets(self, right) && right.offset <= self.offset then right.End() else self.offset
    ensures r.Trimmed? ==>
              r.block.End() == if Meets(self, right) && self.offset < right.offset then right.offset else self.End()
  {
    var offset, size := self.offset, self.size;
    var selfEnd := offset + size;
    var rightEnd := right.offset + right.size;
    if selfEnd <= right.offset || offset >= rightEnd {
      return Trimmed(Block(offset, size));
    }
    if offset < right.offset {
      if rightEnd < selfEnd {
        return RightInSelf;
      }
      size := size - (selfEnd - right.offset);
      return Trimmed(Block(offset, size));
    }
    if selfEnd < rightEnd {
      return SelfInRight;
    }
    size := size - (rightEnd - offset);
    offset := offset + (rightEnd - offset);
    return Trimmed(Block(offset, size));
  }

  // ----- the three stages of Piece::add on the set of blocks

  /** std::set::upper_bound: the first block that starts after `offset`. */
  method UpperBound(bs: seq<Block>, offset: nat, ghost n: nat) returns (j: nat)
    requires Normal(bs, n)
    ensures j <= |bs|
    ensures forall i :: 0 <= i < j ==> bs[i].offset <= offset
    ensures forall i :: j <= i < |bs| ==> offset < bs[i].offset
  {
    j := 0;
    while j < |bs| && bs[j].offset <= offset
      invariant j <= |bs|
      invariant forall i :: 0 <= i < j ==> bs[i].offset <= offset
    {
      j := j + 1;
    }
  }

  /** Trimming against the two neighbours is exhaustive: it fails exactly when some stored
      block is strictly inside, and otherwise leaves precisely the bytes that no stored
      block covers. */
  method TrimNeighbours(bs: seq<Block>, whole: Block, j: nat, ghost n: nat) returns (r: Trim)
    requires Normal(bs, n) && bs != [] && j <= |bs|
    requires forall i :: 0 <= i < j ==> bs[i].offset <= whole.offset
    requires forall i :: j <= i < |bs| ==> whole.offset < bs[i].offset
    ensures r.RightInSelf? <==> Swallows(bs, whole.offset, whole.End())
    ensures r.SelfInRight? ==> j > 0 && bs[j - 1].offset <= whole.offset && whole.End() < bs[j - 1].End()
    ensures r.Trimmed? ==> IsRest(bs, whole, r.block)
    ensures r.Trimmed? && whole.size > 0 ==> IsCut(bs, j, whole, r.block)
    ensures r.Trimmed? && r.block.size > 0 ==> FitsAt(bs, r.block, j, n) && Reaches(bs, j, whole.offset, whole.End())
  {
    var newBlock := whole;
    if j > 0 {
      r := ModifyOnIntersection(newBlock, bs[j - 1]);
      match r {
        case SelfInRight => return;
        case RightInSelf => assert false;
        case Trimmed(b) => newBlock := b;
      }
    }
    if j < |bs| {
      r := ModifyOnIntersection(newBlock, bs[j]);
      match r {
        case SelfInRight => assert false;
        case RightInSelf =>
          assert whole.offset < bs[j].offset && bs[j].End() < whole.End();
          return;
        case Trimmed(b) => newBlock := b;
      }
    }
    r := Trimmed(newBlock);
  }

  /** The blocks one accepted add leaves behind. */
  function NewBlocks(bs: seq<Block>, from: nat, to: nat): seq<Block>
    requires from <= to
  {
    if bs != [] && from == to then bs else Union(bs, from, to)
  }

  /** A trimmed range and its surroundings: j is where it belongs. */
  ghost predicate FitsAt(bs: seq<Block>, newBlock: Block, j: nat, n: nat) {
    && Normal(bs, n) && bs != [] && j <= |bs| && newBlock.size > 0
    && (forall i :: 0 <= i < j ==> bs[i].End() <= newBlock.offset)
    && (forall i :: j <= i < |bs| ==> newBlock.End() <= bs[i].offset)
  }

  /** Inserts a trimmed range, joining it to the neighbours it touches: three ways of
      coalescing, all of which amount to the textbook union. */
  method Coalesce(bs: seq<Block>, newBlock: Block, j: nat, ghost n: nat) returns (blocks: seq<Block>)
    requires FitsAt(bs, newBlock, j, n)
    ensures blocks == Union(bs, newBlock.offset, newBlock.End())
  {
    FitReaches(bs, newBlock, j, n);
    UnionAround(bs, j, newBlock.offset, newBlock.End(), n);
    if j == 0 {
      if newBlock.End() == bs[0].offset {
        blocks := [Block(newBlock.offset, bs[0].size + newBlock.size)] + bs[1..];
      } else {
        blocks := [newBlock] + bs;
      }
      return;
    }
    var prev, next;
    blocks, prev, next := InsertBeside(bs, newBlock, j);
    if next < |blocks| && blocks[prev].End() == blocks[next].offset {
      blocks := JoinNext(bs, blocks, prev, j);
    }
  }

  lemma FitReaches(bs: seq<Block>, newBlock: Block, j: nat, n: nat)
    requires FitsAt(bs, newBlock, j, n)
    ensures Reaches(bs, j, newBlock.offset, newBlock.End())
  {
  }

  /** Extends block j - 1 by an adjacent range, or inserts the range after it. */
  method InsertBeside(bs: seq<Block>, newBlock: Block, j: nat) returns (blocks: seq<Block>, prev: nat, next: nat)
    requires 0 < j <= |bs| && bs[j - 1].End() <= newBlock.offset
    ensures prev == (if bs[j - 1].End() == newBlock.offset then j - 1 else j) && next == prev + 1 <= |blocks|
    ensures blocks == Splice(bs, prev, blocks[prev], j)
    ensures blocks[prev].End() == newBlock.End()
    ensures blocks[prev].offset == if prev == j then newBlock.offset else bs[prev].offset
    ensures next < |blocks| <==> j < |bs|
    ensures next < |blocks| ==> blocks[next] == bs[j]
  {
    if bs[j - 1].End() == newBlock.offset {
      prev := j - 1;
      blocks := bs[prev := Block(bs[prev].offset, bs[prev].size + newBlock.size)];
    } else {
      prev := j;
      blocks := bs[..j] + ([newBlock] + bs[j..]);
    }
    next := prev + 1;
    assert blocks == Splice(bs, prev, blocks[prev], j);
  }

  /** The last join: block `prev` of `mid` runs up to the old block j. */
  method JoinNext(bs: seq<Block>, mid: seq<Block>, prev: nat, j: nat) returns (blocks: seq<Block>)
    requires prev <= j < |bs| && prev + 1 < |mid|
    requires mid == Splice(bs, prev, mid[prev], j) && mid[prev].End() == bs[j].offset
    ensures blocks == Splice(bs, prev, Block(mid[prev].offset, bs[j].End() - mid[prev].offset), j + 1)
  {
    blocks := mid[..prev] + ([Block(mid[prev].offset, mid[prev].size + mid[prev + 1].size)] + mid[prev + 2..]);
    assert mid[..prev] == bs[..prev] && mid[prev + 2..] == bs[j + 1..];
  }
}
