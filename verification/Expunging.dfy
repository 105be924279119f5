/** When the allocator's call-back empties the cache, and when the header file promises that it does. */
module Expunging {
  import opened SmaArena
  import opened SmaLaws
  import opened SmaAllocator

  /** Whether one segment has more than `size` bytes available. */
  predicate Roomed(avails: seq<int>, size: int) {
    exists i :: 0 <= i < |avails| && avails[i] > size
  }

  /**
   Whether the call-back empties the cache.  The segments have `before` bytes available
   once removed entries are collected, and `swept` once the expired ones are gone too.
   */
  predicate Empties(ttl: int, suitable: int, before: seq<int>, swept: seq<int>, size: int) {
    Sum(before) < suitable && (ttl == 0 || !Roomed(swept, size))
  }

  /**
   Whether it should: if less than suitable is left once stale entries are gone, or, with a
   time to live, less than was asked for.
   */
  predicate Promised(ttl: int, suitable: int, swept: seq<int>, size: int) {
    Sum(swept) < if ttl == 0 then suitable else size
  }

  /** What decides whether the promise is kept. */
  predicate Agrees(ttl: int, suitable: int, before: seq<int>, swept: seq<int>, size: int) {
    if ttl == 0 then
      suitable <= Sum(before) || Sum(swept) < suitable
    else if Sum(before) < suitable then
      Sum(swept) < size || Roomed(swept, size)
    else
      size <= Sum(swept)
  }

  lemma {:induction false} SumBounds(s: seq<int>, i: int)
    requires 0 <= i < |s| && forall j {:trigger s[j]} :: 0 <= j < |s| ==> 0 <= s[j]
    ensures s[i] <= Sum(s)
  {
    if i == 0 {
      SumNatural(s[1..]);
    } else {
      SumBounds(s[1..], i - 1);
    }
  }

  lemma {:induction false} SumNatural(s: seq<int>)
    requires forall j {:trigger s[j]} :: 0 <= j < |s| ==> 0 <= s[j]
    ensures 0 <= Sum(s)
  {
    if s != [] {
      SumNatural(s[1..]);
    }
  }

  lemma {:induction false} SumGrows(s: seq<int>, r: seq<int>)
    requires |s| == |r| && forall j {:trigger s[j]} :: 0 <= j < |s| ==> s[j] <= r[j]
    ensures Sum(s) <= Sum(r)
  {
    if s != [] {
      SumGrows(s[1..], r[1..]);
    }
  }

  /**
   The promise is kept exactly: without a time to live, if enough is available before the
   expired entries are gone or still not after; with one, if memory is short and the sweep
   leaves too little in all or enough in one segment, or else if enough is left in all.
   */
  lemma PromiseKept(ttl: int, suitable: int, before: seq<int>, swept: seq<int>, size: int)
    requires |before| == |swept| && forall i {:trigger swept[i]} :: 0 <= i < |swept| ==> 0 <= before[i] <= swept[i]
    ensures (Empties(ttl, suitable, before, swept, size) <==> Promised(ttl, suitable, swept, size)) <==>
      Agrees(ttl, suitable, before, swept, size)
  {
    SumGrows(before, swept);
    if Roomed(swept, size) {
      var i :| 0 <= i < |swept| && swept[i] > size;
      SumBounds(swept, i);
    }
  }

  lemma SumOfOne(x: int)
    ensures Sum([x]) == x
  {
    assert [x][1..] == [];
  }

  /**
   With one segment and a time to live it is broken for a request of exactly what the sweep
   leaves, and for one larger than what is suitable; without, if the sweep would be enough.
   */
  lemma PromiseOfOneSegment(ttl: int, suitable: int, before: int, swept: int, size: int)
    requires 0 <= before <= swept
    ensures (Empties(ttl, suitable, [before], [swept], size) <==> Promised(ttl, suitable, [swept], size)) <==>
      if ttl == 0 then suitable <= before || swept < suitable
      else if before < suitable then swept != size else size <= swept
  {
    SumOfOne(before);
    SumOfOne(swept);
    assert Roomed([swept], size) <==> [swept][0] > size;
  }

  // ---------------------------------------------------------------- segments that break the promise

  /** Bytes available in a segment of this shape. */
  ghost function Available(a: Arena): int
    requires WellFormed(a)
  {
    (FreeWords(a) + BLOCK) * WORD_BYTES
  }

  /** What the allocator passes on when it has no block for `m` words. */
  function Asked(m: nat): int {
    (m + MIN_BLOCK) * WORD_BYTES
  }

  /** Half a segment, which is what is suitable if `smart` is not set. */
  function Half(a: Arena): int {
    (a.last + 2 * BLOCK) * WORD_BYTES / 2
  }

  lemma FullByWords(a: Arena, m: nat)
    requires WellFormed(a) && FreeWords(a) < m + BLOCK
    ensures Full(a, m * WORD_BYTES, MIN_BLOCK)
  {
    forall o | IsFree(a, o) ensures a.blocks[o].size < RealSize(m * WORD_BYTES) {
      BlocksEndBy(a.blocks, Lo(a), a.last, o);
      BlockIsWithinFreeWords(a.blocks, Lo(a), a.last, Lo(a), o);
    }
    ChoiceFailsIffNothingFits(a, RealSize(m * WORD_BYTES));
  }

  /** A segment with `live` words handed out, and behind them a free block of `k` words. */
  function Nearly(first: int, live: int, k: int): Arena {
    var o := first + BLOCK;
    Arena(first, o + live + k, map[o := Block(live, false), o + live := Block(k, true)], [first, o + live, o + live + k])
  }

  lemma NearlyWellFormed(first: int, live: int, k: int)
    requires 0 < first && BLOCK <= live && BLOCK <= k
    ensures WellFormed(Nearly(first, live, k))
    ensures FreeWords(Nearly(first, live, k)) == k
  {
    var a := Nearly(first, live, k);
    var b, lo := a.blocks, Lo(a);
    assert Next(b, lo) == lo + live && Next(b, lo + live) == a.last;
    assert Words(b, lo, a.last, lo + live, true) == k + Words(b, lo, a.last, a.last, true);
  }

  /** Nothing fits, and what is available is exactly the size: the cache is emptied all the same. */
  lemma ExactlyTheSize(first: int, live: int, m: nat, ttl: int, suitable: int)
    requires 0 < first && BLOCK <= live && BLOCK <= m && ttl != 0 && Asked(m) < suitable
    ensures WellFormed(Nearly(first, live, m + 1))
    ensures var a := Nearly(first, live, m + 1); var avail := [Available(a)];
      && Full(a, m * WORD_BYTES, MIN_BLOCK) && Available(a) == Asked(m)
      && Empties(ttl, suitable, avail, avail, Asked(m)) && !Promised(ttl, suitable, avail, Asked(m))
  {
    var a := Nearly(first, live, m + 1);
    NearlyWellFormed(first, live, m + 1);
    FullByWords(a, m);
    PromiseOfOneSegment(ttl, suitable, Available(a), Available(a), Asked(m));
    SumOfOne(Available(a));
  }

  /** Nothing fits, and two segments have the size, or more, but only together. */
  lemma OnlyTogether(first: int, live: int, k: int, l: int, m: nat, ttl: int, suitable: int)
    requires 0 < first && BLOCK <= live && BLOCK <= k <= m + 1 && BLOCK <= l <= m + 1 && m <= k + l + 3
    requires ttl != 0 && (k + l + 2 * BLOCK) * WORD_BYTES < suitable
    ensures WellFormed(Nearly(first, live, k)) && WellFormed(Nearly(first, live, l))
    ensures var a, b := Nearly(first, live, k), Nearly(first, live, l); var avail := [Available(a), Available(b)];
      && Full(a, m * WORD_BYTES, MIN_BLOCK) && Full(b, m * WORD_BYTES, MIN_BLOCK)
      && Empties(ttl, suitable, avail, avail, Asked(m)) && !Promised(ttl, suitable, avail, Asked(m))
  {
    var a, b := Nearly(first, live, k), Nearly(first, live, l);
    NearlyWellFormed(first, live, k);
    NearlyWellFormed(first, live, l);
    FullByWords(a, m);
    FullByWords(b, m);
    var avail := [Available(a), Available(b)];
    assert avail[1..] == [Available(b)];
    SumOfOne(Available(b));
  }

  /** Nothing fits, half of the segment is available, and that is less than the size: nothing happens. */
  lemma SuitableYetLess(first: int, live: int, k: int, m: nat, ttl: int)
    requires 0 < first && BLOCK <= live && first + live + BLOCK <= k <= m && ttl != 0
    ensures WellFormed(Nearly(first, live, k))
    ensures var a := Nearly(first, live, k); var avail := [Available(a)];
      && Full(a, m * WORD_BYTES, MIN_BLOCK)
      && !Empties(ttl, Half(a), avail, avail, Asked(m)) && Promised(ttl, Half(a), avail, Asked(m))
  {
    var a := Nearly(first, live, k);
    NearlyWellFormed(first, live, k);
    FullByWords(a, m);
    SumOfOne(Available(a));
  }

  /** A segment in which a block of `due` words lies between one of `live` words and a free one of `k`. */
  function Cluttered(first: int, live: int, due: int, k: int): Arena {
    var o := first + BLOCK;
    Arena(first, o + live + due + k, map[o := Block(live, false), o + live := Block(due, false), o + live + due := Block(k, true)],
          [first, o + live + due, o + live + due + k])
  }

  lemma ClutteredTiled(first: int, live: int, due: int, k: int)
    requires 0 < first && BLOCK <= live && BLOCK <= due && BLOCK <= k
    ensures var a := Cluttered(first, live, due, k); Tiled(a.blocks, Lo(a), a.last) && Coalesced(a.blocks)
  {
    var a := Cluttered(first, live, due, k);
    forall o {:trigger Next(a.blocks, o)} | o in a.blocks
      ensures Next(a.blocks, o) == if o == Lo(a) then o + live else if o == Lo(a) + live then o + due else a.last
    {
    }
  }

  lemma ClutteredListed(first: int, live: int, due: int, k: int)
    requires 0 < first && BLOCK <= live && BLOCK <= due && BLOCK <= k
    ensures Listed(Cluttered(first, live, due, k))
  {
  }

  lemma ClutteredWellFormed(first: int, live: int, due: int, k: int)
    requires 0 < first && BLOCK <= live && BLOCK <= due && BLOCK <= k
    ensures WellFormed(Cluttered(first, live, due, k))
    ensures FreeWords(Cluttered(first, live, due, k)) == k
  {
    hide Listed, Coalesced, Tiled;
    var a := Cluttered(first, live, due, k);
    var b, lo := a.blocks, Lo(a);
    var mid := lo + live;
    ClutteredTiled(first, live, due, k);
    ClutteredListed(first, live, due, k);
    assert Next(b, lo) == mid && Next(b, mid) == mid + due && Next(b, mid + due) == a.last;
    assert Words(b, lo, a.last, mid + due, true) == k + Words(b, lo, a.last, a.last, true);
    assert Words(b, lo, a.last, mid, true) == Words(b, lo, a.last, mid + due, true);
  }

  /**
   Without a time to live: nothing fits, and giving back the block at `c`, of an entry that
   is expired, would leave what is suitable.  The cache is emptied.
   */
  lemma ExpiredEnough(a: Arena, c: int, m: nat, suitable: int)
    requires WellFormed(a) && IsLive(a, c) && FreeWords(a) < m + BLOCK
    requires Available(a) < suitable <= Available(a) + a.blocks[c].size * WORD_BYTES
    ensures WellFormed(Release(a, c)) && Full(a, m * WORD_BYTES, MIN_BLOCK)
    ensures Empties(0, suitable, [Available(a)], [Available(Release(a, c))], Asked(m))
    ensures !Promised(0, suitable, [Available(Release(a, c))], Asked(m))
  {
    hide Tiled, Coalesced, Listed, Words, Release;
    FullByWords(a, m);
    ReleaseReturnsItsBlock(a, c);
    SumOfOne(Available(a));
    SumOfOne(Available(Release(a, c)));
  }

  /** There are such segments, and the block given back would even have served the request. */
  lemma ExpiredServes(first: int, live: int, due: int, k: int, m: nat)
    requires 0 < first && BLOCK <= live && BLOCK <= due && BLOCK <= k < m + BLOCK <= k + due
    ensures WellFormed(Cluttered(first, live, due, k)) && FreeWords(Cluttered(first, live, due, k)) == k
    ensures IsLive(Cluttered(first, live, due, k), first + BLOCK + live)
    ensures !Full(Release(Cluttered(first, live, due, k), first + BLOCK + live), m * WORD_BYTES, MIN_BLOCK)
  {
    hide Tiled, Coalesced, Listed;
    var a, c := Cluttered(first, live, due, k), first + BLOCK + live;
    ClutteredWellFormed(first, live, due, k);
    ReleaseKeepsWellFormed(a, c);
    assert IsFree(Release(a, c), c) && Release(a, c).blocks[c].size == due + k;
    ChoiceFailsIffNothingFits(Release(a, c), RealSize(m * WORD_BYTES));
  }
}
