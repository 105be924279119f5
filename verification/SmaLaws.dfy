/** What allocation and release keep, undo and conserve. */
module SmaLaws {
  import opened SmaArena

  // ---------------------------------------------------------------- release keeps the structure

  /** `Without` drops the one occurrence of a member and leaves the others in order. */
  lemma {:induction false} WithoutMember(s: seq<int>, k: int)
    requires Distinct(s) && 0 <= k < |s|
    ensures Without(s, s[k]) == s[..k] + s[k + 1..]
  {
    if k != 0 {
      assert s[0] != s[k];
      assert s[1..][k - 1] == s[k];
      WithoutMember(s[1..], k - 1);
      assert s[..k] == [s[0]] + s[1..][..k - 1];
      assert s[k + 1..] == s[1..][k..];
    }
  }

  lemma {:induction false} WithoutStranger(s: seq<int>, x: int)
    requires x !in s
    ensures Without(s, x) == s
  {
    if s != [] {
      WithoutStranger(s[1..], x);
    }
  }

  lemma WithoutMembers(s: seq<int>, x: int)
    requires Distinct(s)
    ensures Distinct(Without(s, x))
    ensures forall o :: o in Without(s, x) <==> o in s && o != x
    ensures s != [] && s[0] != x ==> Without(s, x) != [] && Without(s, x)[0] == s[0]
    ensures s != [] && s[|s| - 1] != x ==> Without(s, x) != [] && Without(s, x)[|Without(s, x)| - 1] == s[|s| - 1]
  {
    if x in s {
      var k :| 0 <= k < |s| && s[k] == x;
      WithoutMember(s, k);
      OnceOnly(s, k);
    } else {
      WithoutStranger(s, x);
    }
  }

  /** Sizes of the pieces a release joins. */
  lemma MergeShape(b: Blocks, lo: int, hi: int, c: int)
    requires Tiled(b, lo, hi) && c in b
    ensures var s := MergeStart(b, c); var n := Next(b, c); var d := Merged(b, c);
      && Tiled(d, lo, hi)
      && s in d && d[s].free
      && Next(d, s) == (if FreeAt(b, n) then Next(b, n) else n)
      && (forall o :: o in d && o != s ==> o in b && o != c && (o != n || !FreeAt(b, n)) && d[o] == b[o])
      && (forall o :: o in b && o != s && o != c && (o != n || !FreeAt(b, n)) ==> o in d)
  {
    var s := MergeStart(b, c);
    var n := Next(b, c);
    BlocksEndBy(b, lo, hi, c);
    if s != c {
      BlocksEndBy(b, lo, hi, s);
    }
    var b1 := Marked(b, c, true);
    MarkedTiled(b, lo, hi, c, true);
    assert Next(b1, c) == n;
    var b2 := if s == c then b1 else Fused(b1, s);
    if s != c {
      assert Next(b, s) == c == Next(b1, s);
      FusedTiled(b1, lo, hi, s);
      assert Next(b2, s) == n;
    }
    assert FreeAt(b2, n) == FreeAt(b, n);
    if FreeAt(b2, n) {
      FusedTiled(b2, lo, hi, s);
    }
  }

  lemma MergedCoalesced(b: Blocks, lo: int, hi: int, c: int)
    requires Tiled(b, lo, hi) && Coalesced(b) && c in b && !b[c].free
    ensures Coalesced(Merged(b, c))
  {
    var s := MergeStart(b, c);
    var n := Next(b, c);
    var d := Merged(b, c);
    MergeShape(b, lo, hi, c);
    forall o {:trigger Next(d, o)} | FreeAt(d, o) ensures !FreeAt(d, Next(d, o)) {
      if o == s {
        BlocksEndBy(b, lo, hi, c);
        if FreeAt(b, n) {
          BlocksEndBy(b, lo, hi, n);
        }
      } else {
        assert Next(d, o) == Next(b, o);
        assert Next(b, o) == c ==> IsPredecessor(b, o, c);
      }
    }
  }

  /** The members that stay when the merged neighbours have left the list. */
  ghost function Rest(a: Arena, c: int): seq<int>
    requires c in a.blocks
  {
    var kept := Without(a.links, MergeStart(a.blocks, c));
    var n := Next(a.blocks, c);
    if FreeAt(a.blocks, n) then Without(kept, n) else kept
  }

  lemma RestShape(a: Arena, c: int)
    requires WellFormed(a) && IsLive(a, c)
    ensures var rest := Rest(a, c); var s := MergeStart(a.blocks, c); var n := Next(a.blocks, c);
      && |rest| >= 2 && rest[0] == a.first && rest[|rest| - 1] == a.last && Distinct(rest)
      && (forall o :: o in rest <==> o in a.links && o != s && (o != n || !FreeAt(a.blocks, n)))
  {
    var s := MergeStart(a.blocks, c);
    var kept := Without(a.links, s);
    SentinelsAreNotBlocks(a);
    WithoutMembers(a.links, s);
    WithoutMembers(kept, Next(a.blocks, c));
  }

  lemma PushedAfterHead(rest: seq<int>, s: int)
    requires |rest| >= 2 && Distinct(rest) && s !in rest
    ensures var t := [rest[0], s] + rest[1..];
      Distinct(t) && t[|t| - 1] == rest[|rest| - 1] && forall o :: o in t <==> o == s || o in rest
  {
  }

  lemma RelinkedListed(a: Arena, c: int)
    requires WellFormed(a) && IsLive(a, c)
    ensures Listed(Release(a, c))
  {
    var s := MergeStart(a.blocks, c);
    var n := Next(a.blocks, c);
    var r := Release(a, c);
    MergeShape(a.blocks, Lo(a), a.last, c);
    RestShape(a, c);
    PushedAfterHead(Rest(a, c), s);
    forall o ensures o in r.links <==> o == r.first || o == r.last || IsFree(r, o) {
      SentinelsAreNotBlocks(a);
      assert o in r.links <==> o == s || o in Rest(a, c);
    }
  }

  /** Releasing a live block keeps the arena well formed. */
  lemma ReleaseKeepsWellFormed(a: Arena, c: int)
    requires WellFormed(a) && IsLive(a, c)
    ensures WellFormed(Release(a, c))
    ensures forall o :: IsLive(Release(a, c), o) <==> IsLive(a, o) && o != c
  {
    MergeShape(a.blocks, Lo(a), a.last, c);
    MergedCoalesced(a.blocks, Lo(a), a.last, c);
    RelinkedListed(a, c);
  }

  // ---------------------------------------------------------------- conservation of words

  /** Words in blocks whose free mark is `free`, from block `o` to the end. */
  ghost function Words(b: Blocks, lo: int, hi: int, o: int, free: bool): int
    requires Tiled(b, lo, hi) && (o in b || o == hi)
    decreases hi - o
  {
    if o == hi || o !in b then 0
    else (if b[o].free == free then b[o].size else 0) + Words(b, lo, hi, Next(b, o), free)
  }

  /** Free and allocated words together always fill the region. */
  lemma {:induction false} WordsFillRegion(b: Blocks, lo: int, hi: int, o: int)
    requires Tiled(b, lo, hi) && (o in b || o == hi)
    ensures Words(b, lo, hi, o, true) + Words(b, lo, hi, o, false) == hi - o
    ensures Words(b, lo, hi, o, true) >= 0
    decreases hi - o
  {
    if o != hi {
      WordsFillRegion(b, lo, hi, Next(b, o));
    } else if o in b {
      BlocksEndBy(b, lo, hi, o);
    }
  }

  ghost predicate AgreeFrom(b: Blocks, d: Blocks, c: int) {
    forall x {:trigger x in b} {:trigger x in d} :: c <= x ==> (x in b <==> x in d) && (x in b && x in d ==> b[x] == d[x])
  }

  ghost predicate AgreeBelow(b: Blocks, d: Blocks, c: int) {
    forall x {:trigger x in b} {:trigger x in d} :: x < c ==> (x in b <==> x in d) && (x in b && x in d ==> b[x] == d[x])
  }

  lemma {:induction false} SameTail(b: Blocks, d: Blocks, lo: int, hi: int, o: int)
    requires Tiled(b, lo, hi) && Tiled(d, lo, hi) && (o in b || o == hi) && AgreeFrom(b, d, o)
    ensures o in d || o == hi
    ensures Words(d, lo, hi, o, true) == Words(b, lo, hi, o, true)
    decreases hi - o
  {
    if o in b && o != hi {
      SameTail(b, d, lo, hi, Next(b, o));
    }
  }

  lemma {:induction false} SameHead(b: Blocks, d: Blocks, lo: int, hi: int, o: int, c: int)
    requires Tiled(b, lo, hi) && Tiled(d, lo, hi) && o in b && c in b && c in d && o <= c && AgreeBelow(b, d, c)
    ensures o in d
    ensures Words(d, lo, hi, o, true) - Words(d, lo, hi, c, true)
         == Words(b, lo, hi, o, true) - Words(b, lo, hi, c, true)
    decreases c - o
  {
    BlocksEndBy(b, lo, hi, c);
    if o < c {
      BlocksEndBy(b, lo, hi, o);
      SameHead(b, d, lo, hi, Next(b, o), c);
    }
  }

  lemma MarkedWords(b: Blocks, lo: int, hi: int, c: int, free: bool)
    requires Tiled(b, lo, hi) && c in b && b[c].free != free
    ensures Tiled(Marked(b, c, free), lo, hi)
    ensures Words(Marked(b, c, free), lo, hi, lo, true)
         == Words(b, lo, hi, lo, true) + (if free then b[c].size else -b[c].size)
  {
    var d := Marked(b, c, free);
    MarkedTiled(b, lo, hi, c, free);
    BlocksEndBy(b, lo, hi, c);
    SameHead(b, d, lo, hi, lo, c);
    SameTail(b, d, lo, hi, Next(b, c));
    assert Next(d, c) == Next(b, c);
  }

  lemma CutWords(b: Blocks, lo: int, hi: int, c: int, r: int)
    requires Tiled(b, lo, hi) && c in b && BLOCK <= r && r + BLOCK <= b[c].size
    ensures Tiled(Cut(b, c, r), lo, hi)
    ensures Words(Cut(b, c, r), lo, hi, lo, true) == Words(b, lo, hi, lo, true)
  {
    var d := Cut(b, c, r);
    CutTiled(b, lo, hi, c, r);
    BlocksEndBy(b, lo, hi, c);
    SameHead(b, d, lo, hi, lo, c);
    SameTail(b, d, lo, hi, Next(b, c));
    assert Next(d, c + r) == Next(b, c) && Next(d, c) == c + r;
    BlocksEndBy(d, lo, hi, c + r);
  }

  lemma FusedWords(b: Blocks, lo: int, hi: int, c: int)
    requires Tiled(b, lo, hi) && c in b && Next(b, c) in b && b[Next(b, c)].free == b[c].free
    ensures Tiled(Fused(b, c), lo, hi)
    ensures Words(Fused(b, c), lo, hi, lo, true) == Words(b, lo, hi, lo, true)
  {
    var d := Fused(b, c);
    var n := Next(b, c);
    FusedTiled(b, lo, hi, c);
    BlocksEndBy(b, lo, hi, c);
    BlocksEndBy(b, lo, hi, n);
    SameHead(b, d, lo, hi, lo, c);
    SameTail(b, d, lo, hi, Next(b, n));
    assert Next(d, c) == Next(b, n);
  }

  /** The free words of an arena. */
  ghost function FreeWords(a: Arena): int
    requires WellFormed(a)
  {
    Words(a.blocks, Lo(a), a.last, Lo(a), true)
  }

  /**
   An allocation takes exactly its block's words from the free words.  What is left of the
   block chosen is split off exactly if it is at least a smallest block and the allowance.
   */
  lemma AllocateTakesItsBlock(a: Arena, r: int, fragment: int)
    requires WellFormed(a) && BLOCK <= r && 0 <= fragment && Choose(a, r) < |a.links|
    ensures var k := Choose(a, r); var d := Take(a, k, r, fragment); var c := a.links[k];
      && WellFormed(d) && IsLive(d, c)
      && FreeWords(d) == FreeWords(a) - d.blocks[c].size
      && r <= d.blocks[c].size < r + MIN_BLOCK + fragment
      && d.blocks[c].size == if a.blocks[c].size < r + 5 + fragment then a.blocks[c].size else r
  {
    var k := Choose(a, r);
    var c := a.links[k];
    AllocateKeepsWellFormed(a, r, fragment);
    ChoiceIsBestOfWindow(a, r);
    if TakenWhole(a.blocks[c].size, r, fragment) {
      WholeTakesItsBlock(a, k);
    } else {
      SplitTakesItsBlock(a, k, r);
    }
  }

  lemma WholeTakesItsBlock(a: Arena, k: int)
    requires WellFormed(a) && ListIndex(a, k)
    ensures var d := a.(blocks := Marked(a.blocks, a.links[k], false), links := a.links[..k] + a.links[k + 1..]);
      WellFormed(d) && FreeWords(d) == FreeWords(a) - a.blocks[a.links[k]].size
  {
    TakeWholeWellFormed(a, k);
    MarkedWords(a.blocks, Lo(a), a.last, a.links[k], false);
  }

  lemma SplitTakesItsBlock(a: Arena, k: int, r: int)
    requires WellFormed(a) && ListIndex(a, k) && BLOCK <= r && r + BLOCK <= a.blocks[a.links[k]].size
    ensures var c := a.links[k];
      var d := a.(blocks := Marked(Cut(a.blocks, c, r), c, false), links := a.links[k := c + r]);
      WellFormed(d) && FreeWords(d) == FreeWords(a) - r
  {
    hide Tiled, Listed, Coalesced, Words;
    var c := a.links[k];
    SplitWellFormed(a, k, r);
    assert Tiled(a.blocks, Lo(a), a.last);
    CutWords(a.blocks, Lo(a), a.last, c, r);
    MarkedWords(Cut(a.blocks, c, r), Lo(a), a.last, c, false);
  }

  /** A release gives exactly the block's words back. */
  lemma ReleaseReturnsItsBlock(a: Arena, c: int)
    requires WellFormed(a) && IsLive(a, c)
    ensures WellFormed(Release(a, c))
    ensures FreeWords(Release(a, c)) == FreeWords(a) + a.blocks[c].size
  {
    hide Tiled, Listed, Coalesced, Words;
    ReleaseKeepsWellFormed(a, c);
    assert Tiled(a.blocks, Lo(a), a.last);
    var b := a.blocks;
    var s := MergeStart(b, c);
    var b1 := Marked(b, c, true);
    MarkedWords(b, Lo(a), a.last, c, true);
    var b2 := if s == c then b1 else Fused(b1, s);
    if s != c {
      assert Next(b1, s) == c;
      FusedWords(b1, Lo(a), a.last, s);
    }
    if FreeAt(b2, Next(b2, s)) {
      FusedWords(b2, Lo(a), a.last, s);
    }
  }

  /** The early exit is sound: a block of `r` words needs `r` free words. */
  lemma {:induction false} BlockIsWithinFreeWords(b: Blocks, lo: int, hi: int, o: int, c: int)
    requires Tiled(b, lo, hi) && o in b && FreeAt(b, c) && o <= c
    ensures b[c].size <= Words(b, lo, hi, o, true)
    decreases hi - o
  {
    BlocksEndBy(b, lo, hi, o);
    if o != c {
      assert Next(b, o) <= c;
      BlocksEndBy(b, lo, hi, c);
      BlockIsWithinFreeWords(b, lo, hi, Next(b, o), c);
    } else {
      WordsFillRegion(b, lo, hi, Next(b, o));
    }
  }

  // ---------------------------------------------------------------- release undoes allocation

  /** The free list with member `k` moved to the head. */
  ghost function MovedToHead(links: seq<int>, k: int): seq<int>
    requires 0 < k < |links|
  {
    [links[0], links[k]] + links[1..k] + links[k + 1..]
  }

  /**
   Allocating and at once releasing the block gives back the very same blocks; the
   only trace is that the block has moved to the head of the free list.
   */
  lemma ReleaseUndoesAllocate(a: Arena, r: int, fragment: int)
    requires WellFormed(a) && BLOCK <= r && 0 <= fragment && Choose(a, r) < |a.links|
    ensures var k := Choose(a, r); var d := Take(a, k, r, fragment);
      && a.links[k] in d.blocks
      && Release(d, a.links[k]) == a.(links := MovedToHead(a.links, k))
  {
    hide WellFormed, Release, BestOfWindow, Choose;
    var k := Choose(a, r);
    ChoiceIsBestOfWindow(a, r);
    if TakenWhole(a.blocks[a.links[k]].size, r, fragment) {
      ReleaseUndoesTakeWhole(a, k);
    } else {
      ReleaseUndoesSplit(a, k, r);
    }
  }

  lemma ReleaseUndoesTakeWhole(a: Arena, k: int)
    requires WellFormed(a) && ListIndex(a, k)
    ensures var c := a.links[k];
      var d := a.(blocks := Marked(a.blocks, c, false), links := a.links[..k] + a.links[k + 1..]);
      Release(d, c) == a.(links := MovedToHead(a.links, k))
  {
    var c := a.links[k];
    var b := Marked(a.blocks, c, false);
    var rest := a.links[..k] + a.links[k + 1..];
    var d := a.(blocks := b, links := rest);
    assert MergeStart(b, c) == c by {
      assert forall p :: IsPredecessor(b, p, c) && p != c ==> IsPredecessor(a.blocks, p, c);
    }
    assert Next(b, c) == Next(a.blocks, c);
    assert !FreeAt(b, Next(b, c));
    assert Marked(b, c, true) == a.blocks;
    OnceOnly(a.links, k);
    WithoutStranger(rest, c);
    assert rest[1..] == a.links[1..k] + a.links[k + 1..];
  }

  lemma MergeUndoesCut(a: Arena, c: int, r: int)
    requires WellFormed(a) && IsFree(a, c) && BLOCK <= r && r + BLOCK <= a.blocks[c].size
    ensures var b := Marked(Cut(a.blocks, c, r), c, false);
      MergeStart(b, c) == c && FreeAt(b, c + r) && Next(b, c) == c + r && Merged(b, c) == a.blocks
  {
    var b := Marked(Cut(a.blocks, c, r), c, false);
    BlocksEndBy(a.blocks, Lo(a), a.last, c);
    assert MergeStart(b, c) == c by {
      assert forall p :: IsPredecessor(b, p, c) && p != c ==> p == c + r || IsPredecessor(a.blocks, p, c);
    }
    CutTiled(a.blocks, Lo(a), a.last, c, r);
    var b1 := Marked(b, c, true);
    assert Next(b1, c) == c + r && FreeAt(b1, c + r);
    assert Fused(b1, c) == a.blocks;
  }

  lemma SplitMembers(a: Arena, k: int, r: int)
    requires WellFormed(a) && ListIndex(a, k) && BLOCK <= r && r + BLOCK <= a.blocks[a.links[k]].size
    ensures Distinct(a.links[k := a.links[k] + r]) && a.links[k] !in a.links[k := a.links[k] + r]
    ensures a.links[0] == a.first
  {
    SplitWellFormed(a, k, r);
  }

  lemma ReleaseUndoesSplit(a: Arena, k: int, r: int)
    requires WellFormed(a) && ListIndex(a, k) && BLOCK <= r && r + BLOCK <= a.blocks[a.links[k]].size
    ensures var c := a.links[k];
      var d := a.(blocks := Marked(Cut(a.blocks, c, r), c, false), links := a.links[k := c + r]);
      Release(d, c) == a.(links := MovedToHead(a.links, k))
  {
    hide WellFormed, Marked, Cut, Merged, MergeStart;
    var c := a.links[k];
    var links := a.links[k := c + r];
    SplitMembers(a, k, r);
    MergeUndoesCut(a, c, r);
    WithoutStranger(links, c);
    WithoutMember(links, k);
    var rest := links[..k] + links[k + 1..];
    assert rest[1..] == a.links[1..k] + a.links[k + 1..];
  }

  // ---------------------------------------------------------------- releasing everything

  /** The arena after releasing the blocks of `order` one after the other. */
  ghost function ReleaseAll(a: Arena, order: seq<int>): Arena
    requires WellFormed(a) && Distinct(order) && forall c :: c in order ==> IsLive(a, c)
    decreases |order|
  {
    if order == [] then a
    else
      ReleaseKeepsWellFormed(a, order[0]);
      assert forall i :: 1 <= i < |order| ==> order[i] != order[0];
      ReleaseAll(Release(a, order[0]), order[1..])
  }

  /** With nothing live, coalescing leaves one free block: the initial arena. */
  lemma NothingLiveIsInitial(a: Arena)
    requires WellFormed(a) && forall o :: !IsLive(a, o)
    ensures a == Initial(a.first, a.last)
  {
    var lo := Lo(a);
    assert !IsLive(a, lo) && IsFree(a, lo);
    assert Next(a.blocks, lo) == a.last by {
      assert !IsLive(a, Next(a.blocks, lo));
    }
    forall o | o in a.blocks ensures o == lo {
      BlocksEndBy(a.blocks, lo, a.last, o);
    }
    assert a.blocks == map[lo := Block(a.last - lo, true)];
    SentinelsAreNotBlocks(a);
    assert lo in a.links;
    assert |a.links| > 3 ==> a.links[1] != a.links[2];
    forall j | 0 < j < |a.links| - 1 ensures a.links[j] == lo {
      assert a.links[j] in a.links;
    }
    assert |a.links| >= 3 && a.links[1] == lo;
    assert a.links == [a.first, lo, a.last];
  }

  /** Releasing every live block, in any order, gives back the initial arena. */
  lemma {:induction false} ReleaseAllResets(a: Arena, order: seq<int>)
    requires WellFormed(a) && Distinct(order) && forall c :: c in order <==> IsLive(a, c)
    ensures ReleaseAll(a, order) == Initial(a.first, a.last)
    decreases |order|
  {
    if order == [] {
      NothingLiveIsInitial(a);
    } else {
      ReleaseKeepsWellFormed(a, order[0]);
      assert forall i :: 1 <= i < |order| ==> order[i] != order[0];
      assert forall c :: c in order <==> c == order[0] || c in order[1..];
      ReleaseAllResets(Release(a, order[0]), order[1..]);
    }
  }
}
