/**
 The block structure of one shared-memory segment, as a value.

 Offsets and sizes count machine words of `WORD_BYTES` bytes: every size and
 offset the allocator stores is a multiple of the word.  An arena is the region
 between the two size-0 sentinels, at `first` and at `last`.
 */
module SmaArena {

  const WORD_BYTES := 8
  // words of a block header: size, prev_size, fnext, fprev
  const BLOCK := 4
  // smallest block a split may leave behind: one payload word and a header
  const MIN_BLOCK := 1 + BLOCK
  // how many further list members are examined for a better fit
  const BEST_FIT_LIMIT := 3

  datatype Block = Block(size: int, free: bool)

  /** `links` is the free list in list order, both sentinels included. */
  datatype Arena = Arena(first: int, last: int, blocks: map<int, Block>, links: seq<int>)

  datatype Placement = NoFit | Fit(at: int, arena: Arena)

  /** Words needed for a request of `n` bytes: the header plus the payload, rounded up. */
  function RealSize(n: nat): (r: int)
    ensures BLOCK <= r
    ensures (r - BLOCK) * WORD_BYTES >= n
    ensures (r - BLOCK) * WORD_BYTES < n + WORD_BYTES
  {
    1 + (n + BLOCK * WORD_BYTES - 1) / WORD_BYTES
  }

  // ---------------------------------------------------------------- blocks

  type Blocks = map<int, Block>

  /** Offset of the physical successor of block `o`. */
  function Next(b: Blocks, o: int): int
    requires o in b
  {
    o + b[o].size
  }

  predicate FreeAt(b: Blocks, o: int) {
    o in b && b[o].free
  }

  /** The blocks cover the words from `lo` to `hi` without gap or overlap. */
  ghost predicate Tiled(b: Blocks, lo: int, hi: int) {
    && lo in b
    && (forall o {:trigger b[o]} {:trigger o in b} :: o in b ==> lo <= o && BLOCK <= b[o].size)
    && (forall o {:trigger Next(b, o)} :: o in b ==> Next(b, o) == hi || (Next(b, o) < hi && Next(b, o) in b))
    && (forall o, p {:trigger Next(b, o), p in b} :: o in b && p in b && o < p ==> Next(b, o) <= p)
  }

  /** No two free blocks touch. */
  ghost predicate Coalesced(b: Blocks) {
    forall o {:trigger Next(b, o)} :: FreeAt(b, o) ==> !FreeAt(b, Next(b, o))
  }

  lemma BlocksEndBy(b: Blocks, lo: int, hi: int, o: int)
    requires Tiled(b, lo, hi) && o in b
    ensures lo <= o && o + BLOCK <= Next(b, o) <= hi
  {
  }

  /** Block `c` with its free mark set to `free`. */
  function Marked(b: Blocks, c: int, free: bool): Blocks
    requires c in b
  {
    b[c := Block(b[c].size, free)]
  }

  /** Block `c` cut in two, the first part having `r` words. */
  function Cut(b: Blocks, c: int, r: int): Blocks
    requires c in b
  {
    b[c := Block(r, b[c].free)][c + r := Block(b[c].size - r, b[c].free)]
  }

  /** Block `c` extended over its physical successor. */
  function Fused(b: Blocks, c: int): Blocks
    requires c in b && Next(b, c) in b
  {
    (b - {Next(b, c)})[c := Block(b[c].size + b[Next(b, c)].size, b[c].free)]
  }

  lemma MarkedTiled(b: Blocks, lo: int, hi: int, c: int, free: bool)
    requires Tiled(b, lo, hi) && c in b
    ensures Tiled(Marked(b, c, free), lo, hi)
  {
    var d := Marked(b, c, free);
    assert forall o {:trigger Next(d, o)} :: o in d ==> Next(d, o) == Next(b, o);
  }

  lemma CutNext(b: Blocks, lo: int, hi: int, c: int, r: int)
    requires Tiled(b, lo, hi) && c in b && BLOCK <= r && r + BLOCK <= b[c].size
    ensures c + r !in b
    ensures forall o {:trigger Next(Cut(b, c, r), o)} {:trigger o in Cut(b, c, r)} :: o in Cut(b, c, r) ==>
      && (o in b || o == c + r)
      && Next(Cut(b, c, r), o) == (if o == c then c + r else if o == c + r then Next(b, c) else Next(b, o))
  {
  }

  lemma CutTiled(b: Blocks, lo: int, hi: int, c: int, r: int)
    requires Tiled(b, lo, hi) && c in b && BLOCK <= r && r + BLOCK <= b[c].size
    ensures Tiled(Cut(b, c, r), lo, hi)
    ensures c + r !in b
  {
    CutNext(b, lo, hi, c, r);
    var d := Cut(b, c, r);
    forall o {:trigger Next(d, o)} | o in d ensures Next(d, o) == hi || (Next(d, o) < hi && Next(d, o) in d) {
      assert o in b ==> Next(b, o) <= hi;
    }
    forall o, p {:trigger Next(d, o), p in d} | o in d && p in d && o < p ensures Next(d, o) <= p {
      CutApart(b, lo, hi, c, r, o, p);
    }
  }

  lemma CutApart(b: Blocks, lo: int, hi: int, c: int, r: int, o: int, p: int)
    requires Tiled(b, lo, hi) && c in b && BLOCK <= r && r + BLOCK <= b[c].size
    requires o in Cut(b, c, r) && p in Cut(b, c, r) && o < p
    ensures Next(Cut(b, c, r), o) <= p
  {
    hide Cut, Next;
    CutNext(b, lo, hi, c, r);
    NextIs(b, c);
    assert o in b && c < o ==> Next(b, c) <= o;
    assert p in b && c < p ==> Next(b, c) <= p;
    if o in b && o != c {
      if p in b {
        assert Next(b, o) <= p;
      } else {
        assert o < c ==> Next(b, o) <= c;
      }
    }
  }

  lemma NextIs(b: Blocks, o: int)
    requires o in b
    ensures Next(b, o) == o + b[o].size
  {
  }

  lemma FusedNext(b: Blocks, lo: int, hi: int, c: int)
    requires Tiled(b, lo, hi) && c in b && Next(b, c) in b
    ensures c < Next(b, c)
    ensures forall o {:trigger Next(Fused(b, c), o)} {:trigger o in Fused(b, c)} :: o in Fused(b, c) ==>
      && o in b && o != Next(b, c)
      && Next(Fused(b, c), o) == (if o == c then Next(b, Next(b, c)) else Next(b, o))
  {
  }

  lemma FusedTiled(b: Blocks, lo: int, hi: int, c: int)
    requires Tiled(b, lo, hi) && c in b && Next(b, c) in b
    ensures Tiled(Fused(b, c), lo, hi)
  {
    FusedNext(b, lo, hi, c);
    var d := Fused(b, c);
    forall o {:trigger Next(d, o)} | o in d ensures Next(d, o) == hi || (Next(d, o) < hi && Next(d, o) in d) {
      BlocksEndBy(b, lo, hi, o);
    }
    forall o, p {:trigger Next(d, o), p in d} | o in d && p in d && o < p ensures Next(d, o) <= p {
      assert Next(b, o) <= p;
      if o == c {
        assert Next(b, Next(b, c)) <= p;
      }
    }
  }

  // ---------------------------------------------------------------- the arena

  function Lo(a: Arena): int {
    a.first + BLOCK
  }

  predicate IsFree(a: Arena, o: int) {
    FreeAt(a.blocks, o)
  }

  predicate IsLive(a: Arena, o: int) {
    o in a.blocks && !a.blocks[o].free
  }

  function SizeAt(a: Arena, o: int): int {
    if o in a.blocks then a.blocks[o].size else 0
  }

  ghost predicate Distinct(s: seq<int>) {
    forall i, j :: 0 <= i < j < |s| ==> s[i] != s[j]
  }

  /** The free list holds exactly the free blocks, each once, between the sentinels. */
  ghost predicate Listed(a: Arena) {
    && 2 <= |a.links|
    && a.links[0] == a.first
    && a.links[|a.links| - 1] == a.last
    && Distinct(a.links)
    && (forall o :: o in a.links <==> o == a.first || o == a.last || IsFree(a, o))
  }

  ghost predicate WellFormed(a: Arena) {
    && 0 < a.first
    && Tiled(a.blocks, Lo(a), a.last)
    && Coalesced(a.blocks)
    && Listed(a)
  }

  /** The arena that initialisation builds: one free block covering everything. */
  function Initial(first: int, last: int): Arena {
    Arena(first, last, map[first + BLOCK := Block(last - first - BLOCK, true)], [first, first + BLOCK, last])
  }

  lemma InitialWellFormed(first: int, last: int)
    requires 0 < first && first + 2 * BLOCK <= last
    ensures WellFormed(Initial(first, last))
  {
  }

  lemma SentinelsAreNotBlocks(a: Arena)
    requires WellFormed(a)
    ensures a.first !in a.blocks && a.last !in a.blocks
  {
    if a.last in a.blocks {
      BlocksEndBy(a.blocks, Lo(a), a.last, a.last);
    }
  }

  // ---------------------------------------------------------------- choosing a block

  /** Index of the first list member from `i` on with at least `r` words, or the length. */
  function FirstFit(a: Arena, r: int, i: int): (f: int)
    requires 0 <= i <= |a.links|
    ensures i <= f <= |a.links|
    ensures forall j :: i <= j < f ==> SizeAt(a, a.links[j]) < r
    ensures f < |a.links| ==> SizeAt(a, a.links[f]) >= r
    decreases |a.links| - i
  {
    if i == |a.links| || SizeAt(a, a.links[i]) >= r then i else FirstFit(a, r, i + 1)
  }

  /** Scans up to `k` members from `j` on for one that fits and is smaller than `best`. */
  function Improve(a: Arena, r: int, j: int, k: nat, best: int): (b: int)
    requires 0 <= best < j <= |a.links|
    requires SizeAt(a, a.links[best]) >= r
    ensures 0 <= b < |a.links|
    ensures b == best || j <= b < j + k
    ensures SizeAt(a, a.links[b]) >= r
    decreases k
  {
    if k == 0 || j == |a.links| then best
    else if SizeAt(a, a.links[j]) >= r && SizeAt(a, a.links[j]) < SizeAt(a, a.links[best]) then
      Improve(a, r, j + 1, k - 1, j)
    else
      Improve(a, r, j + 1, k - 1, best)
  }

  /** The list index the search settles on, or the length if nothing fits. */
  function Choose(a: Arena, r: int): (k: int)
    requires 2 <= |a.links|
    ensures 0 < k <= |a.links|
    ensures k < |a.links| ==> SizeAt(a, a.links[k]) >= r
  {
    var f := FirstFit(a, r, 1);
    if f == |a.links| then f else Improve(a, r, f + 1, BEST_FIT_LIMIT, f)
  }

  lemma {:induction false} ImproveIsSmallest(a: Arena, r: int, j: int, k: nat, best: int)
    requires 0 <= best < j <= |a.links|
    requires SizeAt(a, a.links[best]) >= r
    ensures var b := Improve(a, r, j, k, best);
      && SizeAt(a, a.links[b]) <= SizeAt(a, a.links[best])
      && (b != best ==> SizeAt(a, a.links[b]) < SizeAt(a, a.links[best]))
      && (forall m :: j <= m < j + k && m < |a.links| && SizeAt(a, a.links[m]) >= r
           ==> SizeAt(a, a.links[b]) <= SizeAt(a, a.links[m]))
    decreases k
  {
    if k != 0 && j < |a.links| {
      if SizeAt(a, a.links[j]) >= r && SizeAt(a, a.links[j]) < SizeAt(a, a.links[best]) {
        ImproveIsSmallest(a, r, j + 1, k - 1, j);
      } else {
        ImproveIsSmallest(a, r, j + 1, k - 1, best);
      }
    }
  }

  /** Member `k` is the smallest that fits among first fit `f` and the three members after it. */
  ghost predicate BestOfWindow(a: Arena, r: int, k: int, f: int) {
    && 1 <= f <= k <= f + 3
    && k < |a.links|
    && SizeAt(a, a.links[f]) >= r
    && SizeAt(a, a.links[k]) >= r
    && (forall m :: 1 <= m < f ==> SizeAt(a, a.links[m]) < r)
    && (forall m :: f <= m <= f + 3 && m < |a.links| && SizeAt(a, a.links[m]) >= r
         ==> SizeAt(a, a.links[k]) <= SizeAt(a, a.links[m]))
  }

  /** The search fails exactly when no free block has `r` words. */
  lemma ChoiceFailsIffNothingFits(a: Arena, r: int)
    requires WellFormed(a) && BLOCK <= r
    ensures Choose(a, r) == |a.links| <==> forall o :: IsFree(a, o) ==> a.blocks[o].size < r
  {
    var f := FirstFit(a, r, 1);
    SentinelsAreNotBlocks(a);
    if f < |a.links| {
      assert a.links[f] in a.links && IsFree(a, a.links[f]);
    } else {
      forall o | IsFree(a, o) ensures a.blocks[o].size < r {
        assert o in a.links;
        var i :| 0 <= i < |a.links| && a.links[i] == o;
        assert i != 0;
        assert SizeAt(a, a.links[i]) < r;
      }
    }
  }

  /** When the search succeeds it settles on a free block, the best of its window. */
  lemma ChoiceIsBestOfWindow(a: Arena, r: int)
    requires WellFormed(a) && BLOCK <= r
    requires Choose(a, r) < |a.links|
    ensures var k := Choose(a, r);
      && 0 < k < |a.links| - 1
      && IsFree(a, a.links[k])
      && a.blocks[a.links[k]].size >= r
      && BestOfWindow(a, r, k, FirstFit(a, r, 1))
  {
    var f := FirstFit(a, r, 1);
    ImproveIsSmallest(a, r, f + 1, BEST_FIT_LIMIT, f);
    SentinelsAreNotBlocks(a);
    var k := Choose(a, r);
    assert a.links[k] in a.links;
  }

  // ---------------------------------------------------------------- allocating

  /** Whether a chosen block is handed out whole rather than split. */
  predicate TakenWhole(size: int, r: int, fragment: int) {
    size == r || (size > r && size < r + (MIN_BLOCK + fragment))
  }

  function Take(a: Arena, k: int, r: int, fragment: int): Arena
    requires 0 <= k < |a.links| && a.links[k] in a.blocks
  {
    var c := a.links[k];
    if TakenWhole(a.blocks[c].size, r, fragment) then
      a.(blocks := Marked(a.blocks, c, false), links := a.links[..k] + a.links[k + 1..])
    else
      a.(blocks := Marked(Cut(a.blocks, c, r), c, false), links := a.links[k := c + r])
  }

  /** What an allocation of `r` words does to the arena. */
  function Allocate(a: Arena, r: int, fragment: int): Placement
    requires 2 <= |a.links| && 0 < r
  {
    var k := Choose(a, r);
    if k == |a.links| then NoFit else Fit(a.links[k], Take(a, k, r, fragment))
  }

  ghost predicate ListIndex(a: Arena, k: int) {
    0 < k < |a.links| - 1 && IsFree(a, a.links[k])
  }

  /** Dropping the one occurrence of a member leaves exactly the others. */
  lemma OnceOnly(s: seq<int>, k: int)
    requires Distinct(s) && 0 <= k < |s|
    ensures var t := s[..k] + s[k + 1..]; Distinct(t) && forall o :: o in t <==> o in s && o != s[k]
  {
  }

  /** Replacing a member by a new one exchanges the two. */
  lemma Exchanged(s: seq<int>, k: int, x: int)
    requires Distinct(s) && 0 <= k < |s| && x !in s
    ensures Distinct(s[k := x]) && forall o :: o in s[k := x] <==> o == x || (o in s && o != s[k])
  {
    var t := s[k := x];
    forall o ensures o in t <==> o == x || (o in s && o != s[k]) {
      if o in s && o != s[k] {
        var i :| 0 <= i < |s| && s[i] == o;
        assert t[i] == o;
      }
      assert t[k] == x;
    }
  }

  lemma TakeWholeWellFormed(a: Arena, k: int)
    requires WellFormed(a) && ListIndex(a, k)
    ensures WellFormed(a.(blocks := Marked(a.blocks, a.links[k], false), links := a.links[..k] + a.links[k + 1..]))
  {
    var c := a.links[k];
    var d := Marked(a.blocks, c, false);
    MarkedTiled(a.blocks, Lo(a), a.last, c, false);
    assert Coalesced(d) by {
      assert forall o {:trigger Next(d, o)} :: o in d ==> Next(d, o) == Next(a.blocks, o);
    }
    SentinelsAreNotBlocks(a);
    OnceOnly(a.links, k);
  }

  lemma SplitWellFormed(a: Arena, k: int, r: int)
    requires WellFormed(a) && ListIndex(a, k) && BLOCK <= r && r + BLOCK <= a.blocks[a.links[k]].size
    ensures WellFormed(a.(blocks := Marked(Cut(a.blocks, a.links[k], r), a.links[k], false),
                          links := a.links[k := a.links[k] + r]))
  {
    hide Tiled, Listed, Coalesced, Marked;
    var c := a.links[k];
    var b := a.blocks;
    FreeLink(a, k);
    CutTiled(b, Lo(a), a.last, c, r);
    MarkedTiled(Cut(b, c, r), Lo(a), a.last, c, false);
    SplitCoalesced(b, Lo(a), a.last, c, r);
    SplitListed(a, k, r);
  }

  lemma FreeLink(a: Arena, k: int)
    requires Listed(a) && ListIndex(a, k)
    ensures a.links[k] in a.blocks && a.blocks[a.links[k]].free
  {
  }

  lemma SplitCoalesced(b: map<int, Block>, lo: int, last: int, c: int, r: int)
    requires Tiled(b, lo, last) && Coalesced(b) && c in b && b[c].free && BLOCK <= r && r + BLOCK <= b[c].size
    ensures Coalesced(Marked(Cut(b, c, r), c, false))
  {
    var d := Marked(Cut(b, c, r), c, false);
    CutTiled(b, lo, last, c, r);
    assert Next(d, c + r) == Next(b, c) && Next(d, c) == c + r;
    assert forall o {:trigger Next(d, o)} :: o in b && o != c ==> Next(d, o) == Next(b, o);
  }

  lemma SplitListed(a: Arena, k: int, r: int)
    requires WellFormed(a) && ListIndex(a, k) && BLOCK <= r && r + BLOCK <= a.blocks[a.links[k]].size
    ensures Listed(a.(blocks := Marked(Cut(a.blocks, a.links[k], r), a.links[k], false),
                      links := a.links[k := a.links[k] + r]))
  {
    var c := a.links[k];
    var b := a.blocks;
    var d := Marked(Cut(b, c, r), c, false);
    SentinelsAreNotBlocks(a);
    BlocksEndBy(b, Lo(a), a.last, c);
    CutTiled(b, Lo(a), a.last, c, r);
    assert c + r !in a.links;
    Exchanged(a.links, k, c + r);
    var e := a.(blocks := d, links := a.links[k := c + r]);
    forall o ensures o in e.links <==> o == e.first || o == e.last || IsFree(e, o) {
      assert o in e.links <==> o == c + r || (o in a.links && o != c);
      assert IsFree(e, o) <==> o == c + r || (o != c && IsFree(a, o));
    }
  }

  /** Allocation keeps the arena well formed. */
  lemma AllocateKeepsWellFormed(a: Arena, r: int, fragment: int)
    requires WellFormed(a) && BLOCK <= r && 0 <= fragment
    requires Choose(a, r) < |a.links|
    ensures ListIndex(a, Choose(a, r))
    ensures WellFormed(Take(a, Choose(a, r), r, fragment))
  {
    hide WellFormed, BestOfWindow, Choose;
    var k := Choose(a, r);
    ChoiceIsBestOfWindow(a, r);
    if TakenWhole(a.blocks[a.links[k]].size, r, fragment) {
      TakeWholeWellFormed(a, k);
    } else {
      SplitWellFormed(a, k, r);
    }
  }

  // ---------------------------------------------------------------- releasing

  ghost predicate IsPredecessor(b: Blocks, p: int, c: int) {
    p in b && Next(b, p) == c
  }

  /** Start of the free block that physically precedes `c`, or `c` if there is none. */
  ghost function MergeStart(b: Blocks, c: int): (s: int)
    ensures s != c ==> FreeAt(b, s) && IsPredecessor(b, s, c)
    ensures s == c ==> forall p :: IsPredecessor(b, p, c) && p != c ==> !FreeAt(b, p)
  {
    if p :| p != c && IsPredecessor(b, p, c) && FreeAt(b, p) then p else c
  }

  function Without(s: seq<int>, x: int): seq<int> {
    if s == [] then [] else if s[0] == x then s[1..] else [s[0]] + Without(s[1..], x)
  }

  /** The blocks after `c` is freed: it absorbs a free neighbour on either side. */
  ghost function Merged(b: Blocks, c: int): Blocks
    requires c in b
  {
    var s := MergeStart(b, c);
    var b1 := Marked(b, c, true);
    var b2 := if s == c then b1 else Fused(b1, s);
    var n := Next(b2, s);
    if FreeAt(b2, n) then Fused(b2, s) else b2
  }

  /** The free list after `c` is freed: merged neighbours leave it, the result goes to its head. */
  ghost function Relinked(a: Arena, c: int): seq<int>
    requires c in a.blocks
  {
    var s := MergeStart(a.blocks, c);
    var n := Next(a.blocks, c);
    var kept := Without(a.links, s);
    var rest := if FreeAt(a.blocks, n) then Without(kept, n) else kept;
    [a.first, s] + (if rest == [] then [] else rest[1..])
  }

  /** What releasing live block `c` does to the arena. */
  ghost function Release(a: Arena, c: int): Arena
    requires c in a.blocks
  {
    a.(blocks := Merged(a.blocks, c), links := Relinked(a, c))
  }
}
