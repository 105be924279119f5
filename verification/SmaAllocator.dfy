/** The allocator over several segments, addressed by one flat address space. */
module SmaAllocator {
  import opened SmaArena
  import opened SmaLaws
  import opened SmaSegment

  const NULL := 0

  /** The payload addresses of the live blocks of an arena whose segment starts at `base`. */
  ghost function LiveOf(a: Arena, base: int): set<int> {
    set o | o in a.blocks && !a.blocks[o].free :: base + o + BLOCK
  }

  lemma LiveOfMember(a: Arena, base: int, p: int)
    ensures p in LiveOf(a, base) <==> IsLive(a, p - base - BLOCK)
  {
  }

  /** One block more is live, so one address more is handed out. */
  lemma LiveOfFollows(a: Arena, d: Arena, base: int, c: int)
    requires !IsLive(a, c) && forall o :: IsLive(d, o) <==> IsLive(a, o) || o == c
    ensures base + c + BLOCK !in LiveOf(a, base)
    ensures LiveOf(d, base) == LiveOf(a, base) + {base + c + BLOCK}
  {
    forall p ensures p in LiveOf(d, base) <==> p in LiveOf(a, base) || p == base + c + BLOCK {
      LiveOfMember(a, base, p);
      LiveOfMember(d, base, p);
    }
    LiveOfMember(a, base, base + c + BLOCK);
  }

  lemma LiveAfterAllocate(a: Arena, base: int, r: int, fragment: int)
    requires WellFormed(a) && BLOCK <= r && 0 <= fragment && Choose(a, r) < |a.links|
    ensures var k := Choose(a, r); var c := a.links[k];
      && base + c + BLOCK !in LiveOf(a, base)
      && LiveOf(Take(a, k, r, fragment), base) == LiveOf(a, base) + {base + c + BLOCK}
  {
    hide Tiled, Listed, Coalesced, LiveOf, Choose, BestOfWindow;
    var k := Choose(a, r);
    var c := a.links[k];
    var d := Take(a, k, r, fragment);
    assert Tiled(a.blocks, Lo(a), a.last);
    ChoiceIsBestOfWindow(a, r);
    if !TakenWhole(a.blocks[c].size, r, fragment) {
      CutTiled(a.blocks, Lo(a), a.last, c, r);
    }
    LiveOfFollows(a, d, base, c);
  }

  lemma LiveAfterRelease(a: Arena, base: int, c: int)
    requires WellFormed(a) && IsLive(a, c)
    ensures base + c + BLOCK in LiveOf(a, base)
    ensures LiveOf(Release(a, c), base) == LiveOf(a, base) - {base + c + BLOCK}
  {
    ReleaseKeepsWellFormed(a, c);
    forall p ensures p in LiveOf(Release(a, c), base) <==> p in LiveOf(a, base) && p != base + c + BLOCK {
      LiveOfMember(a, base, p);
      LiveOfMember(Release(a, c), base, p);
    }
    LiveOfMember(a, base, base + c + BLOCK);
  }

  // ---------------------------------------------------------------- extents

  /** The arena once the block of payload address `p`, if it is one of its own, is given back. */
  ghost function Freed(a: Arena, base: int, p: int): Arena {
    if IsLive(a, p - base - BLOCK) then Release(a, p - base - BLOCK) else a
  }

  /** The words of the block of every address handed out. */
  ghost function SizesOf(a: Arena, base: int): (m: map<int, int>)
    ensures m.Keys == LiveOf(a, base)
  {
    map p | p in LiveOf(a, base) :: if p - base - BLOCK in a.blocks then a.blocks[p - base - BLOCK].size else 0
  }

  function Only(m: map<int, int>, keep: set<int>): map<int, int> {
    map p | p in m && p in keep :: m[p]
  }

  lemma OthersStay(a: Arena, c: int, o: int)
    requires WellFormed(a) && IsLive(a, c) && IsLive(a, o) && o != c
    ensures IsLive(Release(a, c), o) && Release(a, c).blocks[o] == a.blocks[o]
  {
    hide Listed, Coalesced;
    MergeShape(a.blocks, Lo(a), a.last, c);
  }

  /** Giving one block back leaves every other live block where and as large as it was. */
  lemma FreedSizes(a: Arena, base: int, p: int)
    requires WellFormed(a)
    ensures WellFormed(Freed(a, base, p))
    ensures SizesOf(Freed(a, base, p), base) == SizesOf(a, base) - {p}
  {
    hide Tiled, Listed, Coalesced, Release;
    var c := p - base - BLOCK;
    if IsLive(a, c) {
      LiveAfterRelease(a, base, c);
      ReleaseKeepsWellFormed(a, c);
      forall q | q in SizesOf(a, base) - {p} ensures SizesOf(Release(a, c), base)[q] == SizesOf(a, base)[q] {
        LiveOfMember(a, base, q);
        OthersStay(a, c, q - base - BLOCK);
      }
    } else {
      LiveOfMember(a, base, p);
    }
  }

  /** A segment with nothing handed out is as it was at the start, and serves what fits into it. */
  lemma EmptyServes(a: Arena, base: int, n: nat, fragment: nat)
    requires WellFormed(a) && LiveOf(a, base) == {}
    ensures a == Initial(a.first, a.last)
    ensures RealSize(n) <= a.last - a.first - BLOCK <==> !Full(a, n, fragment)
  {
    hide Tiled, Listed, Coalesced;
    forall o ensures !IsLive(a, o) {
      LiveOfMember(a, base, base + o + BLOCK);
    }
    NothingLiveIsInitial(a);
    ChoiceFailsIffNothingFits(a, RealSize(n));
    assert IsFree(a, Lo(a));
  }

  /** The words taken by the blocks of the addresses from `lo` up to `hi`. */
  ghost function TakenIn(m: map<int, int>, lo: int, hi: int): int
    decreases hi - lo
  {
    if hi <= lo then 0 else (if lo in m then m[lo] else 0) + TakenIn(m, lo + 1, hi)
  }

  lemma {:induction false} TakenGap(m: map<int, int>, lo: int, mid: int, hi: int)
    requires lo <= mid <= hi && forall p :: lo <= p < mid ==> p !in m
    ensures TakenIn(m, lo, hi) == TakenIn(m, mid, hi)
    decreases mid - lo
  {
    if lo < mid {
      TakenGap(m, lo + 1, mid, hi);
    }
  }

  /** From block `o` on, the addresses handed out take the words of the live blocks. */
  lemma {:induction false} TakenIsWords(a: Arena, base: int, o: int)
    requires WellFormed(a) && (o in a.blocks || o == a.last)
    ensures TakenIn(SizesOf(a, base), base + o + BLOCK, base + a.last + BLOCK) == Words(a.blocks, Lo(a), a.last, o, false)
    decreases a.last - o
  {
    if o != a.last {
      var n, m, p := Next(a.blocks, o), SizesOf(a, base), base + o + BLOCK;
      BlocksEndBy(a.blocks, Lo(a), a.last, o);
      TakenIsWords(a, base, n);
      forall q | p < q < base + n + BLOCK ensures q !in m {
        LiveOfMember(a, base, q);
      }
      TakenGap(m, p + 1, base + n + BLOCK, base + a.last + BLOCK);
      LiveOfMember(a, base, p);
    } else {
      SentinelsAreNotBlocks(a);
    }
  }

  /** What is available is what the blocks handed out do not take. */
  lemma AvailIsRest(m: seq<int>, a: Arena, base: int)
    requires Holds(m, a)
    ensures FreeWords(a) + BLOCK == |m| - a.first - 2 * BLOCK - TakenIn(SizesOf(a, base), base, base + |m|)
  {
    hide Tagged, TaggedBut, Sentinels, OffList, Chained, InRange, Listed, Coalesced;
    var sizes, lo, hi := SizesOf(a, base), base + Lo(a) + BLOCK, base + a.last + BLOCK;
    WordsFillRegion(a.blocks, Lo(a), a.last, Lo(a));
    TakenIsWords(a, base, Lo(a));
    BlocksEndBy(a.blocks, Lo(a), a.last, Lo(a));
    forall p | p in sizes ensures lo <= p < hi {
      LiveOfMember(a, base, p);
      BlocksEndBy(a.blocks, Lo(a), a.last, p - base - BLOCK);
    }
    TakenGap(sizes, base, lo, base + |m|);
    TakenUpTo(sizes, lo, hi, base + |m|);
  }

  lemma {:induction false} TakenUpTo(m: map<int, int>, lo: int, mid: int, hi: int)
    requires lo <= mid <= hi && forall p :: mid <= p < hi ==> p !in m
    ensures TakenIn(m, lo, hi) == TakenIn(m, lo, mid)
    decreases mid - lo
  {
    if lo < mid {
      TakenUpTo(m, lo + 1, mid, hi);
    } else {
      TakenGap(m, lo, hi, hi);
    }
  }

  /** All addresses handed out, and by segment the words of their blocks. */
  datatype Book = Book(live: set<int>, sizes: seq<map<int, int>>)

  /** Between the two books blocks were given back, and nothing else happened. */
  ghost predicate Trims(b: Book, d: Book) {
    && d.live <= b.live && |d.sizes| == |b.sizes|
    && forall i {:trigger d.sizes[i]} :: 0 <= i < |b.sizes| ==> d.sizes[i] == Only(b.sizes[i], d.live)
  }

  lemma LessIsOnly(m: map<int, int>, live: set<int>, p: int)
    requires m.Keys <= live
    ensures m - {p} == Only(m, live - {p})
  {
  }

  lemma TrimsTwice(b: Book, d: Book, e: Book)
    requires Trims(b, d) && Trims(d, e)
    ensures Trims(b, e)
  {
    forall i {:trigger e.sizes[i]} | 0 <= i < |b.sizes| ensures e.sizes[i] == Only(b.sizes[i], e.live) {
      assert d.sizes[i] == Only(b.sizes[i], d.live);
    }
  }

  /** The book has a block at `p` with room for `n` bytes. */
  ghost predicate Room(b: Book, p: int, n: int) {
    exists i {:trigger b.sizes[i]} :: 0 <= i < |b.sizes| && p in b.sizes[i] && n <= (b.sizes[i][p] - BLOCK) * WORD_BYTES
  }

  lemma RoomStays(b: Book, d: Book, p: int, n: int)
    requires Trims(b, d) && p in d.live && Room(b, p, n)
    ensures Room(d, p, n)
  {
    var i :| 0 <= i < |b.sizes| && p in b.sizes[i] && n <= (b.sizes[i][p] - BLOCK) * WORD_BYTES;
    assert d.sizes[i] == Only(b.sizes[i], d.live);
  }

  lemma {:induction false} TakenLess(m: map<int, int>, keep: set<int>, more: set<int>, lo: int, hi: int)
    requires keep <= more && forall p {:trigger m[p]} :: p in m ==> 0 <= m[p]
    ensures TakenIn(Only(m, keep), lo, hi) <= TakenIn(Only(m, more), lo, hi) <= TakenIn(m, lo, hi)
    decreases hi - lo
  {
    if lo < hi {
      TakenLess(m, keep, more, lo + 1, hi);
    }
  }

  lemma SizesNatural(m: seq<int>, a: Arena, base: int)
    requires Holds(m, a)
    ensures 0 <= FreeWords(a)
    ensures forall p :: p in SizesOf(a, base) ==> 0 <= SizesOf(a, base)[p]
  {
    hide Tagged, TaggedBut, Sentinels, OffList, Chained, InRange, Listed, Coalesced;
    WordsFillRegion(a.blocks, Lo(a), a.last, Lo(a));
    forall p | p in SizesOf(a, base) ensures 0 <= SizesOf(a, base)[p] {
      LiveOfMember(a, base, p);
    }
  }

  function Sum(s: seq<int>): int {
    if s == [] then 0 else s[0] + Sum(s[1..])
  }

  // ---------------------------------------------------------------- several segments

  /** All addresses handed out: those of every segment. */
  ghost function AllLive(arenas: seq<Arena>, bases: seq<int>): set<int>
    requires |bases| == |arenas|
  {
    set i, p | 0 <= i < |arenas| && p in LiveOf(arenas[i], bases[i]) :: p
  }

  /** Segments do not overlap, so no address is handed out by two of them. */
  ghost predicate Separate(arenas: seq<Arena>, bases: seq<int>)
    requires |bases| == |arenas|
  {
    forall i, j, p {:trigger p in LiveOf(arenas[i], bases[i]), p in LiveOf(arenas[j], bases[j])} ::
      0 <= i < |arenas| && 0 <= j < |arenas| && p in LiveOf(arenas[i], bases[i]) && p in LiveOf(arenas[j], bases[j]) ==> i == j
  }

  lemma LiveInAll(arenas: seq<Arena>, bases: seq<int>, i: int)
    requires 0 <= i < |arenas| == |bases|
    ensures LiveOf(arenas[i], bases[i]) <= AllLive(arenas, bases)
  {
  }

  lemma AllLiveGains(arenas: seq<Arena>, bases: seq<int>, i: int, d: Arena, p: int)
    requires |bases| == |arenas| && 0 <= i < |arenas| && Separate(arenas[i := d], bases)
    requires LiveOf(d, bases[i]) == LiveOf(arenas[i], bases[i]) + {p} && p !in LiveOf(arenas[i], bases[i])
    ensures AllLive(arenas[i := d], bases) == AllLive(arenas, bases) + {p} && p !in AllLive(arenas, bases)
  {
    var more := arenas[i := d];
    assert p in LiveOf(more[i], bases[i]);
    forall j | 0 <= j < |arenas| && j != i ensures p !in LiveOf(arenas[j], bases[j]) {
      assert more[j] == arenas[j];
    }
    forall q ensures q in AllLive(more, bases) <==> q in AllLive(arenas, bases) || q == p {
      forall j | 0 <= j < |arenas| ensures q in LiveOf(more[j], bases[j]) <==> q in LiveOf(arenas[j], bases[j]) || (j == i && q == p) {
      }
    }
  }

  lemma AllLiveLoses(arenas: seq<Arena>, bases: seq<int>, i: int, d: Arena, p: int)
    requires |bases| == |arenas| && 0 <= i < |arenas| && Separate(arenas, bases)
    requires LiveOf(d, bases[i]) == LiveOf(arenas[i], bases[i]) - {p} && p in LiveOf(arenas[i], bases[i])
    ensures AllLive(arenas[i := d], bases) == AllLive(arenas, bases) - {p} && p in AllLive(arenas, bases)
  {
    var less := arenas[i := d];
    forall q ensures q in AllLive(less, bases) <==> q in AllLive(arenas, bases) && q != p {
      forall j | 0 <= j < |arenas| ensures q in LiveOf(less[j], bases[j]) <==> q in LiveOf(arenas[j], bases[j]) && q != p {
      }
    }
  }

  /** No block of the segment fits a request of `n` bytes. */
  ghost predicate Full(a: Arena, n: nat, fragment: nat) {
    WellFormed(a) && SmaArena.Allocate(a, RealSize(n), fragment) == NoFit
  }

  /** The arena `a` became `d` by handing out the block of payload address `p`, `granted` words long. */
  ghost predicate Served(a: Arena, d: Arena, base: int, n: nat, fragment: nat, p: int, granted: int) {
    && WellFormed(a) && p - base - BLOCK in d.blocks
    && SmaArena.Allocate(a, RealSize(n), fragment) == Fit(p - base - BLOCK, d)
    && granted == d.blocks[p - base - BLOCK].size - BLOCK && n <= granted * WORD_BYTES
  }

  lemma ServedNotFull(a: Arena, d: Arena, base: int, n: nat, fragment: nat, p: int, granted: int)
    requires Served(a, d, base, n, fragment, p, granted)
    ensures !Full(a, n, fragment)
  {
  }

  lemma ArenaWell(m: seq<int>, a: Arena)
    requires Holds(m, a)
    ensures WellFormed(a)
  {
  }

  /** Handing out a block leaves every other live block where and as large as it was. */
  lemma TakenStays(a: Arena, k: int, r: int, fragment: int, o: int)
    requires WellFormed(a) && BLOCK <= r && 0 <= fragment && 0 <= k < |a.links| && IsFree(a, a.links[k])
    requires r <= a.blocks[a.links[k]].size && IsLive(a, o)
    ensures IsLive(Take(a, k, r, fragment), o) && Take(a, k, r, fragment).blocks[o] == a.blocks[o]
  {
    hide Listed, Coalesced;
    var c := a.links[k];
    if !TakenWhole(a.blocks[c].size, r, fragment) {
      CutNext(a.blocks, Lo(a), a.last, c, r);
    }
  }

  lemma ServedSizes(a: Arena, d: Arena, base: int, n: nat, fragment: nat, p: int, granted: int)
    requires Served(a, d, base, n, fragment, p, granted)
    ensures forall q :: q in SizesOf(a, base) ==> q in SizesOf(d, base) && SizesOf(d, base)[q] == SizesOf(a, base)[q]
    ensures p in SizesOf(d, base) && n <= (SizesOf(d, base)[p] - BLOCK) * WORD_BYTES
  {
    hide Tiled, Listed, Coalesced, Choose, Take, BestOfWindow;
    var r := RealSize(n);
    var k := Choose(a, r);
    ChoiceIsBestOfWindow(a, r);
    LiveAfterAllocate(a, base, r, fragment);
    forall q | q in SizesOf(a, base) ensures q in SizesOf(d, base) && SizesOf(d, base)[q] == SizesOf(a, base)[q] {
      LiveOfMember(a, base, q);
      TakenStays(a, k, r, fragment, q - base - BLOCK);
      LiveOfMember(d, base, q);
    }
  }

  lemma BlocksApart(m: seq<int>, a: Arena, o: int, u: int)
    requires Holds(m, a) && o in a.blocks && u in a.blocks && o != u
    ensures Next(a.blocks, o) <= u || Next(a.blocks, u) <= o
  {
  }

  lemma SameKept(m: seq<int>, a: Arena)
    ensures PayloadsKept(m, m, a)
  {
  }

  /** What a segment was asked for, and what it granted. */
  datatype Grant = Grant(segment: int, n: nat, fragment: nat, at: int, granted: int)

  ghost predicate InGrant(g: Grant, a: Arena, d: Arena, base: int) {
    Served(a, d, base, g.n, g.fragment, g.at, g.granted)
  }

  class Allocator {
    const size: nat                 // words of every segment
    const segs: seq<Segment>
    var last: int                   // the segment that served last
    ghost const Repr: set<object>

    ghost predicate Valid()
      reads this, Repr
    {
      && this in Repr
      && 0 <= last < |segs|
      && (forall i {:trigger segs[i]} :: 0 <= i < |segs| ==>
            && segs[i] in Repr && segs[i].mem in Repr
            && segs[i].mem.Length == size && 0 < segs[i].base
            && segs[i].Valid())
      && (forall i, j {:trigger segs[i], segs[j]} :: 0 <= i < j < |segs| ==>
            && segs[i] != segs[j] && segs[i].mem != segs[j].mem
            && (segs[i].base + size <= segs[j].base || segs[j].base + size <= segs[i].base))
    }

    ghost function Bases(): (s: seq<int>)
      ensures |s| == |segs|
    {
      seq(|segs|, i requires 0 <= i < |segs| => segs[i].base)
    }

    ghost function Arenas(): (s: seq<Arena>)
      reads segs
      ensures |s| == |segs|
    {
      seq(|segs|, i requires 0 <= i < |segs| reads segs => segs[i].arena)
    }

    /** The addresses handed out and not yet freed. */
    ghost function Live(): (s: set<int>)
      reads segs
    {
      AllLive(Arenas(), Bases())
    }

    lemma LiveSeparate()
      requires Valid()
      ensures Separate(Arenas(), Bases())
      ensures forall i, p :: 0 <= i < |segs| && p in LiveOf(segs[i].arena, segs[i].base) ==> segs[i].base < p < segs[i].base + size
    {
    }

    lemma NothingLive(header: nat)
      requires forall i {:trigger segs[i]} :: 0 <= i < |segs| ==> segs[i].arena == Initial(header, size - 2 * BLOCK)
      ensures Live() == {}
    {
    }

    /** What is handed out, and the sizes of its blocks. */
    ghost function Books(): (b: Book)
      reads segs
      ensures b.live == Live() && |b.sizes| == |segs|
      ensures forall i {:trigger b.sizes[i]} :: 0 <= i < |segs| ==> b.sizes[i] == SizesOf(segs[i].arena, segs[i].base)
    {
      Book(Live(), seq(|segs|, i requires 0 <= i < |segs| reads segs => SizesOf(segs[i].arena, segs[i].base)))
    }

    lemma BooksTrim()
      ensures Trims(Books(), Books())
    {
      forall i {:trigger Books().sizes[i]} | 0 <= i < |segs| ensures Books().sizes[i] == Only(Books().sizes[i], Live()) {
        LiveInAll(Arenas(), Bases(), i);
      }
    }

    /** Bytes segment `i` has available if of the addresses in `b` only those in `keep` are handed out. */
    ghost function AvailIf(b: Book, keep: set<int>, i: int): int
      requires 0 <= i < |segs| == |b.sizes|
    {
      (size - segs[i].header - 2 * BLOCK - TakenIn(Only(b.sizes[i], keep), segs[i].base, segs[i].base + size)) * WORD_BYTES
    }

    ghost function AvailsIf(b: Book, keep: set<int>): (s: seq<int>)
      requires |segs| == |b.sizes|
      ensures |s| == |segs|
    {
      seq(|segs|, i requires 0 <= i < |segs| => AvailIf(b, keep, i))
    }

    /** What is available follows from an earlier book and what of it is still handed out. */
    lemma AvailKnown(b: Book, i: int)
      requires Valid() && 0 <= i < |segs| && Trims(b, Books())
      ensures segs[i].avail * WORD_BYTES == AvailIf(b, Live(), i)
    {
      AvailIsRest(segs[i].mem[..], segs[i].arena, segs[i].base);
      assert Books().sizes[i] == Only(b.sizes[i], Live());
    }

    /** The fewer addresses are handed out, the more is available. */
    lemma AvailIfLess(keep: set<int>, more: set<int>, i: int)
      requires Valid() && 0 <= i < |segs| && keep <= more
      ensures 0 <= AvailIf(Books(), more, i) <= AvailIf(Books(), keep, i)
    {
      hide Holds, LiveOf, AllLive, Listed, Coalesced;
      var s, sizes := segs[i], Books().sizes[i];
      ArenaWell(s.mem[..], s.arena);
      SizesNatural(s.mem[..], s.arena, s.base);
      AvailIsRest(s.mem[..], s.arena, s.base);
      TakenLess(sizes, keep, more, s.base, s.base + size);
    }

    lemma {:induction false} AvailFromIsSum(b: Book, i: int)
      requires Valid() && 0 <= i <= |segs| && Trims(b, Books())
      ensures AvailFrom(i) == Sum(AvailsIf(b, Live())[i..])
      decreases |segs| - i
    {
      if i < |segs| {
        AvailKnown(b, i);
        AvailFromIsSum(b, i + 1);
      }
    }

    /** A segment in which nothing live lies is as it was at the start. */
    lemma EmptySegment(i: int, n: nat, fragment: nat)
      requires Valid() && 0 <= i < |segs|
      requires forall p :: p in Live() ==> !(segs[i].base <= p < segs[i].base + size)
      ensures segs[i].arena == Initial(segs[i].header, size - 2 * BLOCK)
      ensures RealSize(n) <= size - segs[i].header - 3 * BLOCK <==> !Full(segs[i].arena, n, fragment)
    {
      hide AllLive, LiveOf, FreeWords, Full;
      LiveSeparate();
      LiveInAll(Arenas(), Bases(), i);
      ArenaWell(segs[i].mem[..], segs[i].arena);
      forall p ensures p !in LiveOf(segs[i].arena, segs[i].base) {
        assert p in LiveOf(Arenas()[i], Bases()[i]) ==> p in Live();
      }
      EmptyServes(segs[i].arena, segs[i].base, n, fragment);
    }

    /** Bytes free in all segments together, contiguous or not. */
    ghost function AvailFrom(i: int): int
      requires 0 <= i <= |segs|
      reads segs
      decreases |segs| - i
    {
      if i == |segs| then 0 else segs[i].avail * WORD_BYTES + AvailFrom(i + 1)
    }

    /** Segments of `size` words at the addresses `bases`, each with a header of `header` words. */
    constructor (size: nat, header: nat, bases: seq<int>)
      requires 0 < header && header + 4 * BLOCK <= size && 0 < |bases|
      requires forall i {:trigger bases[i]} :: 0 <= i < |bases| ==> 0 < bases[i]
      requires forall i, j {:trigger bases[i], bases[j]} :: 0 <= i < j < |bases| ==>
        bases[i] + size <= bases[j] || bases[j] + size <= bases[i]
      ensures Valid() && fresh(Repr) && Live() == {} && |segs| == |bases| && this.size == size
    {
      hide Holds, FreeWords, Initial;
      var made: seq<Segment> := [];
      ghost var repr: set<object> := {};
      for k := 0 to |bases|
        invariant |made| == k && fresh(repr)
        invariant forall i {:trigger made[i]} :: 0 <= i < k ==>
          && made[i] in repr && made[i].mem in repr && fresh(made[i]) && fresh(made[i].mem)
          && made[i].base == bases[i] && made[i].mem.Length == size && made[i].Valid()
          && made[i].arena == Initial(header, size - 2 * BLOCK)
        invariant forall i, j {:trigger made[i], made[j]} :: 0 <= i < j < k ==> made[i] != made[j] && made[i].mem != made[j].mem
      {
        var s := new Segment(size, header, bases[k]);
        made := made + [s];
        repr := repr + {s, s.mem};
      }
      this.size := size;
      segs := made;
      last := 0;
      Repr := repr + {this};
      new;
      NothingLive(header);
    }

    /** Tries segment `i` alone. */
    method TrySegment(i: int, n: nat, fragment: nat) returns (p: int, granted: int)
      requires Valid() && 0 <= i < |segs|
      modifies segs[i], segs[i].mem
      ensures Valid() && last == old(last)
      ensures p == NULL <==> Full(old(segs[i].arena), n, fragment)
      ensures p == NULL ==> segs[i].arena == old(segs[i].arena) && segs[i].mem[..] == old(segs[i].mem[..])
      ensures p != NULL ==> p !in old(Live()) && Live() == old(Live()) + {p}
      ensures p != NULL ==> Served(old(segs[i].arena), segs[i].arena, segs[i].base, n, fragment, p, granted)
      ensures PayloadsKept(old(segs[i].mem[..]), segs[i].mem[..], old(segs[i].arena))
    {
      hide Holds, LiveOf, AllLive, PayloadsKept, FreeWords, Tiled, Listed, Coalesced, Separate, Take, Choose;
      ghost var a, arenas := segs[i].arena, Arenas();
      var off;
      off, granted := segs[i].Allocate(n, fragment);
      p := if off == -1 then NULL else segs[i].base + off;
      assert Arenas() == arenas[i := segs[i].arena];
      if off != -1 {
        LiveSeparate();
        LiveAfterAllocate(a, segs[i].base, RealSize(n), fragment);
        AllLiveGains(arenas, Bases(), i, segs[i].arena, p);
      } else {
        SameKept(segs[i].mem[..], a);
      }
    }

    /** No word of any live payload differs from what it was. */
    twostate predicate PayloadsStand()
      reads this, segs, set i | 0 <= i < |segs| :: segs[i].mem
    {
      forall i {:trigger segs[i]} :: 0 <= i < |segs| ==>
        PayloadsKept(old(segs[i].mem[..]), segs[i].mem[..], old(segs[i].arena))
    }

    /** Every segment reads as it did. */
    twostate predicate Untouched()
      reads this, segs, set i | 0 <= i < |segs| :: segs[i].mem
    {
      forall i {:trigger segs[i]} :: 0 <= i < |segs| ==>
        segs[i].mem[..] == old(segs[i].mem[..]) && segs[i].arena == old(segs[i].arena)
    }

    twostate lemma UntouchedStands()
      requires Untouched()
      ensures PayloadsStand() && Live() == old(Live())
    {
      assert Arenas() == old(Arenas());
    }

    twostate lemma UntouchedBooks()
      requires Untouched()
      ensures Books() == old(Books())
    {
      UntouchedStands();
    }

    /** The block at `p` has room for `n` bytes, and those handed out before have what they had. */
    twostate predicate Rooms(p: int, n: int)
      reads segs
    {
      Room(Books(), p, n) && forall q, m {:trigger Room(Books(), q, m)} :: Room(old(Books()), q, m) ==> Room(Books(), q, m)
    }

    twostate lemma ServedRooms(g: Grant)
      requires 0 <= g.segment < |segs|
      requires InGrant(g, old(segs[g.segment].arena), segs[g.segment].arena, segs[g.segment].base)
      requires forall j {:trigger segs[j]} :: 0 <= j < |segs| && j != g.segment ==> segs[j].arena == old(segs[j].arena)
      ensures Rooms(g.at, g.n)
    {
      hide LiveOf, AllLive, SizesOf, Served, Live;
      var b, d, i := old(Books()), Books(), g.segment;
      ServedSizes(old(segs[i].arena), segs[i].arena, segs[i].base, g.n, g.fragment, g.at, g.granted);
      assert g.at in d.sizes[i] && g.n <= (d.sizes[i][g.at] - BLOCK) * WORD_BYTES;
      forall q, m {:trigger Room(d, q, m)} | Room(b, q, m) ensures Room(d, q, m) {
        var j :| 0 <= j < |b.sizes| && q in b.sizes[j] && m <= (b.sizes[j][q] - BLOCK) * WORD_BYTES;
        assert j != i ==> segs[j].arena == old(segs[j].arena);
        assert q in d.sizes[j] && d.sizes[j][q] == b.sizes[j][q];
      }
    }

    /** What two live blocks have room for does not overlap, in bytes of the flat address space. */
    lemma RoomsApart(p: int, q: int, n: int, m: int)
      requires Valid() && p != q && Room(Books(), p, n) && Room(Books(), q, m)
      ensures p * WORD_BYTES + n <= q * WORD_BYTES || q * WORD_BYTES + m <= p * WORD_BYTES
    {
      hide Valid, SizesOf, Live;
      var b := Books();
      var i :| 0 <= i < |b.sizes| && p in b.sizes[i] && n <= (b.sizes[i][p] - BLOCK) * WORD_BYTES;
      var j :| 0 <= j < |b.sizes| && q in b.sizes[j] && m <= (b.sizes[j][q] - BLOCK) * WORD_BYTES;
      PayloadsApart(i, j, p, q);
    }

    lemma PayloadsApart(i: int, j: int, p: int, q: int)
      requires Valid() && 0 <= i < |segs| && 0 <= j < |segs| && p != q
      requires p in SizesOf(segs[i].arena, segs[i].base) && q in SizesOf(segs[j].arena, segs[j].base)
      ensures || p + SizesOf(segs[i].arena, segs[i].base)[p] - BLOCK <= q
              || q + SizesOf(segs[j].arena, segs[j].base)[q] - BLOCK <= p
    {
      hide LiveOf, AllLive, Live, Holds;
      BlockWithin(i, p);
      BlockWithin(j, q);
      if i == j {
        LiveOfMember(segs[i].arena, segs[i].base, p);
        LiveOfMember(segs[i].arena, segs[i].base, q);
        BlocksApart(segs[i].mem[..], segs[i].arena, p - segs[i].base - BLOCK, q - segs[i].base - BLOCK);
      }
    }

    lemma BlockWithin(i: int, p: int)
      requires Valid() && 0 <= i < |segs| && p in SizesOf(segs[i].arena, segs[i].base)
      ensures segs[i].base < p && p + SizesOf(segs[i].arena, segs[i].base)[p] - BLOCK <= segs[i].base + size
    {
      hide Coalesced, Listed, Chained, InRange, FreeWords;
      var a := segs[i].arena;
      LiveOfMember(a, segs[i].base, p);
      BlocksEndBy(a.blocks, Lo(a), a.last, p - segs[i].base - BLOCK);
    }

    /** Tries segment `i`, and says what that means for all of them. */
    method Try(i: int, n: nat, fragment: nat) returns (p: int, granted: int)
      requires Valid() && 0 <= i < |segs|
      modifies segs[i], segs[i].mem
      ensures Valid() && last == old(last)
      ensures p == NULL <==> Full(old(segs[i].arena), n, fragment)
      ensures p == NULL ==> Untouched()
      ensures p != NULL ==> p !in old(Live()) && Live() == old(Live()) + {p}
      ensures p != NULL ==> Served(old(segs[i].arena), segs[i].arena, segs[i].base, n, fragment, p, granted)
      ensures forall j {:trigger segs[j]} :: 0 <= j < |segs| && j != i ==>
        segs[j].mem[..] == old(segs[j].mem[..]) && segs[j].arena == old(segs[j].arena)
      ensures PayloadsStand() && (p != NULL ==> Rooms(p, n))
    {
      hide Holds, LiveOf, AllLive, PayloadsKept, Full, Served, FreeWords, Rooms;
      p, granted := TrySegment(i, n, fragment);
      if p != NULL {
        ServedRooms(Grant(i, n, fragment, p, granted));
      }
      forall j | 0 <= j < |segs| && j != i ensures PayloadsKept(old(segs[j].mem[..]), segs[j].mem[..], old(segs[j].arena)) {
        assert segs[j].mem != segs[i].mem;
        SameKept(segs[j].mem[..], segs[j].arena);
      }
    }

    /** The segment that served is the one that served last, or else the first of the others that is not full. */
    twostate predicate InTurn(first: int, i: int, n: nat, fragment: nat, p: int, granted: int)
      requires 0 <= i < |segs| && 0 <= first < |segs|
      reads this, segs, set i | 0 <= i < |segs| :: segs[i].mem
    {
      && Served(old(segs[i].arena), segs[i].arena, segs[i].base, n, fragment, p, granted)
      && (i == first || Full(old(segs[first].arena), n, fragment))
      && (i != first ==> forall j {:trigger segs[j]} :: 0 <= j < i ==> Full(old(segs[j].arena), n, fragment))
      && forall j {:trigger segs[j]} :: 0 <= j < |segs| && j != i ==>
           segs[j].mem[..] == old(segs[j].mem[..]) && segs[j].arena == old(segs[j].arena)
    }

    /**
     One attempt to allocate `n` bytes: the segment that served last first, then the
     others in order.  It fails only if no segment has a fitting block.
     */
    method MallocOnce(n: nat, fragment: nat) returns (p: int, granted: int)
      requires Valid()
      modifies Repr
      ensures Valid()
      ensures p == NULL <==> forall i {:trigger segs[i]} :: 0 <= i < |segs| ==> Full(old(segs[i].arena), n, fragment)
      ensures p == NULL ==> Untouched() && last == old(last)
      ensures p != NULL ==> p !in old(Live()) && Live() == old(Live()) + {p}
      ensures 0 <= last < |segs| && (p != NULL ==> InTurn(old(last), last, n, fragment, p, granted))
      ensures PayloadsStand() && (p != NULL ==> Rooms(p, n))
    {
      hide Holds, LiveOf, AllLive, PayloadsKept, Full, Served, FreeWords, Live, AvailFrom, Valid, Books, Room;
      LastIsOne();
      Owns(last);
      p, granted := Try(last, n, fragment);
      if p != NULL {
        ServedNotFull(old(segs[last].arena), segs[last].arena, segs[last].base, n, fragment, p, granted);
        return;
      }
      UntouchedStands();
      UntouchedBooks();
      p, granted := TryOthers(n, fragment);
    }

    /** Tries the segments other than the one that served last, in order. */
    method TryOthers(n: nat, fragment: nat) returns (p: int, granted: int)
      requires Valid() && 0 <= last < |segs| && Full(segs[last].arena, n, fragment)
      modifies Repr
      ensures Valid() && 0 <= last < |segs|
      ensures p == NULL <==> forall i {:trigger segs[i]} :: 0 <= i < |segs| ==> Full(old(segs[i].arena), n, fragment)
      ensures p == NULL ==> Untouched() && last == old(last)
      ensures p != NULL ==> p !in old(Live()) && Live() == old(Live()) + {p}
      ensures p != NULL ==> InTurn(old(last), last, n, fragment, p, granted)
      ensures PayloadsStand() && (p != NULL ==> Rooms(p, n))
    {
      hide Holds, LiveOf, AllLive, PayloadsKept, Full, Served, FreeWords, Live, AvailFrom, Valid, Books, Room;
      p, granted := NULL, 0;
      LastIsOne();
      UntouchedStands();
      var i := 0;
      while i < |segs|
        invariant 0 <= i <= |segs| && Valid() && last == old(last) && p == NULL
        invariant Untouched()
        invariant forall j {:trigger segs[j]} :: 0 <= j < i ==> Full(old(segs[j].arena), n, fragment)
      {
        if i != last {
          UntouchedStands();
          UntouchedBooks();
          Owns(i);
          p, granted := Try(i, n, fragment);
          if p != NULL {
            ServedNotFull(old(segs[i].arena), segs[i].arena, segs[i].base, n, fragment, p, granted);
            MakeLast(i);
            return;
          }
        }
        i := i + 1;
      }
      UntouchedStands();
    }

    lemma LastIsOne()
      requires Valid()
      ensures 0 <= last < |segs| && this in Repr
    {
    }

    lemma Owns(i: int)
      requires Valid() && 0 <= i < |segs|
      ensures segs[i] in Repr && segs[i].mem in Repr && this in Repr
    {
    }

    /** Segment `i` is tried first the next time. */
    method MakeLast(i: int)
      requires Valid() && 0 <= i < |segs|
      modifies this`last
      ensures Valid() && last == i
    {
      last := i;
    }

    /** A live address lies in the range of one segment only, which holds its block. */
    lemma LiveLocated(p: int)
      requires Valid() && p in Live()
      ensures 0 < p
      ensures exists i :: 0 <= i < |segs| && segs[i].base <= p < segs[i].base + size
      ensures forall i {:trigger segs[i]} :: 0 <= i < |segs| && segs[i].base <= p < segs[i].base + size ==>
        p in LiveOf(segs[i].arena, segs[i].base)
    {
    }

    lemma NotLiveElsewhere(p: int)
      requires Valid() && forall i {:trigger segs[i]} :: 0 <= i < |segs| ==> !(segs[i].base <= p < segs[i].base + size)
      ensures p !in Live()
    {
    }

    /** The payloads of the blocks that are still live read as they did. */
    twostate predicate RemainingStand()
      reads this, segs, set i | 0 <= i < |segs| :: segs[i].mem
    {
      forall i {:trigger segs[i]} :: 0 <= i < |segs| ==>
        PayloadsKept(old(segs[i].mem[..]), segs[i].mem[..], segs[i].arena)
    }

    method FreeIn(i: int, p: int)
      requires Valid() && 0 <= i < |segs| && p in LiveOf(segs[i].arena, segs[i].base)
      modifies segs[i], segs[i].mem
      ensures Valid() && last == old(last)
      ensures Live() == old(Live()) - {p} && RemainingStand()
      ensures segs[i].arena == Freed(old(segs[i].arena), segs[i].base, p)
    {
      hide Holds, LiveOf, AllLive, PayloadsKept, FreeWords, AvailFrom;
      ghost var a, arenas := segs[i].arena, Arenas();
      LiveSeparate();
      LiveOfMember(a, segs[i].base, p);
      var size := segs[i].Deallocate(p - segs[i].base);
      LiveAfterRelease(a, segs[i].base, p - segs[i].base - BLOCK);
      assert Arenas() == arenas[i := segs[i].arena];
      AllLiveLoses(arenas, Bases(), i, segs[i].arena, p);
      forall j | 0 <= j < |segs| && j != i ensures PayloadsKept(old(segs[j].mem[..]), segs[j].mem[..], segs[j].arena) {
        assert segs[j].mem != segs[i].mem;
        SameKept(segs[j].mem[..], segs[j].arena);
      }
    }

    /** Returns the block at payload address `p` to the segment it lies in, if any. */
    method Free(p: int)
      requires Valid()
      requires p == NULL || p in Live() || forall i {:trigger segs[i]} :: 0 <= i < |segs| ==> !(segs[i].base <= p < segs[i].base + size)
      modifies Repr
      ensures Valid() && last == old(last)
      ensures Live() == old(Live()) - {p}
      ensures RemainingStand()
      ensures forall i {:trigger segs[i]} :: 0 <= i < |segs| ==> segs[i].arena == Freed(old(segs[i].arena), segs[i].base, p)
    {
      hide Holds, LiveOf, AllLive, PayloadsKept, FreeWords, AvailFrom, Live, Release;
      if p in Live() {
        LiveLocated(p);
      }
      ItselfStands();
      OwnedByRange(p);
      if p == NULL {
        return;
      }
      var i := 0;
      while i < |segs|
        invariant 0 <= i <= |segs|
        invariant forall j {:trigger segs[j]} :: 0 <= j < i ==> !(segs[j].base <= p < segs[j].base + size)
      {
        if segs[i].base <= p < segs[i].base + size {
          FreeIn(i, p);
          return;
        }
        i := i + 1;
      }
      NotLiveElsewhere(p);
    }

    /** An address outside the range of a segment is not that of one of its blocks. */
    lemma OwnedByRange(p: int)
      requires Valid()
      ensures forall i {:trigger segs[i]} :: 0 <= i < |segs| && !(segs[i].base < p < segs[i].base + size) ==>
        !IsLive(segs[i].arena, p - segs[i].base - BLOCK)
    {
      LiveSeparate();
      forall i | 0 <= i < |segs| && IsLive(segs[i].arena, p - segs[i].base - BLOCK) ensures segs[i].base < p < segs[i].base + size {
        LiveOfMember(segs[i].arena, segs[i].base, p);
      }
    }

    /** What giving a block back does to the books. */
    twostate lemma FreedBooks(p: int)
      requires old(Valid())
      requires forall i {:trigger segs[i]} :: 0 <= i < |segs| ==> segs[i].arena == Freed(old(segs[i].arena), segs[i].base, p)
      requires Live() == old(Live()) - {p}
      ensures Trims(old(Books()), Books())
    {
      hide Holds, LiveOf, AllLive, Freed, SizesOf, FreeWords, Books, WellFormed;
      forall i {:trigger Books().sizes[i]} | 0 <= i < |segs| ensures Books().sizes[i] == Only(old(Books().sizes[i]), Live()) {
        assert WellFormed(old(segs[i].arena)) by { ArenaWell(old(segs[i].mem[..]), old(segs[i].arena)); }
        FreedSizes(old(segs[i].arena), segs[i].base, p);
        LiveInAll(old(Arenas()), Bases(), i);
        LessIsOnly(old(Books().sizes[i]), old(Live()), p);
      }
    }

    twostate lemma ItselfStands()
      requires forall i {:trigger segs[i]} :: 0 <= i < |segs| ==> segs[i].mem[..] == old(segs[i].mem[..])
      ensures RemainingStand()
    {
    }

    /** Bytes available in all segments together. */
    method GetAvailMem() returns (total: int)
      requires Valid()
      ensures total == AvailFrom(0)
    {
      total := 0;
      var i := 0;
      while i < |segs|
        invariant 0 <= i <= |segs| && total + AvailFrom(i) == AvailFrom(0)
      {
        total := total + segs[i].avail * WORD_BYTES;
        i := i + 1;
      }
    }

    /** Whether some segment has more than `n` bytes available. */
    method GetAvailSize(n: nat) returns (found: bool)
      requires Valid()
      ensures found <==> exists i :: 0 <= i < |segs| && segs[i].avail * WORD_BYTES > n
    {
      var i := 0;
      while i < |segs|
        invariant 0 <= i <= |segs|
        invariant forall j :: 0 <= j < i ==> segs[j].avail * WORD_BYTES <= n
      {
        if segs[i].avail * WORD_BYTES > n {
          return true;
        }
        i := i + 1;
      }
      found := false;
    }
  }
}
