/** The iterator over the live entries, which fetches whole slots, a chunk at a time. */
module Iterator {
  import opened CacheTable
  import opened Collections
  import opened CacheLaws
  import opened CacheLayout
  import CacheRuns
  import C = Cache
  import S = Stack
  import SmaAllocator

  const DEFAULT_CHUNK_SIZE: nat := 100

  // ---------------------------------------------------------------- the scan in one go

  /** Whether the iterator shows an entry. */
  predicate Shown(e: Entry, matches: string -> bool, t: int) {
    !HardExpired(e, t) && matches(e.key)
  }

  function Picks(c: Chain, matches: string -> bool, t: int): Chain {
    if c == [] then [] else (if Shown(c[0], matches, t) then [c[0]] else []) + Picks(c[1..], matches, t)
  }

  /** The entries shown from slot `s` on, in order. */
  function Scan(slots: seq<Chain>, s: nat, matches: string -> bool, t: int): Chain
    requires s <= |slots|
    decreases |slots| - s
  {
    if s == |slots| then [] else Picks(slots[s], matches, t) + Scan(slots, s + 1, matches, t)
  }

  /** How many entries of a list have key `k`. */
  function Times(c: Chain, k: string): nat {
    if c == [] then 0 else (if c[0].key == k then 1 else 0) + Times(c[1..], k)
  }

  function HitsOf(c: Chain): int {
    if c == [] then 0 else c[0].hits + HitsOf(c[1..])
  }

  lemma {:induction false} ChainsJoin(a: Chain, b: Chain, k: string)
    ensures Times(a + b, k) == Times(a, k) + Times(b, k)
    ensures ChainMem(a + b) == ChainMem(a) + ChainMem(b) && HitsOf(a + b) == HitsOf(a) + HitsOf(b)
  {
    if a == [] {
      assert a + b == b;
    } else {
      assert (a + b)[1..] == a[1..] + b;
      ChainsJoin(a[1..], b, k);
    }
  }

  /** Sizes and hits add up entry by entry. */
  lemma {:induction false} SumsOf(c: Chain, i: nat)
    requires i < |c|
    ensures ChainMem(c) == ChainMem(c[..i]) + c[i].mem + ChainMem(c[i + 1..])
    ensures HitsOf(c) == HitsOf(c[..i]) + c[i].hits + HitsOf(c[i + 1..])
  {
    if i == 0 {
      assert c[..0] == [];
    } else {
      SumsOf(c[1..], i - 1);
      assert c[1..][..i - 1] == c[..i][1..] && c[1..][i..] == c[i + 1..];
    }
  }

  lemma {:induction false} PicksTimes(c: Chain, matches: string -> bool, t: int, k: string)
    requires forall i, j {:trigger c[i], c[j]} :: 0 <= i < j < |c| ==> c[i].key != c[j].key
    ensures Times(Picks(c, matches, t), k) == if IndexOf(c, k) < |c| && Shown(c[IndexOf(c, k)], matches, t) then 1 else 0
  {
    if c != [] {
      PicksTimes(c[1..], matches, t, k);
      var first := if Shown(c[0], matches, t) then [c[0]] else [];
      ChainsJoin(first, Picks(c[1..], matches, t), k);
      assert forall i :: 0 <= i < |c[1..]| ==> c[1..][i].key != c[0].key;
    }
  }

  /** What one slot shows of key `k`: its entry, once, if it is in that slot. */
  lemma SlotTimes(cfg: Config, tbl: Table, s: nat, matches: string -> bool, t: int, k: string)
    requires Usable(cfg) && Hashed(cfg, tbl) && s < |tbl.slots|
    ensures Times(Picks(tbl.slots[s], matches, t), k) ==
      if s == Slot(cfg, k) && Stored(cfg, tbl, k).Some? && Shown(Stored(cfg, tbl, k).value, matches, t) then 1 else 0
  {
    var c := tbl.slots[s];
    assert forall i, j {:trigger c[i], c[j]} :: InSlot(tbl, s, j) && 0 <= i < j ==> c[i].key != c[j].key;
    PicksTimes(c, matches, t, k);
    assert forall i {:trigger c[i]} :: InSlot(tbl, s, i) ==> Slot(cfg, c[i].key) == s;
  }

  /** What the scan from slot `s` on shows of key `k`: its entry, once, or nothing. */
  lemma {:induction false} ScanTimes(cfg: Config, tbl: Table, s: nat, matches: string -> bool, t: int, k: string)
    requires Usable(cfg) && |tbl.slots| == cfg.nslots && Hashed(cfg, tbl) && s <= |tbl.slots|
    ensures Times(Scan(tbl.slots, s, matches, t), k) ==
      if s <= Slot(cfg, k) && Stored(cfg, tbl, k).Some? && Shown(Stored(cfg, tbl, k).value, matches, t) then 1 else 0
    decreases |tbl.slots| - s
  {
    hide Hashed, Stored, Shown, Picks;
    if s < |tbl.slots| {
      ScanTimes(cfg, tbl, s + 1, matches, t, k);
      SlotTimes(cfg, tbl, s, matches, t, k);
      ChainsJoin(Picks(tbl.slots[s], matches, t), Scan(tbl.slots, s + 1, matches, t), k);
    }
  }

  /** The key matches, and there is an entry of it whose time is not over. */
  predicate Wanted(cfg: Config, tbl: Table, matches: string -> bool, t: int, k: string)
    requires Usable(cfg) && |tbl.slots| == cfg.nslots
  {
    matches(k) && Stored(cfg, tbl, k).Some? && var e := Stored(cfg, tbl, k).value; e.ttl == 0 || t <= e.ctime + e.ttl
  }

  /** The scan shows every live matching entry exactly once, and nothing else. */
  lemma ScanShowsOnce(cfg: Config, tbl: Table, matches: string -> bool, t: int, k: string)
    requires Usable(cfg) && Hashed(cfg, tbl)
    ensures Times(Scan(tbl.slots, 0, matches, t), k) == if Wanted(cfg, tbl, matches, t, k) then 1 else 0
  {
    ScanTimes(cfg, tbl, 0, matches, t, k);
  }

  lemma {:induction false} PicksAreShown(c: Chain, matches: string -> bool, t: int)
    ensures forall e :: e in Picks(c, matches, t) ==> e in c && Shown(e, matches, t)
  {
    if c != [] {
      PicksAreShown(c[1..], matches, t);
    }
  }

  /** What it shows are the entries themselves. */
  lemma {:induction false} ScanShowsStored(cfg: Config, tbl: Table, s: nat, matches: string -> bool, t: int)
    requires Usable(cfg) && Hashed(cfg, tbl) && s <= |tbl.slots| == cfg.nslots
    ensures forall e {:trigger e in Scan(tbl.slots, s, matches, t)} :: e in Scan(tbl.slots, s, matches, t) ==>
      Stored(cfg, tbl, e.key) == Some(e) && Wanted(cfg, tbl, matches, t, e.key)
    decreases |tbl.slots| - s
  {
    hide Hashed, Stored, Picks;
    if s < |tbl.slots| {
      ScanShowsStored(cfg, tbl, s + 1, matches, t);
      PicksAreShown(tbl.slots[s], matches, t);
      forall e | e in tbl.slots[s] ensures Stored(cfg, tbl, e.key) == Some(e) {
        var j :| 0 <= j < |tbl.slots[s]| && tbl.slots[s][j] == e;
        StoredAt(cfg, tbl, s, j);
      }
    }
  }

  lemma NoPicks(matches: string -> bool, t: int)
    ensures Picks([], matches, t) == []
  {
  }

  lemma PicksStep(c: Chain, j: nat, matches: string -> bool, t: int)
    requires j < |c|
    ensures Picks(c[j..], matches, t) == (if Shown(c[j], matches, t) then [c[j]] else []) + Picks(c[j + 1..], matches, t)
  {
  }

  /** What one more entry adds to the totals. */
  lemma PicksTotals(c: Chain, j: nat, matches: string -> bool, t: int)
    requires j < |c|
    ensures var rest, more := Picks(c[j..], matches, t), Picks(c[j + 1..], matches, t);
      if Shown(c[j], matches, t) then
        |rest| == |more| + 1 && ChainMem(rest) == c[j].mem + ChainMem(more) && HitsOf(rest) == c[j].hits + HitsOf(more)
      else rest == more
  {
  }

  lemma ScanStep(slots: seq<Chain>, s: nat, matches: string -> bool, t: int)
    requires s < |slots|
    ensures Scan(slots, s, matches, t) == Picks(slots[s], matches, t) + Scan(slots, s + 1, matches, t)
  {
  }

  lemma ScanTotals(slots: seq<Chain>, s: nat, matches: string -> bool, t: int)
    requires s < |slots|
    ensures var all, here, rest := Scan(slots, s, matches, t), Picks(slots[s], matches, t), Scan(slots, s + 1, matches, t);
      |all| == |here| + |rest| && ChainMem(all) == ChainMem(here) + ChainMem(rest) && HitsOf(all) == HitsOf(here) + HitsOf(rest)
  {
    ChainsJoin(Picks(slots[s], matches, t), Scan(slots, s + 1, matches, t), "");
  }

  // ---------------------------------------------------------------- deleting what the scan shows

  /** Whether the scan of the slots before `s` shows the entry of `k`. */
  predicate ShownBefore(cfg: Config, tbl: Table, s: nat, matches: string -> bool, t: int, k: string)
    requires Usable(cfg) && |tbl.slots| == cfg.nslots
  {
    Slot(cfg, k) < s && Stored(cfg, tbl, k).Some? && Shown(Stored(cfg, tbl, k).value, matches, t)
  }

  /** The entries the scan showed so far are gone, except those in `rest`; all others are untouched. */
  ghost predicate Deleting(cfg: Config, start: Table, cur: Table, rest: Chain, s: nat, matches: string -> bool, t: int)
    requires Usable(cfg) && |start.slots| == |cur.slots| == cfg.nslots
  {
    forall k {:trigger Stored(cfg, cur, k)} {:trigger Times(rest, k)} ::
      && Times(rest, k) <= (if ShownBefore(cfg, start, s, matches, t, k) then 1 else 0)
      && Stored(cfg, cur, k) ==
           if ShownBefore(cfg, start, s, matches, t, k) && Times(rest, k) == 0 then None else Stored(cfg, start, k)
  }

  lemma DeletingFetched(cfg: Config, start: Table, cur: Table, s: nat, s2: nat, rest: Chain, matches: string -> bool, t: int)
    requires Usable(cfg) && Hashed(cfg, cur) && |start.slots| == |cur.slots| == cfg.nslots && s <= s2 <= cfg.nslots
    requires Deleting(cfg, start, cur, [], s, matches, t)
    requires rest + Scan(cur.slots, s2, matches, t) == Scan(cur.slots, s, matches, t)
    ensures Deleting(cfg, start, cur, rest, s2, matches, t)
  {
    hide Hashed, Stored, Scan, Shown;
    forall k {:trigger Times(rest, k)}
      ensures Times(rest, k) <= if ShownBefore(cfg, start, s2, matches, t, k) then 1 else 0
      ensures Stored(cfg, cur, k) == if ShownBefore(cfg, start, s2, matches, t, k) && Times(rest, k) == 0 then None else Stored(cfg, start, k)
    {
      assert Times([], k) == 0;
      ScanTimes(cfg, cur, s, matches, t, k);
      ScanTimes(cfg, cur, s2, matches, t, k);
      ChainsJoin(rest, Scan(cur.slots, s2, matches, t), k);
    }
  }

  lemma DeletingStep(cfg: Config, start: Table, cur: Table, rest: Chain, s: nat, matches: string -> bool, t: int, now: int)
    requires WellFormed(cfg, cur) && |start.slots| == |cur.slots| == cfg.nslots && rest != []
    requires Deleting(cfg, start, cur, rest, s, matches, t)
    ensures var r := Delete(cfg, cur, rest[0].key, now).0;
      |r.slots| == cfg.nslots && Deleting(cfg, start, r, rest[1..], s, matches, t)
  {
    hide Hashed, Stored, Delete, Shown, ShownBefore;
    var r := Delete(cfg, cur, rest[0].key, now).0;
    DeletedSize(cfg, cur, rest[0].key, now);
    forall k {:trigger Times(rest[1..], k)}
      ensures Times(rest[1..], k) <= if ShownBefore(cfg, start, s, matches, t, k) then 1 else 0
      ensures Stored(cfg, r, k) == if ShownBefore(cfg, start, s, matches, t, k) && Times(rest[1..], k) == 0 then None else Stored(cfg, start, k)
    {
      DeleteEffect(cfg, cur, rest[0].key, now, k);
      assert Times(rest, k) == (if rest[0].key == k then 1 else 0) + Times(rest[1..], k);
    }
  }

  lemma DeletingStart(cfg: Config, start: Table, matches: string -> bool, t: int)
    requires Usable(cfg) && |start.slots| == cfg.nslots
    ensures Deleting(cfg, start, start, [], 0, matches, t)
  {
  }

  lemma DeletingEnd(cfg: Config, start: Table, cur: Table, matches: string -> bool, t: int)
    requires Usable(cfg) && |start.slots| == |cur.slots| == cfg.nslots
    requires Deleting(cfg, start, cur, [], cfg.nslots, matches, t)
    ensures forall k {:trigger Stored(cfg, cur, k)} ::
      var gone := Wanted(cfg, start, matches, t, k);
      Stored(cfg, cur, k) == if gone then None else Stored(cfg, start, k)
  {
  }

  lemma DeletedSize(cfg: Config, cur: Table, key: string, now: int)
    requires WellFormed(cfg, cur)
    ensures |Delete(cfg, cur, key, now).0.slots| == cfg.nslots
  {
  }

  class Iterator {
    const cache: C.Cache
    const matches: string -> bool
    const chunkSize: nat
    const stack: S.Stack
    var slotIdx: nat
    var stackIdx: nat
    var keyIdx: nat
    var totalsFlag: bool
    var count: nat
    var size: int
    var hits: int

    /** The iterator and what it owns is apart from the cache. */
    ghost predicate Separate()
      reads this, stack
    {
      this !in cache.sma.Repr && stack !in cache.sma.Repr && stack.data !in cache.sma.Repr
    }

    ghost predicate Valid()
      reads this, stack, stack.data, cache, cache.sma, cache.sma.Repr
    {
      && Separate() && cache.Valid() && stack.Valid()
      && slotIdx <= cache.cfg.nslots && stackIdx <= stack.size
    }

    /** The chains of the cache. */
    ghost function Slots(): (r: seq<Chain>)
      requires cache.Valid()
      reads cache, cache.sma, cache.sma.Repr
      ensures |r| == cache.cfg.nslots
    {
      cache.Abs().slots
    }

    /** All that is left to show from slot `s` on. */
    ghost function Rest(s: nat, t: int): Chain
      requires cache.Valid() && s <= cache.cfg.nslots
      reads cache, cache.sma, cache.sma.Repr
    {
      Scan(Slots(), s, matches, t)
    }

    constructor (cache: C.Cache, matches: string -> bool, chunkSize: nat)
      requires cache.Valid()
      ensures Valid() && this.cache == cache && this.matches == matches && fresh(stack) && fresh(stack.data)
      ensures slotIdx == 0 && stackIdx == 0 && stack.Contents() == [] && !totalsFlag && count == 0 && size == 0
      ensures hits == 0 && this.chunkSize == if chunkSize == 0 then 100 else chunkSize
    {
      hide C.Cache.Valid, SmaAllocator.Allocator.Valid, SmaAllocator.Allocator.Live;
      this.cache, this.matches := cache, matches;
      this.chunkSize := if chunkSize == 0 then DEFAULT_CHUNK_SIZE else chunkSize;
      stack := new S.Stack(chunkSize);
      slotIdx, stackIdx, keyIdx := 0, 0, 0;
      totalsFlag, count, size, hits := false, 0, 0, 0;
    }

    /** Pushes the shown entries of one slot. */
    method FetchSlot(t: int) returns (n: nat)
      requires Valid() && slotIdx < cache.cfg.nslots
      modifies stack, stack.data
      ensures Separate() && stack.Valid() && (stack.data == old(stack.data) || fresh(stack.data))
      ensures stack.Contents() == old(stack.Contents()) + Picks(Slots()[slotIdx], matches, t)
      ensures n == |Picks(Slots()[slotIdx], matches, t)|
    {
      hide C.Owned, C.Cache.Booked, Linked, TableOf, SmaAllocator.Allocator.Valid, SmaAllocator.Allocator.Live,
        CacheRuns.After, CacheTable.WellFormed, Shaped, Picks;
      n := 0;
      ghost var c, start := Slots()[slotIdx], stack.Contents();
      ghost var j := 0;
      cache.SoundAt(cache.Where(slotIdx, 0), slotIdx, 0);
      assert c[0..] == c;
      var entry := cache.heads[slotIdx];
      while entry != SmaAllocator.NULL
        invariant j <= |c| == |cache.lists[slotIdx]| && entry == At(cache.lists[slotIdx], j)
        invariant Separate() && stack.Valid() && (stack.data == old(stack.data) || fresh(stack.data))
        invariant stack.Contents() + Picks(c[j..], matches, t) == start + Picks(c, matches, t)
        invariant n + |Picks(c[j..], matches, t)| == |Picks(c, matches, t)|
        decreases |c| - j
      {
        cache.SoundAt(cache.Where(slotIdx, j), slotIdx, j);
        PicksStep(c, j, matches, t);
        var e := cache.entries[entry];
        if !HardExpired(e, t) {
          if matches(e.key) {
            n := n + 1;
            stack.Push(e);
          }
        }
        entry := cache.next[entry];
        j := j + 1;
      }
      cache.SoundAt(cache.Where(slotIdx, j), slotIdx, j);
      assert c[j..] == [];
      NoPicks(matches, t);
    }

    method ClearStack()
      requires stack.Valid()
      modifies stack`size
      ensures stack.Valid() && stack.Contents() == []
    {
      while stack.size > 0
        invariant stack.Valid()
      {
        var _ := stack.Pop();
      }
    }

    /**
     Fetches the next chunk: whole slots, until more than `chunkSize` entries are there
     or no slot is left.
     */
    method FetchActive(t: int) returns (n: nat)
      requires Valid()
      modifies this`slotIdx, this`stackIdx, stack, stack.data
      ensures Valid() && stackIdx == 0 && n == |stack.Contents()|
      ensures (stack.data == old(stack.data) || fresh(stack.data))
      ensures stack.Contents() + Rest(slotIdx, t) == Rest(old(slotIdx), t)
      ensures if n == 0 then slotIdx == cache.cfg.nslots else old(slotIdx) < slotIdx
      ensures n <= chunkSize ==> slotIdx == cache.cfg.nslots
      ensures old(slotIdx) < slotIdx ==> |Rest(old(slotIdx), t)| <= chunkSize + |Rest(slotIdx - 1, t)|
    {
      hide C.Cache.Valid, SmaAllocator.Allocator.Valid, Picks, Scan, S.Stack.Valid;
      n := 0;
      stackIdx := 0;
      ghost var first := slotIdx;
      ClearStack();
      while n <= chunkSize && slotIdx < cache.cfg.nslots
        invariant Valid() && stackIdx == 0 && n == |stack.Contents()|
        invariant (stack.data == old(stack.data) || fresh(stack.data))
        invariant first <= slotIdx && (n > 0 ==> first < slotIdx)
        invariant stack.Contents() + Rest(slotIdx, t) == Rest(first, t)
        invariant first < slotIdx ==> |Rest(first, t)| <= chunkSize + |Rest(slotIdx - 1, t)|
      {
        var more := FetchNext(t);
        n := n + more;
      }
    }

    /** Fetches one slot. */
    method FetchNext(t: int) returns (n: nat)
      requires Valid() && slotIdx < cache.cfg.nslots
      modifies this`slotIdx, stack, stack.data
      ensures Separate() && cache.Valid() && stack.Valid() && (stack.data == old(stack.data) || fresh(stack.data))
      ensures slotIdx == old(slotIdx) + 1 && |stack.Contents()| == old(|stack.Contents()|) + n
      ensures stack.Contents() + Rest(slotIdx, t) == old(stack.Contents() + Rest(slotIdx, t))
    {
      hide C.Cache.Valid, SmaAllocator.Allocator.Valid, Picks, Scan, S.Stack.Valid;
      ghost var before := stack.Contents();
      n := FetchSlot(t);
      Joined(before, Picks(Slots()[slotIdx], matches, t), Rest(slotIdx + 1, t));
      ScanStep(Slots(), slotIdx, matches, t);
      slotIdx := slotIdx + 1;
    }

    lemma Joined(a: Chain, b: Chain, c: Chain)
      ensures (a + b) + c == a + (b + c)
    {
    }

    method Rewind(t: int)
      requires Valid()
      modifies this`slotIdx, this`stackIdx, this`keyIdx, stack, stack.data
      ensures Valid() && stackIdx == 0 && (stack.data == old(stack.data) || fresh(stack.data))
      ensures stack.Contents() + Rest(slotIdx, t) == Rest(0, t)
    {
      hide C.Cache.Valid, SmaAllocator.Allocator.Valid, Scan;
      slotIdx, stackIdx, keyIdx := 0, 0, 0;
      var _ := FetchActive(t);
    }

    /** What the loop has not come to yet. */
    ghost function Ahead(t: int): Chain
      requires Valid()
      reads this, stack, stack.data, cache, cache.sma, cache.sma.Repr
    {
      stack.Contents()[stackIdx..] + Rest(slotIdx, t)
    }

    lemma NoTotals()
      ensures ChainMem([]) == 0 && HitsOf([]) == 0
    {
    }

    lemma NothingBehind(t: int)
      requires cache.Valid()
      ensures Rest(cache.cfg.nslots, t) == []
    {
    }

    /** Fetches the next chunk if the last one is used up. */
    method Refill(t: int)
      requires Valid()
      modifies this`slotIdx, this`stackIdx, stack, stack.data
      ensures Valid() && Ahead(t) == old(Ahead(t)) && (stack.data == old(stack.data) || fresh(stack.data))
      ensures if Ahead(t) == [] then stack.size == 0 else stackIdx < stack.size && Ahead(t)[0] == stack.Contents()[stackIdx]
    {
      hide C.Cache.Valid, SmaAllocator.Allocator.Valid, Scan;
      if stack.size == stackIdx {
        assert stack.Contents()[stackIdx..] == [];
        var _ := FetchActive(t);
        assert stack.Contents()[0..] == stack.Contents();
        NothingBehind(t);
      }
    }

    /** Whether there is another entry. */
    method HasCurrent(t: int) returns (valid: bool)
      requires Valid()
      modifies this`slotIdx, this`stackIdx, stack, stack.data
      ensures Valid() && Ahead(t) == old(Ahead(t)) && (stack.data == old(stack.data) || fresh(stack.data))
      ensures valid <==> Ahead(t) != []
      ensures valid ==> stackIdx < stack.size
    {
      hide C.Cache.Valid, SmaAllocator.Allocator.Valid, Scan, Iterator.Ahead;
      Refill(t);
      valid := stack.size != 0;
    }

    /** The entry the iterator is at, if any. */
    method Current(t: int) returns (item: Option<Entry>)
      requires Valid()
      modifies this`slotIdx, this`stackIdx, stack, stack.data
      ensures Valid() && Ahead(t) == old(Ahead(t)) && (stack.data == old(stack.data) || fresh(stack.data))
      ensures item == if Ahead(t) == [] then None else Some(Ahead(t)[0])
      ensures item.Some? ==> stackIdx < stack.size
    {
      hide C.Cache.Valid, SmaAllocator.Allocator.Valid, Scan, Iterator.Ahead;
      Refill(t);
      if stack.size == 0 {
        return None;
      }
      var e := stack.Get(stackIdx);
      item := Some(e);
    }

    method Next(ghost t: int)
      requires Valid() && stackIdx < stack.size
      modifies this`stackIdx, this`keyIdx
      ensures Valid() && old(Ahead(t)) != [] && Ahead(t) == old(Ahead(t))[1..]
    {
      hide C.Cache.Valid, SmaAllocator.Allocator.Valid, Scan;
      assert stack.Contents()[stackIdx..] == [stack.Contents()[stackIdx]] + stack.Contents()[stackIdx + 1..];
      stackIdx, keyIdx := stackIdx + 1, keyIdx + 1;
    }

    /** Takes the entry the iterator is at, and goes on to the next. */
    method Take(t: int) returns (item: Entry)
      requires Valid() && Ahead(t) != []
      modifies this`slotIdx, this`stackIdx, this`keyIdx, stack, stack.data
      ensures Valid() && (stack.data == old(stack.data) || fresh(stack.data))
      ensures old(Ahead(t)) == [item] + Ahead(t)
    {
      hide C.Cache.Valid, SmaAllocator.Allocator.Valid, Scan, Iterator.Ahead, Iterator.Valid;
      var current := Current(t);
      item := current.value;
      Next(t);
    }

    /**
     What `foreach` does with the iterator, on a cache that does not change: for every chunk
     size it shows each live matching entry exactly once, and nothing else.
     */
    method Foreach(t: int) returns (shown: Chain)
      requires Valid()
      modifies this`slotIdx, this`stackIdx, this`keyIdx, stack, stack.data
      ensures shown == Scan(Slots(), 0, matches, t)
      ensures forall e {:trigger e in shown} :: e in shown ==> Stored(cache.cfg, cache.Abs(), e.key) == Some(e)
      ensures forall k {:trigger Times(shown, k)} :: Times(shown, k) == if Wanted(cache.cfg, cache.Abs(), matches, t, k) then 1 else 0
    {
      hide C.Cache.Valid, SmaAllocator.Allocator.Valid, Scan, Iterator.Ahead, S.Stack.Valid, Hashed, Stored, Wanted,
        Times;
      shown := Loop(t);
      CacheHashed();
      ScanShowsStored(cache.cfg, cache.Abs(), 0, matches, t);
      forall k {:trigger Times(shown, k)}
        ensures Times(shown, k) == if Wanted(cache.cfg, cache.Abs(), matches, t, k) then 1 else 0
      {
        ScanShowsOnce(cache.cfg, cache.Abs(), matches, t, k);
      }
    }

    /** Rewinds, and takes one entry after the other. */
    method Loop(t: int) returns (shown: Chain)
      requires Valid()
      modifies this`slotIdx, this`stackIdx, this`keyIdx, stack, stack.data
      ensures Valid() && shown == Scan(Slots(), 0, matches, t)
    {
      hide C.Cache.Valid, SmaAllocator.Allocator.Valid, Scan, Iterator.Ahead, Iterator.Valid, S.Stack.Valid;
      shown := [];
      Rewind(t);
      ghost var all := Ahead(t);
      RewoundAhead(t);
      assert shown + all == all;
      var more := HasCurrent(t);
      while more
        invariant Valid() && (stack.data == old(stack.data) || fresh(stack.data))
        invariant shown + Ahead(t) == all && (more <==> Ahead(t) != [])
        decreases |Ahead(t)|
      {
        ghost var before := shown;
        var item := Take(t);
        shown := shown + [item];
        Joined(before, [item], Ahead(t));
        more := HasCurrent(t);
      }
    }

    lemma CacheHashed()
      requires cache.Valid()
      ensures Usable(cache.cfg) && Shaped(cache.InMemory()) && |Slots()| == cache.cfg.nslots
      ensures Hashed(cache.cfg, cache.Abs())
    {
    }

    lemma RewoundAhead(t: int)
      requires Valid() && stackIdx == 0
      ensures Ahead(t) == stack.Contents() + Rest(slotIdx, t)
    {
    }

    /** Counts what the scan would show. */
    method Totals(t: int)
      requires Valid() && !totalsFlag && count == 0 && size == 0 && hits == 0
      modifies this`count, this`size, this`hits, this`totalsFlag
      ensures Valid() && totalsFlag
      ensures var all := Scan(Slots(), 0, matches, t);
        count == |all| && size == ChainMem(all) && hits == HitsOf(all)
    {
      hide C.Cache.Valid, SmaAllocator.Allocator.Valid, Picks, Scan, ChainMem, HitsOf;
      ghost var all := Rest(0, t);
      var i := 0;
      while i < cache.cfg.nslots
        invariant 0 <= i <= cache.cfg.nslots && Valid()
        invariant count + |Rest(i, t)| == |all| && size + ChainMem(Rest(i, t)) == ChainMem(all)
        invariant hits + HitsOf(Rest(i, t)) == HitsOf(all)
      {
        ScanTotals(Slots(), i, matches, t);
        TotalSlot(i, t);
        i := i + 1;
      }
      NothingBehind(t);
      NoTotals();
      totalsFlag := true;
    }

    /** Adds the shown entries of slot `i` to the totals. */
    method TotalSlot(i: nat, t: int)
      requires Valid() && i < cache.cfg.nslots
      modifies this`count, this`size, this`hits
      ensures Valid()
      ensures var c := Picks(Slots()[i], matches, t);
        count == old(count) + |c| && size == old(size) + ChainMem(c) && hits == old(hits) + HitsOf(c)
    {
      hide C.Owned, C.Cache.Booked, Linked, TableOf, SmaAllocator.Allocator.Valid, SmaAllocator.Allocator.Live,
        CacheRuns.After, CacheTable.WellFormed, Shaped, Picks, ChainMem, HitsOf;
      ghost var c := Slots()[i];
      ghost var j := 0;
      cache.SoundAt(cache.Where(i, 0), i, 0);
      assert c[0..] == c;
      var entry := cache.heads[i];
      while entry != SmaAllocator.NULL
        invariant j <= |c| == |cache.lists[i]| && entry == At(cache.lists[i], j)
        invariant var rest, all := Picks(c[j..], matches, t), Picks(c, matches, t);
          && count + |rest| == old(count) + |all| && size + ChainMem(rest) == old(size) + ChainMem(all)
          && hits + HitsOf(rest) == old(hits) + HitsOf(all)
        decreases |c| - j
      {
        cache.SoundAt(cache.Where(i, j), i, j);
        PicksTotals(c, j, matches, t);
        var e := cache.entries[entry];
        if !HardExpired(e, t) {
          if matches(e.key) {
            size := size + e.mem;
            hits := hits + e.hits;
            count := count + 1;
          }
        }
        entry := cache.next[entry];
        j := j + 1;
      }
      cache.SoundAt(cache.Where(i, j), i, j);
      NoPicks(matches, t);
      NoTotals();
      assert c[j..] == [];
    }

    /** Fetches what is to be deleted next. */
    method Chunk(t: int, ghost start: Table) returns (n: nat)
      requires Valid() && |start.slots| == cache.cfg.nslots
      requires Deleting(cache.cfg, start, cache.Abs(), [], slotIdx, matches, t)
      modifies this`slotIdx, this`stackIdx, stack, stack.data
      ensures Valid() && stackIdx == 0 && n == |stack.Contents()|
      ensures (stack.data == old(stack.data) || fresh(stack.data))
      ensures Deleting(cache.cfg, start, cache.Abs(), stack.Contents(), slotIdx, matches, t)
      ensures if n == 0 then slotIdx == cache.cfg.nslots else old(slotIdx) < slotIdx
      ensures old(slotIdx) <= slotIdx
    {
      hide C.Owned, C.Cache.Booked, Linked, TableOf, SmaAllocator.Allocator.Valid, SmaAllocator.Allocator.Live,
        CacheRuns.After, Scan, Deleting;
      ghost var s := slotIdx;
      n := FetchActive(t);
      DeletingFetched(cache.cfg, start, cache.Abs(), s, slotIdx, stack.Contents(), matches, t);
    }

    /** Deletes what was fetched. */
    method DeleteChunk(t: int, now: int, ghost start: Table)
      requires Valid() && stackIdx == 0 && |start.slots| == cache.cfg.nslots
      requires Deleting(cache.cfg, start, cache.Abs(), stack.Contents(), slotIdx, matches, t)
      modifies this`stackIdx, cache, cache.sma.Repr
      ensures Valid() && Deleting(cache.cfg, start, cache.Abs(), [], slotIdx, matches, t)
    {
      hide C.Owned, C.Cache.Booked, Linked, TableOf, SmaAllocator.Allocator.Valid, SmaAllocator.Allocator.Live,
        CacheRuns.After, Scan, Deleting, Delete, Stored, CacheTable.WellFormed, Shaped;
      assert stack.Contents()[0..] == stack.Contents();
      while stackIdx < stack.size
        invariant Valid()
        invariant Deleting(cache.cfg, start, cache.Abs(), stack.Contents()[stackIdx..], slotIdx, matches, t)
        decreases stack.size - stackIdx
      {
        ghost var rest := stack.Contents()[stackIdx..];
        DeletingStep(cache.cfg, start, cache.Abs(), rest, slotIdx, matches, t, now);
        var item := stack.Get(stackIdx);
        stackIdx := stackIdx + 1;
        var _ := cache.Delete(item.key, now);
        assert stack.Contents()[stackIdx..] == rest[1..];
      }
      assert stack.Contents()[stackIdx..] == [];
    }

    /**
     Deletes, on a fresh iterator, every live entry that matches, and no other: the loop
     ends, and afterwards nothing is left that the iterator would show.
     */
    method DeleteAll(t: int, now: int)
      requires Valid() && slotIdx == 0 && stackIdx == 0 && stack.Contents() == []
      modifies this`slotIdx, this`stackIdx, stack, stack.data, cache, cache.sma.Repr
      ensures Valid()
      ensures forall k {:trigger Stored(cache.cfg, cache.Abs(), k)} ::
        var gone := Wanted(cache.cfg, old(cache.Abs()), matches, t, k);
        Stored(cache.cfg, cache.Abs(), k) == if gone then None else Stored(cache.cfg, old(cache.Abs()), k)
    {
      hide C.Owned, C.Cache.Booked, Linked, TableOf, SmaAllocator.Allocator.Valid, SmaAllocator.Allocator.Live,
        CacheRuns.After, CacheTable.WellFormed, Scan, Deleting, Stored, Delete, ShownBefore;
      ghost var start := cache.Abs();
      DeletingStart(cache.cfg, start, matches, t);
      var n := Chunk(t, start);
      while n > 0
        invariant Valid() && (stack.data == old(stack.data) || fresh(stack.data))
        invariant stackIdx == 0 && n == |stack.Contents()|
        invariant Deleting(cache.cfg, start, cache.Abs(), stack.Contents(), slotIdx, matches, t)
        invariant n == 0 ==> slotIdx == cache.cfg.nslots
        decreases cache.cfg.nslots - slotIdx, n
      {
        DeleteChunk(t, now, start);
        n := Chunk(t, start);
      }
      DeletingEnd(cache.cfg, start, cache.Abs(), matches, t);
    }
  }
}
