/** The cache over the shared-memory allocator: chains of entries linked by pointers, updated in place. */
module Cache {
  import opened CacheTable
  import opened Collections
  import opened CacheLaws
  import opened CacheBoxes
  import opened CacheRuns
  import opened CacheTimes
  import opened CacheLayout
  import SmaArena
  import opened SmaAllocator
  import opened Expunging

  /** Where a pointer to an entry is stored: at the head of a list, or in the entry before. */
  datatype Loc = Head(list: int) | After(entry: int)

  function B(b: bool): nat {
    if b then 1 else 0
  }

  /** How many owners the address `p` has: entries, the cache structure itself, entries not yet inserted. */
  ghost function Owners(t: Table, shm: int, pending: set<int>, p: int): nat {
    Copies(t, p) + B(p == shm) + B(p in pending)
  }

  /** Every block the allocator has handed out has one owner, and nothing else has any. */
  ghost predicate Owned(t: Table, shm: int, pending: set<int>, live: set<int>) {
    forall p {:trigger Copies(t, p)} {:trigger p in live} :: Owners(t, shm, pending, p) == B(p in live)
  }

  lemma EntryCopies(t: Table, s: nat, j: nat)
    requires InSlot(t, s, j)
    ensures Copies(t, t.slots[s][j].at) > 0
  {
    CopiesPositive(t.slots, s, j);
  }

  lemma OwnedAfterRemove(t: Table, s: nat, j: nat, now: int, shm: int, pending: set<int>, live: set<int>)
    requires InSlot(t, s, j) && Owned(t, shm, pending, live)
    ensures var e := t.slots[s][j];
      && e.at in live && e.at !in pending && e.at != shm
      && Owned(RemoveAt(t, s, j, now), shm, pending, if e.refs <= 0 then live - {e.at} else live)
  {
    EntryCopies(t, s, j);
    var e := t.slots[s][j];
    assert Owners(t, shm, pending, e.at) == B(e.at in live);
    var less := if e.refs <= 0 then live - {e.at} else live;
    forall p ensures Owners(RemoveAt(t, s, j, now), shm, pending, p) == B(p in less) {
      assert Owners(t, shm, pending, p) == B(p in live);
      RemoveAtMeasures(t, s, j, now, p);
    }
  }

  /** A removed entry joins the others with the time of its removal if somebody references it. */
  lemma RemovedJoins(t: Table, s: nat, j: nat, now: int)
    requires InSlot(t, s, j)
    ensures var e := t.slots[s][j];
      RemoveAt(t, s, j, now).gc == if e.refs > 0 then [e.(dtime := now)] + t.gc else t.gc
  {
  }

  lemma OwnedAfterCollect(t: Table, j: nat, shm: int, pending: set<int>, live: set<int>)
    requires j < |t.gc| && Owned(t, shm, pending, live)
    ensures var e := t.gc[j];
      && e.at in live && e.at !in pending && e.at != shm
      && Owned(t.(gc := Drop(t.gc, j)), shm, pending, live - {e.at})
  {
    var e := t.gc[j];
    ChainWithout(t.gc, j, e.at);
    assert Owners(t, shm, pending, e.at) == B(e.at in live);
    forall p ensures Owners(t.(gc := Drop(t.gc, j)), shm, pending, p) == B(p in live - {e.at}) {
      assert Owners(t, shm, pending, p) == B(p in live);
      ChainWithout(t.gc, j, p);
    }
  }

  lemma OwnedAfterLink(t: Table, s: nat, j: nat, e: Entry, shm: int, pending: set<int>, live: set<int>)
    requires s < |t.slots| && j <= |t.slots[s]| && Owned(t, shm, pending, live) && e.at in pending
    ensures Owned(LinkAt(t, s, j, e), shm, pending - {e.at}, live) && Copies(t, e.at) == 0
  {
    forall p ensures Owners(LinkAt(t, s, j, e), shm, pending - {e.at}, p) == B(p in live) {
      assert Owners(t, shm, pending, p) == B(p in live);
      LinkAtMeasures(t, s, j, e, p);
    }
    assert Owners(t, shm, pending, e.at) == B(e.at in live);
  }

  lemma OwnedAfterSet(t: Table, s: nat, j: nat, e: Entry, shm: int, pending: set<int>, live: set<int>)
    requires InSlot(t, s, j) && e.at == t.slots[s][j].at && e.mem == t.slots[s][j].mem && Owned(t, shm, pending, live)
    ensures Owned(SetAt(t, s, j, e), shm, pending, live)
  {
    forall p ensures Owners(SetAt(t, s, j, e), shm, pending, p) == B(p in live) {
      assert Owners(t, shm, pending, p) == B(p in live);
      SetAtMeasures(t, s, j, e, p);
    }
  }

  lemma EmptyMemory(v: View, cfg: Config)
    requires |v.heads| == |v.lists| == cfg.nslots + 1
    requires forall s :: 0 <= s < |v.lists| ==> v.lists[s] == [] && v.heads[s] == NULL
    ensures Shaped(v) && TableOf(v, 0, 0) == Empty(cfg)
  {
  }

  lemma NothingLogged(cfg: Config)
    requires Usable(cfg)
    ensures CacheRuns.After(cfg, []).0 == CacheRuns.Empty(cfg) && WellFormed(cfg, CacheRuns.Empty(cfg))
  {
    EmptyIsTruthful(cfg);
  }

  lemma EmptyOwned(cfg: Config, shm: int)
    ensures Owned(Empty(cfg), shm, {}, {shm})
  {
    forall p ensures Copies(Empty(cfg), p) == 0 {
      NoCopies(Empty(cfg).slots, p);
    }
  }

  lemma {:induction false} NoCopies(slots: seq<Chain>, p: int)
    requires forall s :: 0 <= s < |slots| ==> slots[s] == []
    ensures SlotsCopies(slots, p) == 0
  {
    if slots != [] {
      NoCopies(slots[1..], p);
    }
  }

  lemma WellFormedButGc(cfg: Config, t: Table, u: Table)
    requires WellFormed(cfg, t) && u.slots == t.slots && u.count == t.count && u.mem == t.mem
    ensures WellFormed(cfg, u)
  {
  }

  lemma NothingToCollect(cfg: Config, now: int)
    ensures GcFrom(cfg, [], now) == []
  {
  }

  /** One step of the collector's walk. */
  lemma GcOne(cfg: Config, g: Chain, j: nat, now: int)
    requires j < |g|
    ensures g[..j] + GcFrom(cfg, g[j..], now) ==
      if GcKeeps(cfg, g[j], now) then g[..j + 1] + GcFrom(cfg, g[j + 1..], now)
      else Drop(g, j)[..j] + GcFrom(cfg, Drop(g, j)[j..], now)
  {
  }

  predicate NoneBefore(c: Chain, j: nat, k: string) {
    j <= |c| && forall i {:trigger c[i]} :: 0 <= i < j ==> c[i].key != k
  }

  /** One step of an insertion's walk along its chain. */
  lemma InsertStep(cfg: Config, t: Table, s: nat, j: nat, e: Entry, exclusive: bool, now: int)
    requires WellFormed(cfg, t) && s == Slot(cfg, e.key) && s < |t.slots| && NoneBefore(t.slots[s], j, e.key)
    ensures var r := InsertFrom(cfg, t, s, j, e, exclusive, now);
      if j == |t.slots[s]| then
        Stored(cfg, t, e.key) == None && r == (LinkAt(t, s, j, e), true)
      else if t.slots[s][j].key == e.key then
        var u := RemoveAt(t, s, j, now);
        if exclusive && !HardExpired(t.slots[s][j], e.ctime) then r == (t, false)
        else |u.slots| == |t.slots| && j <= |u.slots[s]| && Stored(cfg, u, e.key) == None && r == (LinkAt(u, s, j, e), true)
      else if Expired(cfg, t.slots[s][j], e.ctime) then
        var u := RemoveAt(t, s, j, now);
        |u.slots| == |t.slots| && NoneBefore(u.slots[s], j, e.key) && r == InsertFrom(cfg, u, s, j, e, exclusive, now)
      else
        NoneBefore(t.slots[s], j + 1, e.key) && r == InsertFrom(cfg, t, s, j + 1, e, exclusive, now)
  {
  }

  lemma ModifiedWell(cfg: Config, t: Table, s: nat, j: nat, e: Entry)
    requires WellFormed(cfg, t) && InSlot(t, s, j)
    requires e.at == t.slots[s][j].at && e.key == t.slots[s][j].key && e.mem == t.slots[s][j].mem
    ensures WellFormed(cfg, SetAt(t, s, j, e))
  {
    SetAtByKey(cfg, t, s, j, e, "");
    SetAtMeasures(t, s, j, e, 0);
  }

  lemma OwnedAfterRelease(t: Table, p: int, shm: int, pending: set<int>, live: set<int>)
    requires Owned(t, shm, pending, live)
    ensures Owned(Table(ReleasedAll(t.slots, p), Released(t.gc, p), t.count, t.mem), shm, pending, live)
  {
    var r := Table(ReleasedAll(t.slots, p), Released(t.gc, p), t.count, t.mem);
    forall q ensures Owners(r, shm, pending, q) == B(q in live) {
      assert Owners(t, shm, pending, q) == B(q in live);
      ReleasedCopies(t.slots, p, q);
      ReleasedChainCopies(t.gc, p, q);
    }
  }

  /** Decrementing the entry at `p` in memory releases it wherever it is linked. */
  lemma ReleaseStep(v: View, count: int, mem: int, p: int)
    requires Shaped(v) && p in v.entries && v.entries[p].at == p
    ensures var t := TableOf(v, count, mem); var u := Put(v, p, v.entries[p].(refs := v.entries[p].refs - 1));
      Shaped(u) && TableOf(u, count, mem) == Table(ReleasedAll(t.slots, p), Released(t.gc, p), t.count, t.mem)
  {
    var e := v.entries[p].(refs := v.entries[p].refs - 1);
    var u := Put(v, p, e);
    PutShaped(v, p, e);
    var a, b := Contents(v), Contents(u);
    forall x | 0 <= x < |a| ensures b[x] == Released(a[x], p) {
      SlotContents(v, x);
      SlotContents(u, x);
      forall y | 0 <= y < |v.lists[x]| ensures b[x][y] == Released(a[x], p)[y] {
        assert Placed(v, v.lists[x][y]) by { assert Linked(v, v.lists[x], v.heads[x]); }
      }
    }
    var n := |a| - 1;
    assert ReleasedAll(a[..n], p) == b[..n];
  }

  /** After a full sweep the counter of entries is 0 already. */
  lemma SweepCounted(cfg: Config, t: Table, now: int)
    requires WellFormed(cfg, t)
    ensures SweepFrom(cfg, t, 0, true, 0, now).count == 0
  {
    SweepFromByKey(cfg, t, 0, true, 0, now, "");
    EmptySlots(SweepFrom(cfg, t, 0, true, 0, now).slots);
  }

  lemma OwnedAfterAdopt(t: Table, shm: int, pending: set<int>, live: set<int>, p: int)
    requires Owned(t, shm, pending, live - {p}) && p in live
    ensures Owned(t, shm, pending + {p}, live) && p !in pending && Copies(t, p) == 0
  {
  }

  lemma OwnedAfterDiscard(t: Table, shm: int, pending: set<int>, live: set<int>, p: int)
    requires Owned(t, shm, pending, live) && p in pending
    ensures Owned(t, shm, pending - {p}, live - {p}) && p in live && Copies(t, p) == 0
  {
  }

  lemma ForgottenStep(v: View, count: int, mem: int, p: int)
    requires Shaped(v) && Unlinked(v, p)
    ensures Shaped(Forget(v, p)) && TableOf(Forget(v, p), count, mem) == TableOf(v, count, mem)
    ensures forall q {:trigger Placed(v, q)} :: q != p && Placed(v, q) ==> Placed(Forget(v, p), q)
  {
    ForgetShaped(v, p);
  }

  /** A new entry, before it is persisted. */
  function NewEntry(key: string, val: Value, ttl: int, t: int): Entry {
    Entry(NULL, key, val, ttl, 0, 0, t, t, 0, t, 0)
  }

  /** A value as it was stored at time `t`: nobody has read, changed or referenced it since. */
  predicate IsNew(e: Entry, p: int, val: Value, ttl: int, n: nat, t: int) {
    && e.at == p && e.val == val && e.ttl == ttl && e.mem == n && e.refs == 0 && e.hits == 0
    && e.ctime == t && e.mtime == t && e.atime == t
  }

  /** An updater for simple values, or an atomic one for integers. */
  datatype Updater = Any(f: Value -> (Value, bool)) | Atomic(g: int -> (int, bool))

  /** What an updater makes of a value it takes, and what it answers. */
  function Run(u: Updater, v: Value): (r: Option<(Value, bool)>)
    ensures v.Long? ==> r.Some?
  {
    match u
    case Any(f) => if Simple(v) then Some(f(v)) else None
    case Atomic(g) => if v.Long? then Some((Long(g(v.n).0), g(v.n).1)) else None
  }

  /**
   The updater has run on the live entry of `key`: an atomic one on an integer, any other on a
   value that is not boxed.  Else nothing has changed, and the answer is no.
   */
  ghost predicate HasRun(cfg: Config, t: Table, r: Table, key: string, u: Updater, time: int, ret: bool)
    requires Usable(cfg) && |t.slots| == |r.slots| == cfg.nslots
  {
    && (forall k {:trigger Stored(cfg, r, k)} :: k != key ==> Stored(cfg, r, k) == Stored(cfg, t, k))
    && if !Alive(t, key, time) then !ret && r == t
       else
         && Stored(cfg, t, key).Some?
         && var e := Stored(cfg, t, key).value;
            match u
            case Atomic(g) =>
              if e.val.Long? then ret == g(e.val.n).1 && Stored(cfg, r, key) == Some(e.(val := Long(g(e.val.n).0), mtime := time))
              else !ret && r == t
            case Any(f) =>
              if e.val.Boxed? then !ret && r == t
              else ret == f(e.val).1 && Stored(cfg, r, key) == Some(e.(val := f(e.val).0, mtime := time))
  }

  /** A zero was stored at `t2`, and the updater has run on it at `t`, unless its time was over by then. */
  predicate OnZero(e: Entry, p: int, key: string, u: Updater, ttl: int, n: nat, t: int, t2: int, ret: bool) {
    && e.at == p && e.key == key && e.ttl == ttl && e.mem == n && e.refs == 0 && e.hits == 0 && e.ctime == t2 == e.atime
    && if ttl == 0 || t <= t2 + ttl then
         && e.mtime == t
         && match u
            case Atomic(g) => ret == g(0).1 && e.val == Long(g(0).0)
            case Any(f) => ret == f(Long(0)).1 && e.val == f(Long(0)).0
       else
         !ret && e.mtime == t2 && e.val == Long(0)
  }

  lemma RunsOnZero(u: Updater)
    ensures Run(u, Long(0)).Some?
  {
  }

  lemma ZeroHasRun(p: int, key: string, u: Updater, ttl: int, n: nat, t: int, t2: int)
    ensures var e, r := NewEntry(key, Long(0), ttl, t2).(at := p, mem := n), Run(u, Long(0)).value;
      if HardExpired(e, t) then OnZero(e, p, key, u, ttl, n, t, t2, false)
      else OnZero(e.(val := r.0, mtime := t), p, key, u, ttl, n, t, t2, r.1)
  {
  }

  lemma RunHasRun(cfg: Config, t: Table, key: string, u: Updater, time: int)
    requires WellFormed(cfg, t)
    ensures var hit := Lookup(cfg, t, key, time); var r := if hit.Some? then Run(u, hit.value.val) else None;
      HasRun(cfg, t, if r.Some? then Replaced(cfg, t, key, time, r.value.0).0 else t, key, u, time, r.Some? && r.value.1)
  {
    hide Hashed, Counted, SetAt, Alive;
    LookupIffAlive(cfg, t, key, time);
    var j := FindIn(cfg, t, key, time);
    if j < |t.slots[Slot(cfg, key)]| {
      FoundIsStored(cfg, t, key, time);
      var e := t.slots[Slot(cfg, key)][j];
      var r := Run(u, e.val);
      if r.Some? {
        SetAtEffect(cfg, t, key, time, e.(val := r.value.0, mtime := time), key);
        forall k ensures Stored(cfg, Replaced(cfg, t, key, time, r.value.0).0, k) ==
          if k == key then Some(e.(val := r.value.0, mtime := time)) else Stored(cfg, t, k)
        {
          SetAtEffect(cfg, t, key, time, e.(val := r.value.0, mtime := time), k);
        }
      }
    }
  }

  /** A key that is missing is still missing after the allocator's call-back, and later on. */
  lemma EvictedMisses(cfg: Config, log: seq<Op>, evicted: seq<Op>, key: string, t: int, t2: int)
    requires Usable(cfg) && t <= t2 && Lookup(cfg, CacheRuns.After(cfg, log).0, key, t) == None
    requires evicted == [] || (|evicted| == 1 && evicted[0].Evict?)
    ensures Lookup(cfg, CacheRuns.After(cfg, log + evicted).0, key, t2) == None
  {
    hide CacheRuns.After, Evicted, Hashed, Counted, Lookup, Stored, Insert;
    var before := CacheRuns.After(cfg, log).0;
    RunIsTruthful(cfg, log);
    LookupIsUnexpired(cfg, before, key, t);
    if evicted == [] {
      assert log + evicted == log;
      LookupIsUnexpired(cfg, before, key, t2);
    } else {
      var op := evicted[0];
      assert evicted == [op];
      AfterOne(cfg, log, op);
      EvictEffect(cfg, before, op.time, op.now, op.short, op.roomy, key);
      LookupIsUnexpired(cfg, CacheRuns.After(cfg, log + evicted).0, key, t2);
    }
  }

  lemma AfterOne(cfg: Config, log: seq<Op>, op: Op)
    requires Usable(cfg)
    ensures CacheRuns.After(cfg, log + [op]).0 == Apply(cfg, CacheRuns.After(cfg, log).0, op).0
  {
  }

  lemma ReplacedStored(cfg: Config, tbl: Table, key: string, t: int, val: Value)
    requires WellFormed(cfg, tbl)
    ensures var hit := Lookup(cfg, tbl, key, t); hit.Some? && Simple(hit.value.val) ==>
      Stored(cfg, Replaced(cfg, tbl, key, t, val).0, key) == Some(hit.value.(val := val, mtime := t))
  {
    var j := FindIn(cfg, tbl, key, t);
    if Replaced(cfg, tbl, key, t, val).1 {
      SetAtEffect(cfg, tbl, key, t, tbl.slots[Slot(cfg, key)][j].(val := val, mtime := t), key);
    }
  }

  class Cache {
    const cfg: Config
    const smart: int
    const sma: Allocator
    const shm: int                        // the block that holds the header and the slots
    var heads: seq<int>                   // the slots, and after them the head of the list of the removed
    var entries: map<int, Entry>          // entries by address
    var next: map<int, int>               // their pointers to the next entry
    var count: int
    var mem: int
    ghost var lists: seq<seq<int>>
    ghost var pending: set<int>           // persisted entries nobody has inserted yet
    ghost var log: seq<Op>
    ghost var book: Book                  // what was handed out at some earlier time, and since then only freed

    ghost function InMemory(): View
      reads `heads, `entries, `next, `lists
    {
      View(heads, entries, next, lists)
    }

    /** The contents of the cache. */
    ghost function Abs(): (t: Table)
      requires Shaped(InMemory())
      reads `heads, `entries, `next, `lists, `count, `mem
      ensures |t.slots| == |lists| - 1
    {
      TableOf(InMemory(), count, mem)
    }

    /** The lists are well formed, and own what the allocator has handed out. */
    ghost predicate Sound()
      reads this, sma, sma.Repr
    {
      sma.Valid() && SoundFor(sma.Live()) && Booked() && Housed(book, sma.Live())
    }

    /** The block of every entry has room for it. */
    ghost predicate Housed(b: Book, live: set<int>)
      reads `entries
    {
      forall p {:trigger p in entries} :: p in entries ==> p in live && Room(b, p, entries[p].mem)
    }

    lemma Rehoused()
      requires Booked() && Housed(book, sma.Live())
      ensures Housed(sma.Books(), sma.Live())
    {
      forall p | p in entries ensures Room(sma.Books(), p, entries[p].mem) {
        RoomStays(book, sma.Books(), p, entries[p].mem);
      }
    }

    lemma StillHoused(b: Book, live: set<int>, d: Book, more: set<int>)
      requires Housed(b, live) && live <= more
      requires forall q, m {:trigger Room(d, q, m)} :: Room(b, q, m) ==> Room(d, q, m)
      ensures Housed(d, more)
    {
    }

    /** Since the book was written, blocks were freed only. */
    ghost predicate Booked()
      reads `book, sma.segs
    {
      Trims(book, sma.Books())
    }

    ghost predicate SoundFor(live: set<int>)
      reads this, sma, sma.Repr
    {
      && this !in sma.Repr && sma.Valid()
      && Usable(cfg) && |lists| == cfg.nslots + 1
      && Shaped(InMemory())
      && WellFormed(cfg, Abs())
      && Owned(Abs(), shm, pending, live)
      && (forall p {:trigger p in pending} :: p in pending ==> Placed(InMemory(), p))
    }

    /** Between operations the contents are what the logged run leaves. */
    ghost predicate Valid()
      reads this, sma, sma.Repr
    {
      Sound() && Abs() == CacheRuns.After(cfg, log).0
    }

    /** The place that holds the pointer to position `j` of list `s`. */
    ghost function Where(s: int, j: int): Loc
      requires 0 <= s < |lists| && 0 <= j <= |lists[s]|
      reads this
    {
      if j == 0 then Head(s) else After(lists[s][j - 1])
    }

    ghost predicate IsAt(loc: Loc, s: int, j: int)
      reads this
    {
      0 <= s < |lists| && 0 <= j <= |lists[s]| && loc == Where(s, j)
    }

    /** An empty cache, in a block of its own. */
    constructor (cfg: Config, smart: int, sma: Allocator, shm: int)
      requires Usable(cfg) && sma.Valid() && sma.Live() == {shm}
      ensures Valid() && log == [] && pending == {} && Abs() == CacheRuns.Empty(cfg)
      ensures this.cfg == cfg && this.smart == smart && this.sma == sma && this.shm == shm
    {
      hide Shaped, TableOf, WellFormed, Owned, CacheRuns.Empty, CacheRuns.After, Allocator.Valid, Allocator.Live,
        Booked, Room;
      this.cfg, this.smart, this.sma, this.shm := cfg, smart, sma, shm;
      heads := seq(cfg.nslots + 1, i => NULL);
      lists := seq(cfg.nslots + 1, i => []);
      entries, next, count, mem := map[], map[], 0, 0;
      pending, log := {}, [];
      book := sma.Books();
      new;
      Rewritten();
      EmptyMemory(InMemory(), cfg);
      NothingLogged(cfg);
      EmptyOwned(cfg, shm);
    }

    lemma EntryNotPending(s: nat, j: nat)
      requires Sound() && s < cfg.nslots && j < |lists[s]|
      ensures lists[s][j] !in pending
    {
      hide Allocator.Valid, Allocator.Live, Booked, Housed, Linked, WellFormed;
      var p := lists[s][j];
      SoundAt(Where(s, j), s, j);
      EntryCopies(Abs(), s, j);
      assert Owners(Abs(), shm, pending, p) == B(p in sma.Live());
    }

    lemma SoundApart()
      requires Sound()
      ensures Apart(InMemory())
    {
      forall p {:trigger Copies(Abs(), p)} ensures Copies(Abs(), p) <= 1 {
        assert Owners(Abs(), shm, pending, p) == B(p in sma.Live());
      }
      AllApart(InMemory(), count, mem);
    }

    lemma SoundTable()
      requires Sound()
      ensures WellFormed(cfg, Abs())
    {
    }

    lemma SoundAt(loc: Loc, s: nat, j: nat)
      requires Sound() && IsAt(loc, s, j)
      ensures loc.After? ==> loc.entry in next
      ensures loc.Head? ==> 0 <= loc.list < |heads|
      ensures (if loc.Head? then heads[loc.list] else next[loc.entry]) == At(lists[s], j)
      ensures j < |lists[s]| ==> Placed(InMemory(), lists[s][j]) && next[lists[s][j]] == At(lists[s], j + 1)
      ensures s < cfg.nslots ==> |Abs().slots[s]| == |lists[s]|
      ensures s < cfg.nslots && j < |lists[s]| ==> InSlot(Abs(), s, j) && Abs().slots[s][j] == entries[lists[s][j]]
      ensures s == cfg.nslots ==> |Abs().gc| == |lists[s]|
      ensures s == cfg.nslots && j < |lists[s]| ==> Abs().gc[j] == entries[lists[s][j]]
    {
      hide Allocator.Valid, Allocator.Live, Booked, Housed, Owned, WellFormed;
    }

    lemma RemovedHead()
      requires Sound()
      ensures heads[cfg.nslots] == At(lists[cfg.nslots], 0)
    {
    }

    /** The pointer stored at `loc`. */
    function Load(loc: Loc): int
      requires if loc.Head? then 0 <= loc.list < |heads| else loc.entry in next
      reads this
    {
      if loc.Head? then heads[loc.list] else next[loc.entry]
    }

    method Assign(loc: Loc, p: int)
      requires if loc.Head? then 0 <= loc.list < |heads| else loc.entry in next
      modifies this`heads, this`next
      ensures heads == if loc.Head? then old(heads)[loc.list := p] else old(heads)
      ensures next == if loc.Head? then old(next) else old(next)[loc.entry := p]
    {
      match loc
      case Head(s) => heads := heads[s := p];
      case After(q) => next := next[q := p];
    }

    /** Entries not yet inserted read as they did. */
    twostate predicate PendingKept()
      reads this
    {
      && pending == old(pending) && log == old(log) && book == old(book)
      && forall p {:trigger p in pending} :: p in pending && p in old(entries) ==> p in entries && entries[p] == old(entries[p])
    }

    /** Takes the entry `loc` points to out of its list. */
    method Detach(loc: Loc, ghost s: nat, ghost j: nat) returns (dead: int)
      requires Shaped(InMemory()) && IsAt(loc, s, j) && j < |lists[s]|
      modifies `heads, `next, `lists
      ensures dead == old(lists[s][j]) && dead in old(next) && InMemory() == CacheLayout.Unlink(old(InMemory()), s, j)
      ensures entries == old(entries) && |heads| == |lists| == old(|lists|)
      ensures s < |lists| - 1 ==> heads[|lists| - 1] == old(heads[|lists| - 1]) && lists[|lists| - 1] == old(lists[|lists| - 1])
    {
      assert Linked(InMemory(), lists[s], heads[s]);
      if j > 0 {
        assert next[lists[s][j - 1]] == At(lists[s], j);
      }
      dead := Load(loc);
      Assign(loc, next[dead]);
      lists := lists[s := Drop(lists[s], j)];
    }

    /** Gives the memory of the entry at `p` back to the allocator. */
    method FreeEntry(p: int)
      requires this !in sma.Repr && sma.Valid() && Booked() && Housed(book, sma.Live()) && p in sma.Live()
      modifies `entries, `next, sma.Repr
      ensures Booked() && Housed(book, sma.Live()) && sma.Valid() && sma.Live() == old(sma.Live()) - {p}
      ensures InMemory() == Forget(old(InMemory()), p)
    {
      hide Allocator.Valid, Allocator.Live, Allocator.Books, Trims;
      sma.Free(p);
      sma.FreedBooks(p);
      TrimsTwice(book, old(sma.Books()), sma.Books());
      entries, next := entries - {p}, next - {p};
    }

    /** Frees an entry that was taken out of its list, or keeps it aside while somebody holds it. */
    method DisposeOf(dead: int, now: int)
      requires this !in sma.Repr && sma.Valid() && Booked() && Housed(book, sma.Live()) && dead in sma.Live()
      requires dead in entries
      requires |heads| == |lists| == cfg.nslots + 1 && heads[cfg.nslots] == At(lists[cfg.nslots], 0)
      modifies `heads, `entries, `next, `lists, sma.Repr
      ensures Booked() && Housed(book, sma.Live()) && sma.Valid()
      ensures sma.Live() == if old(entries[dead].refs) <= 0 then old(sma.Live()) - {dead} else old(sma.Live())
      ensures InMemory() == Dispose(old(InMemory()), dead, now)
    {
      hide Allocator.Valid, Allocator.Live, Booked, Room;
      if entries[dead].refs <= 0 {
        FreeEntry(dead);
      } else {
        next := next[dead := heads[cfg.nslots]];
        entries := entries[dead := entries[dead].(dtime := now)];
        heads := heads[cfg.nslots := dead];
        lists := lists[cfg.nslots := lists[cfg.nslots][..0] + [dead] + lists[cfg.nslots][0..]];
      }
    }

    /** Removes the entry at position `j` of slot `s`, to which `loc` points. */
    method RemoveEntry(loc: Loc, now: int, ghost s: nat, ghost j: nat)
      requires Sound() && s < cfg.nslots && IsAt(loc, s, j) && j < |lists[s]|
      modifies this, sma.Repr
      ensures Sound() && PendingKept() && IsAt(loc, s, j)
      ensures InSlot(old(Abs()), s, j) && Abs() == RemoveAt(old(Abs()), s, j, now) && |lists[s]| == old(|lists[s]|) - 1
    {
      hide Linked, WellFormed, Owned, Apart, Unlinked, Contents, TableOf, RemoveAt, Allocator.Valid, Allocator.Live,
        Booked, Housed, CacheLayout.Unlink, Dispose;
      SoundAt(loc, s, j);
      RemovedHead();
      SoundApart();
      ghost var v, t := InMemory(), Abs();
      RemovalStep(v, count, mem, s, j, now);
      RemovalFrame(v, s, j, now);
      RemovedWell(cfg, t, s, j, now, "");
      OwnedAfterRemove(t, s, j, now, shm, pending, sma.Live());
      var dead := Detach(loc, s, j);
      mem := if mem != 0 then mem - entries[dead].mem else mem;
      count := if count != 0 then count - 1 else count;
      DisposeOf(dead, now);
    }

    /** Takes the entry `loc` points to off the list of the removed, and frees it. */
    method RemoveCollected(loc: Loc, ghost j: nat)
      requires Sound() && IsAt(loc, cfg.nslots, j) && j < |lists[cfg.nslots]|
      modifies this, sma.Repr
      ensures Sound() && PendingKept() && IsAt(loc, cfg.nslots, j)
      ensures j < |old(Abs()).gc| && Abs() == old(Abs()).(gc := Drop(old(Abs()).gc, j))
    {
      hide Linked, WellFormed, Owned, Apart, Unlinked, Contents, TableOf, Allocator.Valid, Allocator.Live, Booked, Housed,
        CacheLayout.Unlink;
      SoundAt(loc, cfg.nslots, j);
      SoundApart();
      ghost var v, t := InMemory(), Abs();
      CollectedStep(v, count, mem, j);
      CollectedFrame(v, cfg.nslots, j);
      WellFormedButGc(cfg, t, t.(gc := Drop(t.gc, j)));
      OwnedAfterCollect(t, j, shm, pending, sma.Live());
      var dead := Detach(loc, cfg.nslots, j);
      FreeEntry(dead);
    }

    /** What the collector will leave of the list of the removed, once past position `j`. */
    ghost function Collected(j: nat, now: int): Chain
      requires Sound() && j <= |Abs().gc|
      reads this, sma, sma.Repr
    {
      Abs().gc[..j] + GcFrom(cfg, Abs().gc[j..], now)
    }

    /** One step of the collector: frees the entry `loc` points to, or goes past it. */
    method GcStep(loc: Loc, now: int, ghost j: nat) returns (at: Loc, ghost k: nat)
      requires Sound() && IsAt(loc, cfg.nslots, j) && j < |lists[cfg.nslots]| == |Abs().gc|
      modifies this, sma.Repr
      ensures Sound() && PendingKept() && IsAt(at, cfg.nslots, k) && |lists[cfg.nslots]| == |Abs().gc|
      ensures Abs() == old(Abs()).(gc := Abs().gc) && Collected(k, now) == old(Collected(j, now))
      ensures |lists[cfg.nslots]| - k < old(|lists[cfg.nslots]|) - j
    {
      hide Linked, WellFormed, Owned, Contents, TableOf, Allocator.Valid, Allocator.Live, Booked, Housed, GcFrom;
      SoundAt(loc, cfg.nslots, j);
      var entry := Load(loc);
      GcOne(cfg, Abs().gc, j, now);
      var age := if cfg.gcTtl != 0 then now - entries[entry].dtime else 0;
      if entries[entry].refs == 0 || age > cfg.gcTtl {
        RemoveCollected(loc, j);
        at, k := loc, j;
      } else {
        at, k := After(entry), j + 1;
      }
      SoundAt(at, cfg.nslots, k);
    }

    /**
     Of the removed entries `gc`, those are in memory after the collector ran at `now` that
     somebody uses, and uses for no longer than the limit.
     */
    ghost predicate Rid(gc: Chain, now: int)
      reads sma.segs
    {
      forall x {:trigger x in gc} :: x in gc ==>
        (x.at in sma.Live() <==> x.refs != 0 && (cfg.gcTtl == 0 || now - x.dtime <= cfg.gcTtl))
    }

    /** A removed entry owns its address alone. */
    lemma RemovedOnce(x: Entry)
      requires Sound() && x in Abs().gc
      ensures Copies(Abs(), x.at) == 1 && x.at != shm && x.at !in pending
    {
      hide Linked, Contents, TableOf, Shaped, WellFormed, Allocator.Live, Allocator.Valid, Booked, Housed, Owned;
      LiveIsOwned(x.at);
      NoCopyIn(Abs().gc, x.at);
    }

    /** So does an entry of a chain. */
    lemma EntryOnce(s: nat, j: nat)
      requires Sound() && InSlot(Abs(), s, j)
      ensures var p := Abs().slots[s][j].at; Copies(Abs(), p) == 1 && p != shm && p !in pending
    {
      hide Linked, Contents, TableOf, Shaped, WellFormed, Allocator.Live, Allocator.Valid, Booked, Housed, Owned;
      LiveIsOwned(Abs().slots[s][j].at);
      EntryCopies(Abs(), s, j);
    }

    /** What the number of its owners says of an address that only an entry can own. */
    lemma OwnerLives(p: int)
      requires Sound() && p != shm && p !in pending
      ensures p in sma.Live() <==> Copies(Abs(), p) > 0
    {
      hide Linked, Contents, TableOf, Shaped, WellFormed, Allocator.Live, Allocator.Valid, Booked, Housed, Owned;
      LiveIsOwned(p);
    }

    /** Frees the removed entries that nobody holds any more, or that were kept for too long. */
    method Gc(now: int)
      requires Sound()
      modifies this, sma.Repr
      ensures Sound() && PendingKept()
      ensures Abs() == Collect(cfg, old(Abs()), now) && Rid(old(Abs()).gc, now)
      ensures forall x :: x in Abs().gc <==>
        x in old(Abs()).gc && x.refs != 0 && (cfg.gcTtl == 0 || now - x.dtime <= cfg.gcTtl)
    {
      hide Linked, WellFormed, Owned, Contents, TableOf, Allocator.Valid, Allocator.Live, Booked, Housed, GcFrom, Collect,
        Copies;
      ghost var t := Abs();
      forall x | x in t.gc ensures Copies(t, x.at) == 1 && x.at != shm && x.at !in pending {
        RemovedOnce(x);
      }
      CollectedExactly(cfg, t.gc, now);
      WalkRemoved(now);
      forall x | x in t.gc
        ensures x.at in sma.Live() <==> x.refs != 0 && (cfg.gcTtl == 0 || now - x.dtime <= cfg.gcTtl)
      {
        CollectDecides(cfg, t, now, x);
        OwnerLives(x.at);
      }
    }

    /** The collector's walk along the list of the removed. */
    method WalkRemoved(now: int)
      requires Sound()
      modifies this, sma.Repr
      ensures Sound() && PendingKept()
      ensures Abs() == Collect(cfg, old(Abs()), now) && Abs().gc == GcFrom(cfg, old(Abs()).gc, now)
    {
      hide Linked, WellFormed, Owned, Contents, TableOf, Allocator.Valid, Allocator.Live, Booked, Housed, GcFrom;
      ghost var t := Abs();
      var loc := Head(cfg.nslots);
      ghost var j := 0;
      SoundAt(loc, cfg.nslots, 0);
      assert t.gc[..0] + GcFrom(cfg, t.gc, now) == GcFrom(cfg, t.gc, now) && t.gc[0..] == t.gc;
      while Load(loc) != NULL
        invariant Sound() && PendingKept() && IsAt(loc, cfg.nslots, j) && |lists[cfg.nslots]| == |Abs().gc|
        invariant loc.After? ==> loc.entry in next
        invariant loc.Head? ==> loc.list < |heads|
        invariant Load(loc) == At(lists[cfg.nslots], j)
        invariant Abs() == t.(gc := Abs().gc) && Collected(j, now) == GcFrom(cfg, t.gc, now)
        decreases |lists[cfg.nslots]| - j
      {
        loc, j := GcStep(loc, now, j);
        SoundAt(loc, cfg.nslots, j);
      }
      SoundAt(loc, cfg.nslots, j);
      NothingToCollect(cfg, now);
      assert Abs().gc[..j] + [] == Abs().gc && Abs().gc[j..] == [];
    }

    /** Links the persisted entry at `p` where `loc` points. */
    method LinkIn(loc: Loc, p: int, ghost s: nat, ghost j: nat)
      requires Sound() && p in pending && IsAt(loc, s, j) && s == Slot(cfg, entries[p].key)
      requires Stored(cfg, Abs(), entries[p].key) == None
      modifies this
      ensures Sound() && pending == old(pending) - {p} && log == old(log)
      ensures j <= |old(Abs()).slots[s]| && Abs() == LinkAt(old(Abs()), s, j, old(entries[p]))
    {
      hide Linked, WellFormed, Owned, Apart, Unlinked, Contents, TableOf, Allocator.Valid, Allocator.Live, Booked, Housed,
        Stored, LinkAt;
      ghost var v, t, e := InMemory(), Abs(), entries[p];
      SoundAt(loc, s, j);
      SoundApart();
      LinkedWell(cfg, t, s, j, e, "");
      OwnedAfterLink(t, s, j, e, shm, pending, sma.Live());
      UncountedUnlinked(v, count, mem, p);
      LinkedStep(v, count, mem, s, j, p);
      next := next[p := Load(loc)];
      Assign(loc, p);
      lists := lists[s := lists[s][..j] + [p] + lists[s][j..]];
      mem := mem + entries[p].mem;
      count := count + 1;
      pending := pending - {p};
      assert InMemory() == Link(v, s, j, p);
    }

    /** Inserts the persisted entry at `p`; an exclusive insertion gives way to a live entry of the same key. */
    method Insert(p: int, exclusive: bool, now: int) returns (ok: bool)
      requires Sound() && p in pending
      modifies this, sma.Repr
      ensures Sound() && log == old(log)
      ensures (Abs(), ok) == CacheTable.Insert(cfg, old(Abs()), old(entries[p]), exclusive, now)
      ensures pending == if ok then old(pending) - {p} else old(pending)
      ensures Rid(old(Abs()).gc, now)
      ensures ok <==> !exclusive || !Alive(old(Abs()), old(entries[p].key), old(entries[p].ctime))
    {
      hide Linked, Owned, Contents, TableOf, Allocator.Valid, Allocator.Live, Booked, Housed, CacheTable.Insert,
        WellFormed, Copies, Alive;
      ghost var t, e := Abs(), entries[p];
      PendingAt(p);
      forall x | x in t.gc ensures Copies(t, x.at) == 1 && x.at != shm && x.at !in pending {
        RemovedOnce(x);
      }
      InsertEffect(cfg, t, e, exclusive, now, "");
      ok := WalkChain(p, exclusive, now);
      GotRid(t, CacheRuns.Store(e, exclusive, now));
    }

    lemma PendingAt(p: int)
      requires Sound() && p in pending
      ensures p in entries && entries[p].at == p && WellFormed(cfg, Abs())
    {
    }

    /** The collector runs, and then the insertion walks along its chain. */
    method WalkChain(p: int, exclusive: bool, now: int) returns (ok: bool)
      requires Sound() && p in pending
      modifies this, sma.Repr
      ensures Sound() && log == old(log)
      ensures (Abs(), ok) == CacheTable.Insert(cfg, old(Abs()), old(entries[p]), exclusive, now)
      ensures pending == if ok then old(pending) - {p} else old(pending)
    {
      hide Linked, Owned, Contents, TableOf, Allocator.Valid, Allocator.Live, Booked, Housed, RemoveAt, LinkAt, WellFormed,
        InsertFrom, Stored, NoneBefore;
      Gc(now);
      var e := entries[p];
      ghost var t := Abs();
      var s := Slot(cfg, e.key);
      var loc := Head(s);
      ghost var j := 0;
      NoneBeforeFirst(t.slots[s], e.key);
      SoundAt(loc, s, 0);
      var entry := Load(loc);
      while entry != NULL
        invariant Sound() && PendingKept() && IsAt(loc, s, j) && p in pending && entries[p] == e
        invariant entry == At(lists[s], j) && |Abs().slots[s]| == |lists[s]|
        invariant NoneBefore(Abs().slots[s], j, e.key)
        invariant InsertFrom(cfg, t, s, 0, e, exclusive, now) == InsertFrom(cfg, Abs(), s, j, e, exclusive, now)
        decreases |lists[s]| - j
      {
        SoundAt(loc, s, j);
        InsertStep(cfg, Abs(), s, j, e, exclusive, now);
        if entries[entry].key == e.key {
          if exclusive && !HardExpired(entries[entry], e.ctime) {
            return false;
          }
          RemoveEntry(loc, now, s, j);
          LinkIn(loc, p, s, j);
          return true;
        }
        if Expired(cfg, entries[entry], e.ctime) {
          RemoveEntry(loc, now, s, j);
        } else {
          loc := After(entry);
          j := j + 1;
        }
        SoundAt(loc, s, j);
        entry := Load(loc);
      }
      SoundAt(loc, s, j);
      InsertStep(cfg, Abs(), s, j, e, exclusive, now);
      LinkIn(loc, p, s, j);
      ok := true;
    }

    lemma NoneBeforeFirst(c: Chain, k: string)
      ensures NoneBefore(c, 0, k)
    {
    }

    /** The address of the live entry of `key`, or null. */
    method FindNostat(key: string, t: int) returns (p: int, ghost j: nat)
      requires Sound()
      ensures j == FindIn(cfg, Abs(), key, t) && |Abs().slots[Slot(cfg, key)]| == |lists[Slot(cfg, key)]|
      ensures if j < |lists[Slot(cfg, key)]| then p == lists[Slot(cfg, key)][j] && p != NULL else p == NULL
      ensures p == NULL <==> Lookup(cfg, Abs(), key, t) == None
      ensures p != NULL <==> Alive(Abs(), key, t)
      ensures p != NULL ==> p in entries && Lookup(cfg, Abs(), key, t) == Some(entries[p])
    {
      hide Linked, Owned, Contents, TableOf, Allocator.Valid, Allocator.Live, Booked, Housed, WellFormed;
      var s := Slot(cfg, key);
      ghost var c := Abs().slots[s];
      SoundTable();
      LookupIffAlive(cfg, Abs(), key, t);
      j := 0;
      SoundAt(Head(s), s, 0);
      p := heads[s];
      while p != NULL
        invariant j <= |lists[s]| && p == At(lists[s], j)
        invariant NoneBefore(c, j, key)
        decreases |lists[s]| - j
      {
        SoundAt(Where(s, j), s, j);
        if entries[p].key == key {
          IndexOfOnly(c, j);
          if HardExpired(entries[p], t) {
            return NULL, |lists[s]|;
          }
          return;
        }
        j := j + 1;
        p := next[p];
      }
      SoundAt(Where(s, j), s, j);
      assert IndexOf(c, key) == |c|;
    }

    /** Changes the entry at position `j` of slot `s` in place. */
    method Modify(p: int, e: Entry, ghost s: nat, ghost j: nat)
      requires Sound() && s < cfg.nslots && j < |lists[s]| && lists[s][j] == p
      requires p in entries && e.at == p && e.key == entries[p].key && e.mem == entries[p].mem
      modifies `entries
      ensures Sound() && PendingKept()
      ensures InSlot(old(Abs()), s, j) && Abs() == SetAt(old(Abs()), s, j, e)
      ensures entries == old(entries)[p := e]
    {
      hide Linked, Owned, Apart, Contents, TableOf, Allocator.Valid, Allocator.Live, Booked, Room, WellFormed, SetAt;
      SoundAt(Where(s, j), s, j);
      SoundApart();
      ghost var t := Abs();
      ModifiedWell(cfg, t, s, j, e);
      EntryNotPending(s, j);
      OwnedAfterSet(t, s, j, e, shm, pending, sma.Live());
      PutStep(InMemory(), count, mem, s, j, e);
      entries := entries[p := e];
    }

    lemma Logged(op: Op)
      requires Usable(cfg)
      ensures CacheRuns.After(cfg, log + [op]).0 == Apply(cfg, CacheRuns.After(cfg, log).0, op).0
    {
    }

    /**
     Looks `key` up at time `t` and takes a reference.  What it hits is what a map that
     forgets nothing would hold after the same operations.
     */
    method Find(key: string, t: int) returns (p: int)
      requires Valid()
      modifies this
      ensures Valid() && pending == old(pending) && log == old(log) + [Fetch(key, t)]
      ensures p != NULL <==> Lookup(cfg, old(Abs()), key, t).Some?
      ensures p != NULL <==> Alive(old(Abs()), key, t)
      ensures p != NULL ==> p in old(entries) && var e := old(entries)[p];
        && e.key == key && (e.ttl == 0 || t <= e.ctime + e.ttl)
        && entries == old(entries)[p := e.(hits := e.hits + 1, atime := t, refs := e.refs + 1)]
      ensures p != NULL ==> p in entries && entries[p] == Hit(Lookup(cfg, old(Abs()), key, t).value, t) && entries[p].at == p
      ensures p != NULL ==> var m := CacheRuns.After(cfg, old(log)).1;
        key in m && m[key] == ItemOf(entries[p]) && !(m[key].ttl != 0 && m[key].ctime + m[key].ttl < t)
    {
      hide Linked, Owned, Contents, TableOf, Allocator.Valid, Allocator.Live, Booked, Housed, WellFormed, SetAt,
        CacheRuns.After, Shaped;
      ghost var j;
      p, j := FindNostat(key, t);
      NeverLies(cfg, log, key, t);
      Logged(Fetch(key, t));
      if p != NULL {
        SoundAt(Where(Slot(cfg, key), j), Slot(cfg, key), j);
        Modify(p, Hit(entries[p], t), Slot(cfg, key), j);
      }
      log := log + [Fetch(key, t)];
    }

    /** Gives a reference back, whether or not the entry is still in its chain. */
    method Release(p: int)
      requires Valid() && p in entries && entries[p].at == p
      modifies this
      ensures Valid() && pending == old(pending) && log == old(log) + [CacheRuns.Release(p)]
      ensures entries == old(entries)[p := old(entries[p]).(refs := old(entries[p]).refs - 1)]
    {
      hide Linked, Owned, Contents, TableOf, Allocator.Valid, Allocator.Live, Booked, Room, WellFormed, CacheRuns.After,
        Shaped;
      ghost var t := Abs();
      var e := entries[p].(refs := entries[p].refs - 1);
      ReleaseStep(InMemory(), count, mem, p);
      ReleaseEffect(cfg, t, p, "");
      OwnedAfterRelease(t, p, shm, pending, sma.Live());
      Logged(CacheRuns.Release(p));
      entries := entries[p := e];
      log := log + [CacheRuns.Release(p)];
    }

    /** Removes the entry of `key`, expired or not, and says whether there was one. */
    method Delete(key: string, now: int) returns (found: bool)
      requires Valid()
      modifies this, sma.Repr
      ensures Valid() && pending == old(pending) && log == old(log) + [Remove(key, now)]
      ensures (Abs(), found) == CacheTable.Delete(cfg, old(Abs()), key, now)
      ensures found <==> Stored(cfg, old(Abs()), key).Some?
      ensures Stored(cfg, Abs(), key) == None
      ensures found ==> var e := Stored(cfg, old(Abs()), key).value;
        && (e.at in sma.Live() <==> e.refs > 0)
        && Abs().gc == if e.refs > 0 then [e.(dtime := now)] + old(Abs()).gc else old(Abs()).gc
    {
      hide Linked, Owned, Contents, TableOf, Allocator.Valid, Allocator.Live, Booked, Housed, WellFormed, CacheRuns.After,
        RemoveAt, Shaped;
      ghost var t := Abs();
      var s := Slot(cfg, key);
      var loc := Head(s);
      ghost var j := 0;
      Logged(Remove(key, now));
      DeleteEffect(cfg, t, key, now, key);
      SoundAt(loc, s, 0);
      var entry := Load(loc);
      while entry != NULL
        invariant Valid() && PendingKept() && IsAt(loc, s, j) && Abs() == t && |t.slots[s]| == |lists[s]|
        invariant entry == At(lists[s], j)
        invariant NoneBefore(t.slots[s], j, key)
        decreases |lists[s]| - j
      {
        SoundAt(loc, s, j);
        if entries[entry].key == key {
          IndexOfOnly(t.slots[s], j);
          EntryOnce(s, j);
          RemoveEntry(loc, now, s, j);
          RemovedJoins(t, s, j, now);
          RemoveAtMeasures(t, s, j, now, t.slots[s][j].at);
          OwnerLives(t.slots[s][j].at);
          log := log + [Remove(key, now)];
          return true;
        }
        loc := After(entry);
        j := j + 1;
        SoundAt(loc, s, j);
        entry := Load(loc);
      }
      SoundAt(loc, s, j);
      log := log + [Remove(key, now)];
      found := false;
    }

    /** Removes the entries of slot `s` that are expired at `t`, or all of them. */
    method SweepChain(s: nat, all: bool, t: int, now: int)
      requires Sound() && s < cfg.nslots
      modifies this, sma.Repr
      ensures Sound() && PendingKept()
      ensures Abs() == SweepSlot(cfg, old(Abs()), s, 0, all, t, now)
    {
      hide Linked, Owned, Contents, TableOf, Allocator.Valid, Allocator.Live, Booked, Housed, WellFormed, RemoveAt;
      ghost var start := Abs();
      var loc := Head(s);
      ghost var j := 0;
      SoundAt(loc, s, 0);
      var entry := Load(loc);
      while entry != NULL
        invariant Sound() && PendingKept() && IsAt(loc, s, j) && |Abs().slots[s]| == |lists[s]|
        invariant entry == At(lists[s], j)
        invariant SweepSlot(cfg, start, s, 0, all, t, now) == SweepSlot(cfg, Abs(), s, j, all, t, now)
        decreases |lists[s]| - j
      {
        SoundAt(loc, s, j);
        if all || Expired(cfg, entries[entry], t) {
          RemoveEntry(loc, now, s, j);
        } else {
          loc := After(entry);
          j := j + 1;
        }
        SoundAt(loc, s, j);
        entry := Load(loc);
      }
      SoundAt(loc, s, j);
    }

    /** Sweeps every slot. */
    method Sweep(all: bool, t: int, now: int)
      requires Sound()
      modifies this, sma.Repr
      ensures Sound() && PendingKept()
      ensures Abs() == SweepFrom(cfg, old(Abs()), 0, all, t, now)
    {
      hide Linked, Owned, Contents, TableOf, Allocator.Valid, Allocator.Live, Booked, Housed, WellFormed, SweepSlot,
        Shaped;
      ghost var start := Abs();
      var s := 0;
      while s < cfg.nslots
        invariant s <= cfg.nslots && Sound() && PendingKept()
        invariant SweepFrom(cfg, start, 0, all, t, now) == SweepFrom(cfg, Abs(), s, all, t, now)
      {
        SweepChain(s, all, t, now);
        s := s + 1;
      }
    }

    /** Every chain is empty, and so is what the counters say. */
    ghost predicate Emptied()
      requires Shaped(InMemory()) && |lists| == cfg.nslots + 1
      reads `heads, `entries, `next, `lists, `count, `mem
    {
      count == 0 && mem == 0 && forall s :: 0 <= s < cfg.nslots ==> Abs().slots[s] == []
    }

    /** Removes every entry, whatever its age, and resets the counter of entries. */
    method RealExpunge(now: int)
      requires Sound()
      modifies this, sma.Repr
      ensures Sound() && PendingKept()
      ensures Abs() == Expunge(cfg, old(Abs()), now)
      ensures Emptied()
    {
      hide Linked, Owned, Contents, Allocator.Valid, Allocator.Live, Booked, Housed, WellFormed, SweepFrom, Shaped;
      ExpungeEffect(cfg, Abs(), now, "");
      SweepCounted(cfg, Abs(), now);
      Sweep(true, 0, now);
      count := 0;
    }

    lemma LiveIsOwned(p: int)
      requires Sound()
      ensures p in sma.Live() <==> p == shm || p in pending || Copies(Abs(), p) > 0
      ensures Owners(Abs(), shm, pending, p) <= 1
    {
    }

    /**
     Whatever the last operation of the run was: an entry that was referenced before it, and
     if removed not for longer than the limit, is in memory after it.
     */
    lemma HeldIsLive(p: int)
      requires Valid() && log != []
      requires var m := |log| - 1; var before := CacheRuns.After(cfg, log[..m]).0;
        Copies(before, p) > 0 && HeldAt(cfg, before, p, log[m]) && (log[m].Store? ==> log[m].e.at != p)
      ensures p in sma.Live()
    {
      hide Linked, Contents, TableOf, Shaped, WellFormed, Allocator.Live, Allocator.Valid, Booked, Housed, Owned, HeldAt, Copies,
        CacheRuns.After;
      var m := |log| - 1;
      assert log == log[..m] + [log[m]];
      RunKeepsHeld(cfg, log[..m], log[m], p);
      LiveIsOwned(p);
    }

    /** Every value the contents refer to is that of an entry in memory, in a block with room for it. */
    lemma BoxHoused(b: Box)
      requires Sound() && b in Boxes(Abs())
      ensures b.at in entries && entries[b.at].mem == b.mem && entries[b.at].key == b.key
      ensures entries[b.at].val == Boxed(b.id)
      ensures b.at in sma.Live() && b.at !in pending && Room(sma.Books(), b.at, b.mem)
    {
      hide Linked, Contents, TableOf, Shaped, WellFormed, Allocator.Live, Allocator.Valid, Allocator.Books, Booked, Housed, Owned,
        Room;
      Rehoused();
      var t := Abs();
      var p := BoxListed(b);
      LiveIsOwned(p);
      HousedAt(p);
    }

    lemma HousedAt(p: int)
      requires Housed(sma.Books(), sma.Live()) && p in entries
      ensures p in sma.Live() && Room(sma.Books(), p, entries[p].mem)
    {
    }

    /** So is every entry, inserted or not. */
    lemma EntryHoused(p: int)
      requires Sound() && p in entries
      ensures p in sma.Live() && Room(sma.Books(), p, entries[p].mem)
    {
      hide Linked, Contents, TableOf, Shaped, WellFormed, Allocator.Live, Allocator.Valid, Allocator.Books, Owned, Room;
      Rehoused();
      HousedAt(p);
    }

    lemma BoxListed(b: Box) returns (p: int)
      requires Sound() && b in Boxes(Abs())
      ensures p in entries && entries[p].at == p && Copies(Abs(), p) > 0 && b in EntryBoxes(entries[p])
    {
      hide Linked, Contents, TableOf, Shaped, WellFormed, Allocator.Live, Allocator.Valid, Booked, Housed, Owned;
      var t := Abs();
      if s, j :| 0 <= s < |t.slots| && 0 <= j < |t.slots[s]| && b in EntryBoxes(t.slots[s][j]) {
        SoundAt(Where(s, 0), s, 0);
        SoundAt(Where(s, j), s, j);
        EntryCopies(t, s, j);
        p := lists[s][j];
      } else {
        var j :| 0 <= j < |t.gc| && b in EntryBoxes(t.gc[j]);
        SoundAt(Where(cfg.nslots, 0), cfg.nslots, 0);
        SoundAt(Where(cfg.nslots, j), cfg.nslots, j);
        ChainWithout(t.gc, j, t.gc[j].at);
        p := lists[cfg.nslots][j];
      }
    }

    /**
     Empties the cache.  Of the blocks handed out there remain the cache structure, the
     entries not yet inserted, and the entries somebody references.
     */
    method Clear(now: int)
      requires Valid()
      modifies this, sma.Repr
      ensures Valid() && pending == old(pending) && log == old(log) + [CacheRuns.Clear(now)]
      ensures forall p {:trigger p in sma.Live()} :: p in sma.Live() <==>
        p == shm || p in pending || ChainCopies(old(Abs()).gc, p) + SlotsHeld(old(Abs()).slots, p) > 0
      ensures Emptied()
    {
      hide Linked, Owned, Contents, TableOf, Allocator.Valid, Allocator.Live, Booked, Housed, WellFormed, CacheRuns.After,
        Shaped, Expunge;
      ghost var t := Abs();
      Logged(CacheRuns.Clear(now));
      RealExpunge(now);
      log := log + [CacheRuns.Clear(now)];
      forall p ensures p in sma.Live() <==> p == shm || p in pending || ChainCopies(t.gc, p) + SlotsHeld(t.slots, p) > 0 {
        LiveIsOwned(p);
        ExpungeFrees(cfg, t, now, p);
      }
    }

    /** How many bytes must be available for the call-back to leave the cache alone. */
    function Suitable(size: nat): int {
      if smart > 0 then smart * size else sma.size * SmaArena.WORD_BYTES / 2
    }

    /** `avail` bytes are less than `smart` times the size, or without `smart` less than half a segment. */
    predicate Scarce(avail: int, size: nat) {
      if smart > 0 then avail < smart * size else 2 * avail < sma.size * SmaArena.WORD_BYTES
    }

    /** Whether one segment has more than `size` bytes available. */
    ghost predicate Roomy(size: nat)
      reads sma, sma.segs
    {
      exists i :: 0 <= i < |sma.segs| && sma.segs[i].avail * SmaArena.WORD_BYTES > size
    }

    /** The addresses of the book `b` that are still handed out if the contents become `t`. */
    ghost function StillOut(b: Book, t: Table): set<int>
      reads `pending
    {
      set p | p in b.live && Owners(t, shm, pending, p) > 0
    }

    /** Bytes every segment then has available. */
    ghost function Avails(b: Book, t: Table): (s: seq<int>)
      requires |b.sizes| == |sma.segs|
      reads `pending
      ensures |s| == |sma.segs|
    {
      sma.AvailsIf(b, StillOut(b, t))
    }

    /** The contents and the book tell what is available. */
    lemma Availability(i: int)
      requires Sound() && 0 <= i < |sma.segs|
      ensures sma.AvailFrom(0) == Sum(Avails(book, Abs()))
      ensures sma.segs[i].avail * SmaArena.WORD_BYTES == Avails(book, Abs())[i]
    {
      hide Linked, Contents, TableOf, Shaped, WellFormed, Allocator.Live, Allocator.Valid, Allocator.Books;
      var t := Abs();
      forall p ensures p in StillOut(book, t) <==> p in sma.Live() {
        assert Owners(t, shm, pending, p) == B(p in sma.Live());
      }
      assert StillOut(book, t) == sma.Live();
      sma.AvailKnown(book, i);
      sma.AvailFromIsSum(book, 0);
      assert sma.AvailsIf(book, sma.Live())[0..] == sma.AvailsIf(book, sma.Live());
    }

    lemma Availabilities(size: nat)
      requires Sound()
      ensures sma.AvailFrom(0) == Sum(Avails(book, Abs()))
      ensures Roomy(size) <==> Roomed(Avails(book, Abs()), size)
    {
      hide Linked, Owned, Contents, TableOf, Shaped, WellFormed, Allocator.Live, Avails, Allocator.AvailFrom;
      Availability(0);
      forall i | 0 <= i < |sma.segs|
        ensures sma.segs[i].avail * SmaArena.WORD_BYTES == Avails(book, Abs())[i]
      {
        Availability(i);
      }
    }

    /** What the segments have available once the removed entries are collected. */
    ghost function Collectible(b: Book, u: Table, now: int): seq<int>
      requires |b.sizes| == |sma.segs|
      reads `pending
    {
      Avails(b, Collect(cfg, u, now))
    }

    /** What they have available once the expired ones are gone too. */
    ghost function Sweepable(b: Book, u: Table, t: int, now: int): seq<int>
      requires |b.sizes| == |sma.segs|
      reads `pending
    {
      Avails(b, SweepFrom(cfg, Collect(cfg, u, now), 0, false, t, now))
    }

    /** What the allocator's call-back comes to, when the contents are `u` and the book `b`. */
    ghost function CallBack(b: Book, u: Table, size: nat, t: int, now: int): (op: Op)
      requires |b.sizes| == |sma.segs|
      reads `pending
      ensures op.Evict? && op.time == t && op.now == now
    {
      var short := Sum(Collectible(b, u, now)) < Suitable(size);
      Evict(t, now, short, short && cfg.ttl != 0 && Roomed(Sweepable(b, u, t, now), size))
    }

    /** Empties the cache, unless one segment has room enough. */
    method ExpungeUnlessRoomy(size: nat, now: int) returns (roomy: bool)
      requires Sound()
      modifies this, sma.Repr
      ensures Sound() && PendingKept() && roomy == old(Roomed(Avails(book, Abs()), size))
      ensures Abs() == if roomy then old(Abs()) else Expunge(cfg, old(Abs()), now)
      ensures if roomy then Roomy(size) else Emptied()
    {
      hide Linked, Owned, Contents, TableOf, Allocator.Valid, Allocator.Live, Booked, Housed, WellFormed, CacheRuns.After,
        Shaped, Expunge, SweepFrom, Collect, Allocator.AvailFrom, Avails;
      roomy := sma.GetAvailSize(size);
      Availabilities(size);
      if !roomy {
        RealExpunge(now);
      }
    }

    /** Removes the expired entries, or all, if less than suitable is available. */
    method ExpungeIfShort(size: nat, t: int, now: int) returns (short: bool, ghost roomy: bool)
      requires Sound()
      modifies this, sma.Repr
      ensures Sound() && PendingKept() && (short <==> old(Sum(Avails(book, Abs()))) < Suitable(size))
      ensures var swept := SweepFrom(cfg, old(Abs()), 0, false, t, now);
        && (roomy <==> short && cfg.ttl != 0 && Roomed(old(Avails(book, SweepFrom(cfg, Abs(), 0, false, t, now))), size))
        && Abs() == if !short then old(Abs())
                    else if cfg.ttl == 0 then Expunge(cfg, old(Abs()), now)
                    else if roomy then swept else Expunge(cfg, swept, now)
      ensures !short ==> sma.AvailFrom(0) >= Suitable(size)
      ensures short ==> if roomy then Roomy(size) else Emptied()
    {
      hide Linked, Owned, Contents, TableOf, Allocator.Valid, Allocator.Live, Booked, Housed, WellFormed, CacheRuns.After,
        Shaped, Expunge, SweepFrom, Collect, Allocator.AvailFrom, Avails;
      roomy := false;
      var available := sma.GetAvailMem();
      Availabilities(size);
      short := available < Suitable(size);
      if cfg.ttl == 0 {
        if available < Suitable(size) {
          RealExpunge(now);
        }
      } else if available < Suitable(size) {
        Sweep(false, t, now);
        roomy := ExpungeUnlessRoomy(size, now);
      }
    }

    /**
     What the allocator calls when no segment can serve `size` bytes.  The contents and the
     blocks handed out decide what it does; either enough is available afterwards, in all
     or in one segment, or the cache is empty.
     */
    method DefaultExpunge(size: nat, t: int, now: int) returns (ghost short: bool, ghost roomy: bool)
      requires Valid()
      modifies this, sma.Repr
      ensures Valid() && pending == old(pending) && log == old(log) + [Evict(t, now, short, roomy)]
      ensures Evict(t, now, short, roomy) == old(CallBack(sma.Books(), Abs(), size, t, now))
      ensures short <==> Scarce(Sum(old(Collectible(sma.Books(), Abs(), now))), size)
      ensures roomy <==> short && cfg.ttl != 0 && Roomed(old(Sweepable(sma.Books(), Abs(), t, now)), size)
      ensures Abs() == Evicted(cfg, old(Abs()), t, now, short, roomy) && Rid(old(Abs()).gc, now)
      ensures forall p {:trigger p in pending} :: p in pending ==> p in old(entries) && entries[p] == old(entries[p])
      ensures Emptied() || Roomy(size) || !Scarce(sma.AvailFrom(0), size)
      ensures !short ==> sma.AvailFrom(0) >= Suitable(size)
      ensures short ==> if roomy then Roomy(size) else Emptied()
    {
      hide Linked, Owned, Contents, TableOf, Allocator.Valid, Allocator.Live, Booked, Housed, WellFormed, CacheRuns.After,
        Shaped, Evicted, Collect, SweepFrom, Allocator.AvailFrom, Emptied, Avails, Copies, Valid, Sound, Sum, Scarce, Suitable,
        Roomed, Rid, Collectible, Sweepable;
      ValidIs();
      ghost var before := Abs();
      forall x | x in before.gc ensures Copies(before, x.at) == 1 && x.at != shm && x.at !in pending {
        RemovedOnce(x);
      }
      ScarceIs(Sum(Collectible(sma.Books(), before, now)), size);
      short, roomy := CleanUp(size, t, now);
      ValidIs();
      ScarceIs(sma.AvailFrom(0), size);
      GotRid(before, Evict(t, now, short, roomy));
    }

    lemma ScarceIs(avail: int, size: nat)
      ensures Scarce(avail, size) <==> avail < Suitable(size)
    {
    }

    /** What was removed before an operation that runs the collector is in memory after it as that decides. */
    lemma GotRid(before: Table, op: Op)
      requires Sound() && |before.slots| == cfg.nslots && RunsCollector(op) && Abs() == Apply(cfg, before, op).0
      requires forall x :: x in before.gc ==>
        Copies(before, x.at) == 1 && x.at != shm && x.at !in pending && (op.Store? ==> op.e.at != x.at)
      ensures Rid(before.gc, op.now)
    {
      hide Linked, Owned, Contents, TableOf, Shaped, WellFormed, Allocator.Live, Allocator.Valid, Booked, Housed, Apply,
        Copies;
      forall x | x in before.gc
        ensures x.at in sma.Live() <==> x.refs != 0 && (cfg.gcTtl == 0 || op.now - x.dtime <= cfg.gcTtl)
      {
        CollectorDecides(cfg, before, op, x);
        OwnerLives(x.at);
      }
    }

    lemma ValidIs()
      requires Valid()
      ensures Sound() && Usable(cfg) && Shaped(InMemory()) && |Abs().slots| == cfg.nslots == |lists| - 1
    {
    }

    /** Collects, looks whether memory is short, sweeps, and looks whether that made room. */
    method CleanUp(size: nat, t: int, now: int) returns (ghost short: bool, ghost roomy: bool)
      requires Valid()
      modifies this, sma.Repr
      ensures Valid() && pending == old(pending) && log == old(log) + [Evict(t, now, short, roomy)]
      ensures Evict(t, now, short, roomy) == old(CallBack(sma.Books(), Abs(), size, t, now))
      ensures Abs() == Evicted(cfg, old(Abs()), t, now, short, roomy)
      ensures forall p {:trigger p in pending} :: p in pending ==> p in old(entries) && entries[p] == old(entries[p])
      ensures !short ==> sma.AvailFrom(0) >= Suitable(size)
      ensures short ==> if roomy then Roomy(size) else Emptied()
    {
      hide Linked, Owned, Contents, TableOf, Allocator.Valid, Allocator.Live, Booked, Housed, WellFormed, CacheRuns.After,
        Shaped, Expunge, SweepFrom, Collect, Allocator.AvailFrom, Emptied, Avails;
      ghost var before := Abs();
      Rehoused();
      book := sma.Books();
      Rewritten();
      Gc(now);
      short, roomy := ExpungeIfShort(size, t, now);
      assert Abs() == Evicted(cfg, before, t, now, short, roomy);
      Logged(Evict(t, now, short, roomy));
      log := log + [Evict(t, now, short, roomy)];
    }

    /** Sweeping makes more available, and what is available is never less than nothing. */
    lemma SweepableIsMore(t: int, now: int, i: int)
      requires Sound() && 0 <= i < |sma.segs|
      ensures 0 <= Collectible(sma.Books(), Abs(), now)[i] <= Sweepable(sma.Books(), Abs(), t, now)[i]
    {
      hide Linked, Owned, Contents, TableOf, Shaped, WellFormed, Allocator.Live, Booked, Housed, SweepFrom,
        Allocator.AvailIf;
      var u := Collect(cfg, Abs(), now);
      var v := SweepFrom(cfg, u, 0, false, t, now);
      forall p ensures Owners(v, shm, pending, p) <= Owners(u, shm, pending, p) {
        SweepShrinks(cfg, u, 0, false, t, now, p);
      }
      sma.AvailIfLess(StillOut(sma.Books(), v), StillOut(sma.Books(), u), i);
    }

    /**
     The call-back does what the header file promises exactly if: without a time to live,
     memory is not short, or is still once the expired entries are gone; with one, if memory
     is short, unless what the sweep leaves is enough in all but no segment has more than
     the size, and else, if enough is available, which is certain if `smart` is set.
     */
    lemma CallBackKeepsPromise(size: nat, t: int, now: int)
      requires Sound()
      ensures
        var op := CallBack(sma.Books(), Abs(), size, t, now);
        var before, swept := Collectible(sma.Books(), Abs(), now), Sweepable(sma.Books(), Abs(), t, now);
        && (op.short && !op.roomy <==> Empties(cfg.ttl, Suitable(size), before, swept, size))
        && ((op.short && !op.roomy <==> Promised(cfg.ttl, Suitable(size), swept, size)) <==>
             if cfg.ttl == 0 then !op.short || Sum(swept) < Suitable(size)
             else if op.short then Sum(swept) < size || op.roomy
             else size <= Sum(swept))
        && (smart > 0 && !op.short ==> size <= Sum(swept))
    {
      hide Linked, Owned, Contents, TableOf, Shaped, WellFormed, Allocator.Live, Allocator.Valid, Booked, Housed, Avails,
        SweepFrom, Collect;
      var before, swept := Collectible(sma.Books(), Abs(), now), Sweepable(sma.Books(), Abs(), t, now);
      forall i {:trigger before[i]} | 0 <= i < |sma.segs| ensures 0 <= before[i] <= swept[i] {
        SweepableIsMore(t, now, i);
      }
      SumGrows(before, swept);
      assert forall i {:trigger swept[i]} :: 0 <= i < |swept| ==> 0 <= before[i] <= swept[i];
      PromiseKept(cfg.ttl, Suitable(size), before, swept, size);
    }

    /** Makes the block at `p`, just handed out, the home of a new entry. */
    method Adopt(p: int, e: Entry)
      requires SoundFor(sma.Live() - {p}) && p in sma.Live() && p != NULL && e.at == p
      requires Housed(sma.Books(), sma.Live() - {p}) && Room(sma.Books(), p, e.mem)
      modifies `entries, `next, `pending, `book
      ensures Sound() && Abs() == old(Abs()) && pending == old(pending) + {p} && p !in old(pending)
      ensures entries == old(entries)[p := e]
    {
      hide Linked, Owned, Contents, TableOf, Allocator.Valid, Allocator.Live, Booked, Room, WellFormed, CacheRuns.After,
        Unlinked;
      OwnedAfterAdopt(Abs(), shm, pending, sma.Live(), p);
      UncountedUnlinked(InMemory(), count, mem, p);
      AdoptStep(InMemory(), count, mem, p, e);
      entries := entries[p := e];
      next := next[p := NULL];
      pending := pending + {p};
      book := sma.Books();
      Rewritten();
    }

    lemma Rewritten()
      requires book == sma.Books()
      ensures Booked()
    {
      sma.BooksTrim();
    }

    /** Whether no segment has a block for `n` bytes. */
    ghost predicate Exhausted(n: nat)
      reads sma.segs
    {
      forall i {:trigger sma.segs[i]} :: 0 <= i < |sma.segs| ==> Full(sma.segs[i].arena, n, SmaArena.MIN_BLOCK)
    }

    twostate lemma StillBooked()
      requires old(Booked()) && book == old(book) && sma.Books() == old(sma.Books())
      ensures Booked()
    {
    }

    /** Whether segment `i` could serve `n` bytes if nothing but the cache structure were handed out. */
    ghost predicate Fits(i: int, n: nat) {
      && 0 <= i < |sma.segs| && !(sma.segs[i].base <= shm < sma.segs[i].base + sma.size)
      && SmaArena.RealSize(n) <= sma.size - sma.segs[i].header - 3 * SmaArena.BLOCK
    }

    /** With no entries left, every segment without the cache structure is as it was at the start. */
    lemma NoEntriesServe(i: int, n: nat)
      requires Sound() && pending == {} && (forall p {:trigger Copies(Abs(), p)} :: Copies(Abs(), p) == 0) && Fits(i, n)
      ensures sma.segs[i].arena == SmaArena.Initial(sma.segs[i].header, sma.size - 2 * SmaArena.BLOCK)
      ensures !Exhausted(n)
    {
      hide Linked, Contents, TableOf, Shaped, WellFormed, Allocator.Live, Booked, Housed, Full;
      forall p | p in sma.Live() ensures p == shm {
        LiveIsOwned(p);
      }
      sma.EmptySegment(i, n, SmaArena.MIN_BLOCK);
    }

    /** Whether the call-back of an allocation frees all entries, and one segment can then serve `n` bytes. */
    ghost predicate FreesEnough(n: nat, t: int, now: int)
      requires Sound()
      reads this, sma, sma.segs, sma.Repr
    {
      var op := CallBack(sma.Books(), Abs(), n + SmaArena.MIN_BLOCK * SmaArena.WORD_BYTES, t, now);
      op.short && !op.roomy && pending == {} && Unheld(cfg, Abs(), now) && exists i :: Fits(i, n)
    }

    lemma ServesOnceEmpty(u: Table, n: nat, t: int, now: int, roomy: bool)
      requires Sound() && pending == {} && (exists i :: Fits(i, n))
      requires WellFormed(cfg, u) && Unheld(cfg, u, now) && !roomy && Abs() == Evicted(cfg, u, t, now, true, roomy)
      ensures !Exhausted(n)
    {
      hide Linked, Contents, TableOf, Shaped, WellFormed, Allocator.Live, Booked, Housed, Full, Fits, Unheld, Evicted,
        Exhausted;
      forall p {:trigger Copies(Abs(), p)} ensures Copies(Abs(), p) == 0 {
        EvictFreesAll(cfg, u, t, now, roomy, p);
      }
      var i :| Fits(i, n);
      NoEntriesServe(i, n);
    }

    /** The call-backs an allocation of `n` bytes makes. */
    ghost function Evictions(n: nat, t: int, now: int): seq<Op>
      requires Sound()
      reads this, sma, sma.segs, sma.Repr
    {
      if Exhausted(n) then [CallBack(sma.Books(), Abs(), n + SmaArena.MIN_BLOCK * SmaArena.WORD_BYTES, t, now)] else []
    }

    /** One attempt to find memory for an entry. */
    method TryPersist(e: Entry, n: nat) returns (p: int)
      requires Sound()
      modifies this, sma.Repr
      ensures Sound() && Abs() == old(Abs()) && log == old(log)
      ensures p == NULL <==> old(Exhausted(n))
      ensures p == NULL ==> pending == old(pending) && Exhausted(n) && sma.Books() == old(sma.Books())
      ensures p != NULL ==> p !in old(pending) && pending == old(pending) + {p}
      ensures p != NULL ==> p in entries && entries[p] == e.(at := p, mem := n)
    {
      hide Linked, Owned, Contents, TableOf, Allocator.Valid, Allocator.Live, Booked, Housed, WellFormed, CacheRuns.After,
        Shaped, Full, Allocator.InTurn, Served;
      var granted;
      ghost var b, live := sma.Books(), sma.Live();
      Rehoused();
      p, granted := sma.MallocOnce(n, SmaArena.MIN_BLOCK);
      if p == NULL {
        sma.UntouchedStands();
        sma.UntouchedBooks();
        StillBooked();
      } else {
        StillHoused(b, live, sma.Books(), sma.Live() - {p});
        Adopt(p, e.(at := p, mem := n));
      }
    }

    /**
     Persists an entry that takes `n` bytes, expunging once if no segment has a fitting
     block.  It fails only if after that there is still none, which cannot be if the cache
     was emptied while nobody held an entry and one segment is large enough.
     */
    method Persist(e: Entry, n: nat, t: int, now: int) returns (p: int, ghost evicted: seq<Op>)
      requires Valid()
      modifies this, sma.Repr
      ensures Valid() && log == old(log) + evicted
      ensures evicted == old(Evictions(n, t, now))
      ensures evicted != [] ==> |evicted| == 1 && evicted[0].Evict? && evicted[0].time == t && evicted[0].now == now
      ensures var before, swept := old(Collectible(sma.Books(), Abs(), now)), old(Sweepable(sma.Books(), Abs(), t, now));
        && (evicted != [] ==> (evicted[0].short <==> Scarce(Sum(before), n + 40)))
        && (evicted != [] ==> (evicted[0].roomy <==> evicted[0].short && cfg.ttl != 0 && Roomed(swept, n + 40)))
      ensures p == NULL ==> pending == old(pending) && evicted != [] && Exhausted(n)
      ensures old(FreesEnough(n, t, now)) ==> p != NULL
      ensures p != NULL ==> p !in old(pending) && pending == old(pending) + {p}
      ensures p != NULL ==> p in entries && entries[p] == e.(at := p, mem := n)
    {
      hide Linked, Owned, Contents, TableOf, Allocator.Valid, Allocator.Live, Booked, Housed, WellFormed, CacheRuns.After,
        Shaped, Exhausted, Emptied, CallBack, Evicted, Unheld, Cache.Fits, Allocator.Books, Allocator.AvailFrom;
      evicted := [];
      p := TryPersist(e, n);
      if p == NULL {
        ghost var u := Abs();
        ghost var short, roomy := DefaultExpunge(n + SmaArena.MIN_BLOCK * SmaArena.WORD_BYTES, t, now);
        evicted := [Evict(t, now, short, roomy)];
        if old(FreesEnough(n, t, now)) {
          ServesOnceEmpty(u, n, t, now, roomy);
        }
        p := TryPersist(e, n);
      }
    }

    /** Frees a persisted entry that was not inserted. */
    method Discard(p: int)
      requires Sound() && p in pending
      modifies this, sma.Repr
      ensures Sound() && Abs() == old(Abs()) && pending == old(pending) - {p} && log == old(log)
    {
      hide Linked, Owned, Contents, TableOf, Allocator.Valid, Allocator.Live, Booked, Housed, WellFormed, CacheRuns.After,
        Unlinked;
      OwnedAfterDiscard(Abs(), shm, pending, sma.Live(), p);
      UncountedUnlinked(InMemory(), count, mem, p);
      ForgottenStep(InMemory(), count, mem, p);
      pending := pending - {p};
      FreeEntry(p);
    }

    /** Inserts a persisted entry, or frees it if that fails. */
    method Commit(p: int, exclusive: bool, now: int) returns (ok: bool)
      requires Valid() && p in pending
      modifies this, sma.Repr
      ensures Valid() && pending == old(pending) - {p}
      ensures log == old(log) + [CacheRuns.Store(old(entries[p]), exclusive, now)]
      ensures var e := old(entries[p]);
        && (ok <==> !exclusive || Lookup(cfg, old(Abs()), e.key, e.ctime) == None)
        && (ok <==> !exclusive || !Alive(old(Abs()), e.key, e.ctime))
        && Stored(cfg, Abs(), e.key) == if ok then Some(e) else Stored(cfg, old(Abs()), e.key)
      ensures Rid(old(Abs()).gc, now)
    {
      hide Linked, Owned, Contents, TableOf, Allocator.Valid, Allocator.Live, Booked, Housed, WellFormed, CacheRuns.After,
        CacheTable.Insert, Shaped, Stored, Lookup, Alive, Copies;
      ghost var e, t := entries[p], Abs();
      PendingAt(p);
      forall x | x in t.gc ensures Copies(t, x.at) == 1 && x.at != shm && x.at !in pending {
        RemovedOnce(x);
      }
      InsertEffect(cfg, Abs(), e, exclusive, now, "");
      ok := Insert(p, exclusive, now);
      Logged(CacheRuns.Store(e, exclusive, now));
      if !ok {
        Discard(p);
      }
      log := log + [CacheRuns.Store(e, exclusive, now)];
      GotRid(t, CacheRuns.Store(e, exclusive, now));
    }

    /**
     Stores a value that takes `n` bytes under `key`.  Whatever the outcome, nothing is
     left behind that no entry owns.
     */
    method Store(key: string, val: Value, ttl: int, exclusive: bool, n: nat, t: int, now: int)
      returns (ok: bool, p: int, ghost evicted: seq<Op>)
      requires Valid()
      modifies this, sma.Repr
      ensures Valid() && pending == old(pending)
      ensures evicted == old(Evictions(n, t, now))
      ensures p == NULL ==> evicted != [] && Exhausted(n)
      ensures old(FreesEnough(n, t, now)) ==> p != NULL
      ensures log == old(log) + evicted +
        if p == NULL then [] else [CacheRuns.Store(NewEntry(key, val, ttl, t).(at := p, mem := n), exclusive, now)]
      ensures ok <==> p != NULL && (!exclusive || Lookup(cfg, CacheRuns.After(cfg, old(log) + evicted).0, key, t) == None)
      ensures ok <==> p != NULL && (!exclusive || !Alive(CacheRuns.After(cfg, old(log) + evicted).0, key, t))
      ensures ok ==> var e := Stored(cfg, Abs(), key);
        e.Some? && e.value.key == key && IsNew(e.value, p, val, ttl, n, t)
      ensures ok ==> Stored(cfg, Abs(), key) == Some(NewEntry(key, val, ttl, t).(at := p, mem := n))
      ensures !ok && p != NULL ==> Stored(cfg, Abs(), key) == Stored(cfg, CacheRuns.After(cfg, old(log) + evicted).0, key)
    {
      hide Linked, Owned, Contents, TableOf, Allocator.Valid, Allocator.Live, Booked, Housed, WellFormed, CacheRuns.After,
        Exhausted, Shaped, Stored, Lookup, Alive;
      p, evicted := Persist(NewEntry(key, val, ttl, t), n, t, now);
      if p == NULL {
        return false, p, evicted;
      }
      ok := Commit(p, exclusive, now);
    }

    /** Runs an updater on the entry of `key`, if one is live and its value is of a kind the updater takes. */
    method TryUpdate(key: string, u: Updater, t: int) returns (found: bool, ret: bool)
      requires Valid()
      modifies this
      ensures Valid() && pending == old(pending)
      ensures found <==> Lookup(cfg, old(Abs()), key, t).Some?
      ensures var r := if found then Run(u, Lookup(cfg, old(Abs()), key, t).value.val) else None;
        && ret == (r.Some? && r.value.1)
        && log == old(log) + if r.Some? then [Replace(key, t, r.value.0)] else []
      ensures HasRun(cfg, old(Abs()), Abs(), key, u, t, ret)
    {
      hide Linked, Owned, Contents, TableOf, Allocator.Valid, Allocator.Live, Booked, Housed, WellFormed, SetAt,
        CacheRuns.After, Shaped, HasRun, Alive;
      var p;
      ghost var j;
      SoundTable();
      RunHasRun(cfg, Abs(), key, u, t);
      p, j := FindNostat(key, t);
      if p == NULL {
        return false, false;
      }
      SoundAt(Where(Slot(cfg, key), j), Slot(cfg, key), j);
      var r := Run(u, entries[p].val);
      found, ret := true, false;
      if r.Some? {
        Logged(Replace(key, t, r.value.0));
        Modify(p, entries[p].(val := r.value.0, mtime := t), Slot(cfg, key), j);
        log := log + [Replace(key, t, r.value.0)];
        ret := r.value.1;
      }
    }

    /** Stores a zero, a missing key's first value, and says what a lookup finds then. */
    method StoreZero(key: string, ttl: int, n: nat, t: int, t2: int, now: int) returns (p: int, ghost evicted: seq<Op>)
      requires Valid() && t <= t2 && Lookup(cfg, Abs(), key, t) == None
      modifies this, sma.Repr
      ensures Valid() && pending == old(pending) && evicted == old(Evictions(n, t2, now))
      ensures var e := NewEntry(key, Long(0), ttl, t2).(at := p, mem := n);
        if p == NULL then log == old(log) + evicted && Lookup(cfg, Abs(), key, t) == None
        else
          && log == old(log) + evicted + [CacheRuns.Store(e, true, now)] && Stored(cfg, Abs(), key) == Some(e)
          && Lookup(cfg, Abs(), key, t) == if HardExpired(e, t) then None else Some(e)
    {
      hide Linked, Owned, Contents, TableOf, Allocator.Valid, Allocator.Live, Booked, Housed, CacheRuns.After, Shaped, Stored,
        Lookup, CallBack, Exhausted, FreesEnough, HardExpired;
      var ok;
      ok, p, evicted := Store(key, Long(0), ttl, true, n, t2, now);
      EvictedMisses(cfg, old(log), evicted, key, t, t);
      EvictedMisses(cfg, old(log), evicted, key, t, t2);
      LookupIsUnexpired(cfg, Abs(), key, t);
    }

    /**
     Updates the entry of `key` in place.  If it is missing, and on request, a zero is
     stored first: then the updater runs on that zero, unless its time to live is over
     already or no memory was found for it.
     */
    method Update(key: string, u: Updater, insertIfNotFound: bool, ttl: int, n: nat, t: int, t2: int, now: int)
      returns (ret: bool, p: int, ghost evicted: seq<Op>)
      requires Valid() && t <= t2
      modifies this, sma.Repr
      ensures Valid() && pending == old(pending)
      ensures Alive(old(Abs()), key, t) || !insertIfNotFound ==>
        p == NULL && evicted == [] && HasRun(cfg, old(Abs()), Abs(), key, u, t, ret)
      ensures var hit := Lookup(cfg, old(Abs()), key, t);
        if hit.Some? then
          var r := Run(u, hit.value.val);
          ret == (r.Some? && r.value.1) && log == old(log) + if r.Some? then [Replace(key, t, r.value.0)] else []
        else if !insertIfNotFound then
          !ret && log == old(log)
        else
          var e, r := NewEntry(key, Long(0), ttl, t2).(at := p, mem := n), Run(u, Long(0)).value;
          && evicted == old(Evictions(n, t2, now))
          && if p == NULL then !ret && log == old(log) + evicted
             else if HardExpired(e, t) then
               !ret && log == old(log) + evicted + [CacheRuns.Store(e, true, now)] && Stored(cfg, Abs(), key) == Some(e)
             else
               && ret == r.1 && log == old(log) + evicted + [CacheRuns.Store(e, true, now), Replace(key, t, r.0)]
               && Stored(cfg, Abs(), key) == Some(e.(val := r.0, mtime := t))
      ensures !Alive(old(Abs()), key, t) && insertIfNotFound ==>
        if p == NULL then !ret
        else var e := Stored(cfg, Abs(), key); e.Some? && OnZero(e.value, p, key, u, ttl, n, t, t2, ret)
    {
      hide Linked, Owned, Contents, TableOf, Allocator.Valid, Allocator.Live, Booked, Housed, CacheRuns.After, Shaped, Stored,
        Lookup, HardExpired, CallBack, Exhausted, HasRun, OnZero, Alive, Run, WellFormed;
      var found;
      p, evicted := NULL, [];
      RunsOnZero(u);
      SoundTable();
      LookupIffAlive(cfg, Abs(), key, t);
      found, ret := TryUpdate(key, u, t);
      if found || !insertIfNotFound {
        return;
      }
      assert log == old(log);
      p, evicted := StoreZero(key, ttl, n, t, t2, now);
      if p != NULL {
        ReplacedStored(cfg, Abs(), key, t, Run(u, Long(0)).value.0);
        Logged(Replace(key, t, Run(u, Long(0)).value.0));
        ZeroHasRun(p, key, u, ttl, n, t, t2);
      }
      found, ret := TryUpdate(key, u, t);
    }
  }

  /**
   Creates an empty cache in shared memory nobody uses yet.  The header, of `header` bytes,
   and the slots share one block; it fails exactly if no segment has room for it.
   */
  method Create(cfg: Config, smart: int, sma: Allocator, header: nat) returns (c: Cache?)
    requires Usable(cfg) && sma.Valid() && sma.Live() == {}
    modifies sma.Repr
    ensures var n := header + cfg.nslots * SmaArena.WORD_BYTES;
      c == null <==> forall i {:trigger sma.segs[i]} :: 0 <= i < |sma.segs| ==>
        Full(old(sma.segs[i].arena), n, SmaArena.MIN_BLOCK)
    ensures c == null ==> sma.Valid() && sma.Untouched()
    ensures c != null ==>
      && fresh(c) && c.Valid() && c.log == [] && c.pending == {} && c.Abs() == CacheRuns.Empty(cfg)
      && c.cfg == cfg && c.smart == smart && c.sma == sma && sma.Live() == {c.shm}
  {
    hide Allocator.Valid, Allocator.Live, Allocator.PayloadsStand, Allocator.InTurn, Full, Cache.Valid,
      CacheRuns.Empty;
    var n := header + cfg.nslots * SmaArena.WORD_BYTES;
    var p, granted := sma.MallocOnce(n, SmaArena.MIN_BLOCK);
    if p == NULL {
      sma.UntouchedStands();
      p, granted := sma.MallocOnce(n, SmaArena.MIN_BLOCK);
    }
    if p == NULL {
      return null;
    }
    c := new Cache(cfg, smart, sma, p);
  }
}
