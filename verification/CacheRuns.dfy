/** Whole runs of cache operations, beside a plain map that forgets nothing. */
module CacheRuns {
  import opened CacheTable
  import opened Collections
  import opened CacheLaws

  datatype Op =
    | Store(e: Entry, exclusive: bool, now: int)                         // insert a persisted entry, at time e.ctime
    | Remove(key: string, now: int)
    | Clear(now: int)
    | Evict(time: int, now: int, short: bool, roomy: bool)               // the allocator ran out of memory
    | Fetch(key: string, time: int)                                      // a lookup that takes a reference
    | Release(at: int)
    | Replace(key: string, time: int, val: Value)                        // an updater ran on a simple value

  // ---------------------------------------------------------------- the cache

  /** A lookup counts the hit, marks the access and takes a reference. */
  function Hit(e: Entry, time: int): Entry {
    e.(hits := e.hits + 1, atime := time, refs := e.refs + 1)
  }

  function Released(c: Chain, at: int): (r: Chain)
    ensures |r| == |c|
    ensures forall i :: 0 <= i < |c| ==> r[i] == if c[i].at == at then c[i].(refs := c[i].refs - 1) else c[i]
  {
    if c == [] then []
    else [if c[0].at == at then c[0].(refs := c[0].refs - 1) else c[0]] + Released(c[1..], at)
  }

  function ReleasedAll(slots: seq<Chain>, at: int): (r: seq<Chain>)
    ensures |r| == |slots|
    ensures forall s :: 0 <= s < |slots| ==> r[s] == Released(slots[s], at)
  {
    if slots == [] then [] else [Released(slots[0], at)] + ReleasedAll(slots[1..], at)
  }

  /** What the allocator's call-back does, given whether memory is short and whether the sweep made room. */
  function Evicted(cfg: Config, t: Table, time: int, now: int, short: bool, roomy: bool): Table {
    var u := Collect(cfg, t, now);
    if !short then u
    else if cfg.ttl == 0 then Expunge(cfg, u, now)
    else
      var v := SweepFrom(cfg, u, 0, false, time, now);
      if roomy then v else Expunge(cfg, v, now)
  }

  predicate Simple(v: Value) {
    !v.Boxed?
  }

  /** An updater runs in place on a live simple value. */
  function Replaced(cfg: Config, t: Table, key: string, time: int, val: Value): (Table, bool)
    requires Usable(cfg) && |t.slots| == cfg.nslots
  {
    var s := Slot(cfg, key);
    var j := FindIn(cfg, t, key, time);
    if j < |t.slots[s]| && Simple(t.slots[s][j].val) then
      (SetAt(t, s, j, t.slots[s][j].(val := val, mtime := time)), true)
    else (t, false)
  }

  function Fetched(cfg: Config, t: Table, key: string, time: int): (Table, bool)
    requires Usable(cfg) && |t.slots| == cfg.nslots
  {
    var s := Slot(cfg, key);
    var j := FindIn(cfg, t, key, time);
    if j < |t.slots[s]| then (SetAt(t, s, j, Hit(t.slots[s][j], time)), true) else (t, false)
  }

  function Apply(cfg: Config, t: Table, op: Op): (r: (Table, bool))
    requires Usable(cfg) && |t.slots| == cfg.nslots
    ensures |r.0.slots| == cfg.nslots
  {
    match op
    case Store(e, exclusive, now) => Insert(cfg, t, e, exclusive, now)
    case Remove(key, now) => Delete(cfg, t, key, now)
    case Clear(now) => (Expunge(cfg, t, now), true)
    case Evict(time, now, short, roomy) => (Evicted(cfg, t, time, now, short, roomy), true)
    case Fetch(key, time) => Fetched(cfg, t, key, time)
    case Release(at) => (Table(ReleasedAll(t.slots, at), Released(t.gc, at), t.count, t.mem), true)
    case Replace(key, time, val) => Replaced(cfg, t, key, time, val)
  }

  function Empty(cfg: Config): Table {
    Table(seq(cfg.nslots, i => []), [], 0, 0)
  }

  // ---------------------------------------------------------------- the plain map

  datatype Item = Item(val: Value, ctime: int, ttl: int)

  function ItemOf(e: Entry): Item {
    Item(e.val, e.ctime, e.ttl)
  }

  /** The same operation on a map that never forgets; `ok` is what the cache answered. */
  function ApplyPlain(m: map<string, Item>, op: Op, ok: bool): map<string, Item> {
    match op
    case Store(e, _, _) => if ok then m[e.key := ItemOf(e)] else m
    case Remove(key, _) => m - {key}
    case Clear(_) => map[]
    case Evict(_, _, _, _) => m
    case Fetch(_, _) => m
    case Release(_) => m
    case Replace(key, _, val) => if ok && key in m then m[key := m[key].(val := val)] else m
  }

  /** Everything the cache holds, the plain map holds too. */
  ghost predicate Truthful(cfg: Config, t: Table, m: map<string, Item>)
    requires Usable(cfg) && |t.slots| == cfg.nslots
  {
    forall k {:trigger Stored(cfg, t, k)} :: Stored(cfg, t, k).Some? ==> k in m && m[k] == ItemOf(Stored(cfg, t, k).value)
  }

  // ---------------------------------------------------------------- one operation

  /** What an operation may leave under a key other than the one it is about: the same item, or nothing. */
  lemma EvictEffect(cfg: Config, t: Table, time: int, now: int, short: bool, roomy: bool, k: string)
    requires WellFormed(cfg, t)
    ensures var r := Evicted(cfg, t, time, now, short, roomy);
      && WellFormed(cfg, r)
      && Stored(cfg, r, k) == (if !short then Stored(cfg, t, k)
                               else if cfg.ttl == 0 || !roomy then None
                               else Swept(cfg, Stored(cfg, t, k), false, time))
      && (short && cfg.ttl != 0 && roomy ==>
            var stays := Stored(cfg, t, k).Some? && InUse(cfg, Stored(cfg, t, k).value, time);
            Stored(cfg, r, k) == if stays then Stored(cfg, t, k) else None)
  {
    var u := Collect(cfg, t, now);
    if short {
      if cfg.ttl == 0 {
        ExpungeEffect(cfg, u, now, k);
      } else {
        SweepEffect(cfg, u, time, now, k);
        ExpungeEffect(cfg, SweepFrom(cfg, u, 0, false, time, now), now, k);
      }
    }
  }

  /** No entry in a chain is referenced, and the collector would keep none of the removed ones. */
  ghost predicate Unheld(cfg: Config, t: Table, now: int) {
    && (forall s, j {:trigger t.slots[s][j]} :: InSlot(t, s, j) ==> t.slots[s][j].refs <= 0)
    && (forall i {:trigger t.gc[i]} :: 0 <= i < |t.gc| ==> !Lingers(cfg, t.gc[i], now))
  }

  lemma {:induction false} ChainUnheld(c: Chain, p: int)
    requires forall j {:trigger c[j]} :: 0 <= j < |c| ==> c[j].refs <= 0
    ensures ChainHeld(c, p) == 0
  {
    if c != [] {
      ChainUnheld(c[1..], p);
    }
  }

  lemma {:induction false} SlotsUnheld(slots: seq<Chain>, p: int)
    requires forall s, j {:trigger slots[s][j]} :: 0 <= s < |slots| && 0 <= j < |slots[s]| ==> slots[s][j].refs <= 0
    ensures SlotsHeld(slots, p) == 0
  {
    if slots != [] {
      ChainUnheld(slots[0], p);
      SlotsUnheld(slots[1..], p);
    }
  }

  lemma {:induction false} GcUnheld(cfg: Config, gc: Chain, now: int)
    requires forall i {:trigger gc[i]} :: 0 <= i < |gc| ==> !Lingers(cfg, gc[i], now)
    ensures GcFrom(cfg, gc, now) == []
  {
    if gc != [] {
      GcUnheld(cfg, gc[1..], now);
    }
  }

  /** When the call-back empties the cache while nobody holds an entry, every entry is freed. */
  lemma EvictFreesAll(cfg: Config, t: Table, time: int, now: int, roomy: bool, p: int)
    requires WellFormed(cfg, t) && Unheld(cfg, t, now) && (cfg.ttl == 0 || !roomy)
    ensures Copies(Evicted(cfg, t, time, now, true, roomy), p) == 0
  {
    var u := Collect(cfg, t, now);
    GcUnheld(cfg, t.gc, now);
    SlotsUnheld(t.slots, p);
    SweepEffect(cfg, u, time, now, "");
    SweepKept(cfg, u, 0, false, time, now, p);
    ExpungeFrees(cfg, if cfg.ttl == 0 then u else SweepFrom(cfg, u, 0, false, time, now), now, p);
  }

  lemma {:induction false} ReleasedSums(c: Chain, at: int)
    ensures ChainMem(Released(c, at)) == ChainMem(c)
  {
    if c != [] {
      assert Released(c, at)[1..] == Released(c[1..], at);
      ReleasedSums(c[1..], at);
    }
  }

  lemma {:induction false} ReleasedTotals(slots: seq<Chain>, at: int)
    ensures TotalCount(ReleasedAll(slots, at)) == TotalCount(slots)
    ensures TotalMem(ReleasedAll(slots, at)) == TotalMem(slots)
  {
    if slots != [] {
      assert ReleasedAll(slots, at)[1..] == ReleasedAll(slots[1..], at);
      ReleasedSums(slots[0], at);
      ReleasedTotals(slots[1..], at);
    }
  }

  lemma {:induction false} ReleasedIndex(c: Chain, at: int, k: string)
    ensures IndexOf(Released(c, at), k) == IndexOf(c, k)
  {
  }

  lemma ReleaseEffect(cfg: Config, t: Table, at: int, k: string)
    requires WellFormed(cfg, t)
    ensures var r := Apply(cfg, t, Release(at)).0;
      && WellFormed(cfg, r)
      && (Stored(cfg, r, k).Some? <==> Stored(cfg, t, k).Some?)
      && (Stored(cfg, t, k).Some? ==> ItemOf(Stored(cfg, r, k).value) == ItemOf(Stored(cfg, t, k).value)
                                      && Stored(cfg, r, k).value.at == Stored(cfg, t, k).value.at)
  {
    hide Hashed, Counted, ReleasedAll, Released;
    ReleasedIndex(t.slots[Slot(cfg, k)], at, k);
    ReleasedHashed(cfg, t, at);
    ReleasedCounted(t, at);
  }

  lemma ReleasedCounted(t: Table, at: int)
    requires Counted(t)
    ensures Counted(Table(ReleasedAll(t.slots, at), Released(t.gc, at), t.count, t.mem))
  {
    ReleasedTotals(t.slots, at);
  }

  lemma ReleasedHashed(cfg: Config, t: Table, at: int)
    requires Usable(cfg) && Hashed(cfg, t)
    ensures Hashed(cfg, Table(ReleasedAll(t.slots, at), Released(t.gc, at), t.count, t.mem))
  {
  }

  lemma {:induction false} ReleasedChainCopies(c: Chain, p: int, q: int)
    ensures ChainCopies(Released(c, p), q) == ChainCopies(c, q)
  {
    if c != [] {
      assert Released(c, p)[1..] == Released(c[1..], p);
      ReleasedChainCopies(c[1..], p, q);
    }
  }

  lemma {:induction false} ReleasedCopies(slots: seq<Chain>, p: int, q: int)
    ensures SlotsCopies(ReleasedAll(slots, p), q) == SlotsCopies(slots, q)
  {
    if slots != [] {
      assert ReleasedAll(slots, p)[1..] == ReleasedAll(slots[1..], p);
      ReleasedChainCopies(slots[0], p, q);
      ReleasedCopies(slots[1..], p, q);
    }
  }

  lemma SetAtEffect(cfg: Config, t: Table, key: string, time: int, e: Entry, k: string)
    requires WellFormed(cfg, t)
    requires var j := FindIn(cfg, t, key, time);
      j < |t.slots[Slot(cfg, key)]| && e.key == key && e.mem == t.slots[Slot(cfg, key)][j].mem && e.at == t.slots[Slot(cfg, key)][j].at
    ensures var r := SetAt(t, Slot(cfg, key), FindIn(cfg, t, key, time), e);
      WellFormed(cfg, r) && Stored(cfg, r, k) == if k == key then Some(e) else Stored(cfg, t, k)
  {
    var s := Slot(cfg, key);
    var j := FindIn(cfg, t, key, time);
    SetAtByKey(cfg, t, s, j, e, k);
    SetAtMeasures(t, s, j, e, 0);
  }

  /** Under `k` the table `r` has nothing, or the item that `n` has. */
  ghost predicate TruthfulAt(cfg: Config, r: Table, n: map<string, Item>, k: string)
    requires Usable(cfg) && |r.slots| == cfg.nslots
  {
    Stored(cfg, r, k).Some? ==> k in n && n[k] == ItemOf(Stored(cfg, r, k).value)
  }

  lemma FetchTruthful(cfg: Config, t: Table, m: map<string, Item>, key: string, time: int, k: string)
    requires WellFormed(cfg, t) && TruthfulAt(cfg, t, m, k) && TruthfulAt(cfg, t, m, key)
    ensures var r := Fetched(cfg, t, key, time).0; WellFormed(cfg, r) && TruthfulAt(cfg, r, m, k)
  {
    hide Hashed, Counted, SetAt;
    var j := FindIn(cfg, t, key, time);
    if j < |t.slots[Slot(cfg, key)]| {
      SetAtEffect(cfg, t, key, time, Hit(t.slots[Slot(cfg, key)][j], time), k);
    }
  }

  lemma ReplaceTruthful(cfg: Config, t: Table, m: map<string, Item>, key: string, time: int, val: Value, k: string)
    requires WellFormed(cfg, t) && TruthfulAt(cfg, t, m, k) && TruthfulAt(cfg, t, m, key)
    ensures var (r, ok) := Replaced(cfg, t, key, time, val);
      WellFormed(cfg, r) && TruthfulAt(cfg, r, ApplyPlain(m, Replace(key, time, val), ok), k)
  {
    hide Hashed, Counted, SetAt;
    var j := FindIn(cfg, t, key, time);
    if Replaced(cfg, t, key, time, val).1 {
      SetAtEffect(cfg, t, key, time, t.slots[Slot(cfg, key)][j].(val := val, mtime := time), k);
    }
  }

  /** One operation keeps the table well formed and truthful. */
  lemma ApplyStaysTruthfulAt(cfg: Config, t: Table, m: map<string, Item>, op: Op, k: string)
    requires WellFormed(cfg, t) && Truthful(cfg, t, m)
    ensures var (r, ok) := Apply(cfg, t, op);
      WellFormed(cfg, r) && TruthfulAt(cfg, r, ApplyPlain(m, op, ok), k)
  {
    hide Hashed, Counted, Insert, Delete, Expunge, Evicted, Fetched, Replaced, ReleasedAll, Released, Stored;
    match op
    case Store(e, exclusive, now) => InsertEffect(cfg, t, e, exclusive, now, k);
    case Remove(key, now) => DeleteEffect(cfg, t, key, now, k);
    case Clear(now) => ExpungeEffect(cfg, t, now, k);
    case Evict(time, now, short, roomy) => EvictEffect(cfg, t, time, now, short, roomy, k);
    case Fetch(key, time) => FetchTruthful(cfg, t, m, key, time, k);
    case Release(at) => ReleaseEffect(cfg, t, at, k);
    case Replace(key, time, val) => ReplaceTruthful(cfg, t, m, key, time, val, k);
  }

  lemma ApplyStaysTruthful(cfg: Config, t: Table, m: map<string, Item>, op: Op)
    requires WellFormed(cfg, t) && Truthful(cfg, t, m)
    ensures var (r, ok) := Apply(cfg, t, op);
      WellFormed(cfg, r) && Truthful(cfg, r, ApplyPlain(m, op, ok))
  {
    hide Apply, ApplyPlain, Hashed, Counted, Stored;
    var (r, ok) := Apply(cfg, t, op);
    ApplyStaysTruthfulAt(cfg, t, m, op, "");
    forall k {:trigger Stored(cfg, r, k)} | Stored(cfg, r, k).Some?
      ensures k in ApplyPlain(m, op, ok) && ApplyPlain(m, op, ok)[k] == ItemOf(Stored(cfg, r, k).value)
    {
      ApplyStaysTruthfulAt(cfg, t, m, op, k);
    }
  }

  // ---------------------------------------------------------------- whole runs

  /** The cache and the plain map after the operations of a run. */
  ghost function After(cfg: Config, ops: seq<Op>): (r: (Table, map<string, Item>))
    requires Usable(cfg)
    ensures |r.0.slots| == cfg.nslots
  {
    if ops == [] then (Empty(cfg), map[])
    else
      var (t, m) := After(cfg, ops[..|ops| - 1]);
      var op := ops[|ops| - 1];
      var (r, ok) := Apply(cfg, t, op);
      (r, ApplyPlain(m, op, ok))
  }

  lemma EmptyIsTruthful(cfg: Config)
    requires Usable(cfg)
    ensures WellFormed(cfg, Empty(cfg)) && Truthful(cfg, Empty(cfg), map[])
  {
    EmptySlots(Empty(cfg).slots);
  }

  /** After any run every key is in its slot once, the counters are exact, and the cache holds nothing the plain map does not. */
  lemma {:induction false} RunIsTruthful(cfg: Config, ops: seq<Op>)
    requires Usable(cfg)
    ensures WellFormed(cfg, After(cfg, ops).0) && Truthful(cfg, After(cfg, ops).0, After(cfg, ops).1)
    ensures var t := After(cfg, ops).0;
      forall s, j {:trigger t.slots[s][j]} :: InSlot(t, s, j) ==> cfg.hash(t.slots[s][j].key) % cfg.nslots == s
  {
    hide Apply, ApplyPlain, Hashed, Counted, Truthful;
    if ops == [] {
      EmptyIsTruthful(cfg);
    } else {
      RunIsTruthful(cfg, ops[..|ops| - 1]);
      var (t, m) := After(cfg, ops[..|ops| - 1]);
      ApplyStaysTruthful(cfg, t, m, ops[|ops| - 1]);
    }
    InSlots(cfg, After(cfg, ops).0);
  }

  /**
   What a map that forgets nothing comes to: a successful store sets the item of its key, an
   update in place its value, a deletion takes it away, a clear takes all, and nothing else
   changes anything.
   */
  lemma PlainFollows(cfg: Config, log: seq<Op>, op: Op)
    requires Usable(cfg)
    ensures After(cfg, []).1 == map[]
    ensures var (t, m) := After(cfg, log); var n := After(cfg, log + [op]).1;
      match op
      case Store(e, exclusive, _) =>
        n == if !exclusive || !Alive(t, e.key, e.ctime) then m[e.key := Item(e.val, e.ctime, e.ttl)] else m
      case Remove(key, _) => key !in n && forall k :: k != key ==> (k in n <==> k in m) && (k in n ==> n[k] == m[k])
      case Clear(_) => n == map[]
      case Evict(_, _, _, _) => n == m
      case Fetch(_, _) => n == m
      case Release(_) => n == m
      case Replace(key, time, val) =>
        n == if Alive(t, key, time) && Stored(cfg, t, key).Some? && !Stored(cfg, t, key).value.val.Boxed? && key in m
             then m[key := m[key].(val := val)] else m
  {
    hide Insert, Delete, Expunge, Evicted, Fetched, SetAt, Alive, Hashed, Counted;
    RunIsTruthful(cfg, log);
    assert (log + [op])[..|log|] == log;
    var t := After(cfg, log).0;
    match op
    case Store(e, exclusive, now) => InsertEffect(cfg, t, e, exclusive, now, "");
    case Replace(key, time, _) => LookupIffAlive(cfg, t, key, time);
    case _ =>
  }

  lemma InSlots(cfg: Config, t: Table)
    requires WellFormed(cfg, t)
    ensures forall s, j {:trigger t.slots[s][j]} :: InSlot(t, s, j) ==> cfg.hash(t.slots[s][j].key) % cfg.nslots == s
  {
  }

  /**
   The cache never lies: after any run, whatever a lookup of `k` at time `time` hits is
   what a map that forgets nothing holds for `k`, and its own time to live has not run out.
   */
  lemma NeverLies(cfg: Config, ops: seq<Op>, k: string, time: int)
    requires Usable(cfg)
    ensures var (t, m) := After(cfg, ops); var hit := Lookup(cfg, t, k, time);
      hit.Some? ==>
        && k in m && m[k] == ItemOf(hit.value)
        && !(m[k].ttl != 0 && m[k].ctime + m[k].ttl < time)
  {
    var (t, m) := After(cfg, ops);
    RunIsTruthful(cfg, ops);
    LookupIsUnexpired(cfg, t, k, time);
    assert Truthful(cfg, t, m);
  }

  /** After any run the counters are the number and the total size of the entries in the chains. */
  lemma CountersExact(cfg: Config, ops: seq<Op>)
    requires Usable(cfg)
    ensures var t := After(cfg, ops).0; t.count == TotalCount(t.slots) && t.mem == TotalMem(t.slots)
  {
    RunIsTruthful(cfg, ops);
  }
}
