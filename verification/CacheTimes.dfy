/** What times and counts of references decide over whole runs: what is not lost, not freed, and when it was removed. */
module CacheTimes {
  import opened Collections
  import opened CacheTable
  import opened CacheLaws
  import opened CacheRuns

  // ---------------------------------------------------------------- nothing is lost

  /** The operation is not about `k`, and comes by its entry, if at all, while that is in use. */
  ghost predicate Spares(cfg: Config, t: Table, op: Op, k: string)
    requires Usable(cfg) && |t.slots| == cfg.nslots
  {
    var e := Stored(cfg, t, k);
    match op
    case Store(n, exclusive, _) => if n.key == k then exclusive && Alive(t, k, n.ctime) else e.Some? && InUse(cfg, e.value, n.ctime)
    case Remove(key, _) => key != k
    case Clear(_) => false
    case Evict(time, _, short, roomy) => !short || (cfg.ttl != 0 && roomy && e.Some? && InUse(cfg, e.value, time))
    case Fetch(_, _) => true
    case Release(_) => true
    case Replace(key, _, _) => key != k
  }

  /** Such an operation leaves the entry of `k` where it is, with its value and times. */
  lemma SparedStays(cfg: Config, t: Table, op: Op, k: string)
    requires WellFormed(cfg, t) && Stored(cfg, t, k).Some? && Spares(cfg, t, op, k)
    ensures var r := Stored(cfg, Apply(cfg, t, op).0, k);
      r.Some? && ItemOf(r.value) == ItemOf(Stored(cfg, t, k).value) && r.value.at == Stored(cfg, t, k).value.at
  {
    hide Hashed, Counted, Insert, Delete, Expunge, Evicted, SetAt, ReleasedAll, Released, Stored, InUse, Alive;
    match op
    case Store(n, exclusive, now) => InsertEffect(cfg, t, n, exclusive, now, k);
    case Remove(key, now) => DeleteEffect(cfg, t, key, now, k);
    case Clear(_) =>
    case Evict(time, now, short, roomy) => EvictEffect(cfg, t, time, now, short, roomy, k);
    case Fetch(key, time) =>
      var s, j := Slot(cfg, key), FindIn(cfg, t, key, time);
      if j < |t.slots[s]| {
        FoundIsStored(cfg, t, key, time);
        SetAtEffect(cfg, t, key, time, Hit(t.slots[s][j], time), k);
      }
    case Release(at) => ReleaseEffect(cfg, t, at, k);
    case Replace(key, time, val) =>
      var s, j := Slot(cfg, key), FindIn(cfg, t, key, time);
      if j < |t.slots[s]| {
        SetAtEffect(cfg, t, key, time, t.slots[s][j].(val := val, mtime := time), k);
      }
  }

  lemma FoundIsStored(cfg: Config, t: Table, key: string, time: int)
    requires WellFormed(cfg, t) && FindIn(cfg, t, key, time) < |t.slots[Slot(cfg, key)]|
    ensures Stored(cfg, t, key) == Some(t.slots[Slot(cfg, key)][FindIn(cfg, t, key, time)])
  {
  }

  /** Every operation of a run spares the entry of `k`. */
  ghost predicate AllSpare(cfg: Config, log: seq<Op>, more: seq<Op>, k: string)
    requires Usable(cfg)
  {
    forall i {:trigger more[i]} :: 0 <= i < |more| ==> Spares(cfg, After(cfg, log + more[..i]).0, more[i], k)
  }

  /**
   Nothing is lost: what is stored under a key stays there until an operation is about that
   key, empties the cache, or comes by the entry when it is no longer in use; and a lookup
   hits it for as long as its time is not over.
   */
  lemma {:induction false} NeverLoses(cfg: Config, log: seq<Op>, more: seq<Op>, k: string, time: int)
    requires Usable(cfg) && Stored(cfg, After(cfg, log).0, k).Some? && AllSpare(cfg, log, more, k)
    ensures var e, r := Stored(cfg, After(cfg, log).0, k).value, Stored(cfg, After(cfg, log + more).0, k);
      && r.Some? && ItemOf(r.value) == ItemOf(e) && r.value.at == e.at
      && Lookup(cfg, After(cfg, log + more).0, k, time) == if e.ttl == 0 || time <= e.ctime + e.ttl then r else None
  {
    hide Apply, After, Spares, Stored, WellFormed;
    RunIsTruthful(cfg, log + more);
    if more == [] {
      assert log + more == log;
    } else {
      var m := |more| - 1;
      var init := more[..m];
      forall i {:trigger init[i]} | 0 <= i < m ensures Spares(cfg, After(cfg, log + init[..i]).0, init[i], k) {
        assert init[..i] == more[..i] && init[i] == more[i];
      }
      NeverLoses(cfg, log, init, k, time);
      RunIsTruthful(cfg, log + init);
      SparedStays(cfg, After(cfg, log + init).0, more[m], k);
      assert log + more == log + init + [more[m]];
      OneMore(cfg, log + init, more[m]);
    }
    LookupIsUnexpired(cfg, After(cfg, log + more).0, k, time);
  }

  lemma OneMore(cfg: Config, log: seq<Op>, op: Op)
    requires Usable(cfg)
    ensures After(cfg, log + [op]).0 == Apply(cfg, After(cfg, log).0, op).0
  {
  }

  /** After every run a lookup hits exactly if an entry is stored under the key and its time is not over. */
  lemma HitsIffInTime(cfg: Config, log: seq<Op>, k: string, time: int)
    requires Usable(cfg)
    ensures var t := After(cfg, log).0;
      Lookup(cfg, t, k, time).Some? <==>
        exists s, j {:trigger t.slots[s][j]} :: InSlot(t, s, j) && t.slots[s][j].key == k
          && (t.slots[s][j].ttl == 0 || time <= t.slots[s][j].ctime + t.slots[s][j].ttl)
  {
    hide After;
    RunIsTruthful(cfg, log);
    LookupIffAlive(cfg, After(cfg, log).0, k, time);
  }

  // ---------------------------------------------------------------- what is referenced is not freed

  /** The wall clock an operation reads, if it removes entries. */
  function NowOf(op: Op): Option<int> {
    match op
    case Store(_, _, now) => Some(now)
    case Remove(_, now) => Some(now)
    case Clear(now) => Some(now)
    case Evict(_, now, _, _) => Some(now)
    case _ => None
  }

  /** Whether an operation runs the collector. */
  predicate RunsCollector(op: Op) {
    op.Store? || op.Evict?
  }

  /** All entries at `p` are referenced, and those removed before are so not for too long. */
  ghost predicate HeldAt(cfg: Config, t: Table, p: int, op: Op) {
    && (forall s, j {:trigger t.slots[s][j]} :: InSlot(t, s, j) && t.slots[s][j].at == p ==> t.slots[s][j].refs > 0)
    && (forall x {:trigger x in t.gc} :: x in t.gc && x.at == p ==>
          x.refs > 0 && (RunsCollector(op) && cfg.gcTtl != 0 ==> NowOf(op).value - x.dtime <= cfg.gcTtl))
  }

  lemma HeldReferenced(cfg: Config, t: Table, p: int, op: Op)
    requires HeldAt(cfg, t, p, op)
    ensures Referenced(t, p)
    ensures RunsCollector(op) ==> forall x :: x in t.gc && x.at == p ==> Lingers(cfg, x, NowOf(op).value)
  {
    forall i {:trigger t.gc[i]} | 0 <= i < |t.gc| && t.gc[i].at == p ensures t.gc[i].refs > 0 {
      assert t.gc[i] in t.gc;
    }
  }

  /**
   No operation frees an entry while it is referenced, unless the collector finds that it
   was removed for longer than the limit.
   */
  lemma HeldSurvives(cfg: Config, t: Table, op: Op, p: int)
    requires WellFormed(cfg, t) && HeldAt(cfg, t, p, op) && (op.Store? ==> op.e.at != p)
    ensures Copies(Apply(cfg, t, op).0, p) == Copies(t, p)
  {
    hide Hashed, Counted, Insert, SweepFrom, SetAt, ReleasedAll, Released, RemoveAt, Copies, HeldAt, Hit;
    HeldReferenced(cfg, t, p, op);
    match op
    case Store(e, exclusive, now) => InsertKeepsReferenced(cfg, t, e, exclusive, now, p);
    case Remove(key, now) =>
      var s, j := Slot(cfg, key), IndexOf(t.slots[Slot(cfg, key)], key);
      if j < |t.slots[s]| {
        RemoveAtKeepsReferenced(t, s, j, now, p);
      }
    case Clear(now) => ExpungeKeepsReferenced(cfg, t, now, p);
    case Evict(time, now, short, roomy) =>
      CollectedKeepsReferenced(cfg, t, now, p);
      var u := Collect(cfg, t, now);
      SweepKeepsReferenced(cfg, u, 0, false, time, now, p);
      ExpungeKeepsReferenced(cfg, u, now, p);
      ExpungeKeepsReferenced(cfg, SweepFrom(cfg, u, 0, false, time, now), now, p);
    case Fetch(key, time) =>
      var s, j := Slot(cfg, key), FindIn(cfg, t, key, time);
      if j < |t.slots[s]| {
        HitStays(t.slots[s][j], time);
        SetAtMeasures(t, s, j, Hit(t.slots[s][j], time), p);
      }
    case Release(at) => ReleaseStays(t, at, p);
    case Replace(key, time, val) =>
      var s, j := Slot(cfg, key), FindIn(cfg, t, key, time);
      if j < |t.slots[s]| {
        SetAtMeasures(t, s, j, t.slots[s][j].(val := val, mtime := time), p);
      }
  }

  lemma HitStays(e: Entry, time: int)
    ensures Hit(e, time).at == e.at && Hit(e, time).mem == e.mem
  {
  }

  lemma ReleaseStays(t: Table, at: int, p: int)
    ensures Copies(Table(ReleasedAll(t.slots, at), Released(t.gc, at), t.count, t.mem), p) == Copies(t, p)
  {
    ReleasedCopies(t.slots, at, p);
    ReleasedChainCopies(t.gc, at, p);
  }

  lemma ExpungeKeepsReferenced(cfg: Config, t: Table, now: int, p: int)
    requires Referenced(t, p)
    ensures Copies(Expunge(cfg, t, now), p) == Copies(t, p)
  {
    hide SweepFrom;
    SweepKeepsReferenced(cfg, t, 0, true, 0, now, p);
  }

  lemma CollectedKeepsReferenced(cfg: Config, t: Table, now: int, p: int)
    requires Referenced(t, p) && forall x :: x in t.gc && x.at == p ==> Lingers(cfg, x, now)
    ensures Referenced(Collect(cfg, t, now), p) && Copies(Collect(cfg, t, now), p) == Copies(t, p)
  {
    CollectedReferenced(cfg, t, now, p);
    CollectedCopies(cfg, t.gc, now, p);
  }

  /** The same after any run. */
  lemma RunKeepsHeld(cfg: Config, log: seq<Op>, op: Op, p: int)
    requires Usable(cfg) && HeldAt(cfg, After(cfg, log).0, p, op) && (op.Store? ==> op.e.at != p)
    ensures Copies(After(cfg, log + [op]).0, p) == Copies(After(cfg, log).0, p)
  {
    hide After, Apply, HeldAt, Copies;
    RunIsTruthful(cfg, log);
    OneMore(cfg, log, op);
    HeldSurvives(cfg, After(cfg, log).0, op, p);
  }

  // ---------------------------------------------------------------- when an entry was removed

  /** The entries in the chains. */
  ghost function InChains(t: Table): set<Entry> {
    set s, e | 0 <= s < |t.slots| && e in t.slots[s] :: e
  }

  /** Entries joined the removed ones in this step: they were in a chain and referenced, and bear its time. */
  ghost predicate Joins(t: Table, r: Table, now: int) {
    && InChains(r) <= InChains(t)
    && (forall x {:trigger x in r.gc} :: x in r.gc ==> x in t.gc || Joined(t, x, now))
  }

  ghost predicate Joined(t: Table, x: Entry, now: int) {
    x.dtime == now && x.refs > 0 && exists e :: e in InChains(t) && x == e.(dtime := now)
  }

  lemma JoinsTwice(t: Table, r: Table, u: Table, now: int)
    requires Joins(t, r, now) && Joins(r, u, now)
    ensures Joins(t, u, now)
  {
    hide InChains;
    forall x {:trigger x in u.gc} | x in u.gc ensures x in t.gc || Joined(t, x, now) {
      if x !in r.gc {
        assert Joined(r, x, now);
      }
    }
  }

  lemma RemoveAtJoins(t: Table, s: nat, j: nat, now: int)
    requires InSlot(t, s, j)
    ensures Joins(t, RemoveAt(t, s, j, now), now)
  {
    var r, dead := RemoveAt(t, s, j, now), t.slots[s][j];
    forall e | e in InChains(r) ensures e in InChains(t) {
      var x :| 0 <= x < |r.slots| && e in r.slots[x];
      var y :| 0 <= y < |r.slots[x]| && r.slots[x][y] == e;
      var i := if x == s && y >= j then y + 1 else y;
      assert e == t.slots[x][i] && t.slots[x][i] in t.slots[x];
    }
    assert dead in t.slots[s] && dead in InChains(t);
    forall x {:trigger x in r.gc} | x in r.gc && x !in t.gc ensures Joined(t, x, now) {
      assert dead.refs > 0 && x == dead.(dtime := now);
    }
  }

  lemma {:induction false} SweepSlotJoins(cfg: Config, t: Table, s: nat, j: nat, all: bool, time: int, now: int)
    requires s < |t.slots| && j <= |t.slots[s]|
    ensures Joins(t, SweepSlot(cfg, t, s, j, all, time, now), now)
    decreases |t.slots[s]| - j
  {
    hide Joins, RemoveAt;
    if j == |t.slots[s]| {
      JoinsItself(t, now);
    } else if all || Expired(cfg, t.slots[s][j], time) {
      RemovedSlots(t, s, j, now);
      RemoveAtJoins(t, s, j, now);
      SweepSlotJoins(cfg, RemoveAt(t, s, j, now), s, j, all, time, now);
      JoinsTwice(t, RemoveAt(t, s, j, now), SweepSlot(cfg, t, s, j, all, time, now), now);
    } else {
      SweepSlotJoins(cfg, t, s, j + 1, all, time, now);
    }
  }

  lemma JoinsItself(t: Table, now: int)
    ensures Joins(t, t, now)
  {
  }

  lemma {:induction false} SweepFromJoins(cfg: Config, t: Table, s: nat, all: bool, time: int, now: int)
    requires s <= |t.slots|
    ensures Joins(t, SweepFrom(cfg, t, s, all, time, now), now)
    decreases |t.slots| - s
  {
    hide Joins, SweepSlot;
    if s == |t.slots| {
      JoinsItself(t, now);
    } else {
      var u := SweepSlot(cfg, t, s, 0, all, time, now);
      SweepSlotJoins(cfg, t, s, 0, all, time, now);
      SweepFromJoins(cfg, u, s + 1, all, time, now);
      JoinsTwice(t, u, SweepFrom(cfg, t, s, all, time, now), now);
    }
  }

  lemma {:induction false} InsertFromJoins(cfg: Config, t: Table, s: nat, j: nat, e: Entry, exclusive: bool, now: int)
    requires s < |t.slots| && j <= |t.slots[s]|
    ensures forall x {:trigger x in InsertFrom(cfg, t, s, j, e, exclusive, now).0.gc} ::
      x in InsertFrom(cfg, t, s, j, e, exclusive, now).0.gc ==> x in t.gc || Joined(t, x, now)
    decreases |t.slots[s]| - j
  {
    hide RemoveAt, Joined, InChains;
    if j < |t.slots[s]| {
      var u := RemoveAt(t, s, j, now);
      RemovedSlots(t, s, j, now);
      RemoveAtJoins(t, s, j, now);
      if t.slots[s][j].key == e.key {
      } else if Expired(cfg, t.slots[s][j], e.ctime) {
        InsertFromJoins(cfg, u, s, j, e, exclusive, now);
        forall x {:trigger Joined(u, x, now)} | Joined(u, x, now) ensures Joined(t, x, now) {
          JoinedBefore(t, u, x, now);
        }
      } else {
        InsertFromJoins(cfg, t, s, j + 1, e, exclusive, now);
      }
    }
  }

  lemma JoinedBefore(t: Table, u: Table, x: Entry, now: int)
    requires InChains(u) <= InChains(t) && Joined(u, x, now)
    ensures Joined(t, x, now)
  {
  }

  /**
   Every removed entry was among the removed before, but perhaps for a reference, or was in
   a chain and referenced, and bears the time of this operation.
   */
  lemma RemovedDated(cfg: Config, t: Table, op: Op, x: Entry)
    requires WellFormed(cfg, t) && x in Apply(cfg, t, op).0.gc
    ensures || (exists y :: y in t.gc && x == y.(refs := x.refs))
            || (NowOf(op).Some? && Joined(t, x, NowOf(op).value))
  {
    hide Hashed, Counted, InsertFrom, SweepFrom, ReleasedAll, RemoveAt, Joined, InChains, GcFrom;
    assert x == x.(refs := x.refs);
    match op
    case Store(e, exclusive, now) =>
      GcIsPart(cfg, t.gc, now);
      InsertFromJoins(cfg, Collect(cfg, t, now), Slot(cfg, e.key), 0, e, exclusive, now);
      CollectJoined(cfg, t, x, now);
    case Remove(key, now) =>
      var s, j := Slot(cfg, key), IndexOf(t.slots[Slot(cfg, key)], key);
      if j < |t.slots[s]| {
        RemoveAtJoins(t, s, j, now);
      }
    case Clear(now) => SweepFromJoins(cfg, t, 0, true, 0, now);
    case Evict(time, now, short, roomy) =>
      var u := Collect(cfg, t, now);
      var v := SweepFrom(cfg, u, 0, false, time, now);
      GcIsPart(cfg, t.gc, now);
      CollectJoined(cfg, t, x, now);
      SweepFromJoins(cfg, u, 0, false, time, now);
      SweepFromJoins(cfg, u, 0, true, 0, now);
      SweepFromJoins(cfg, v, 0, true, 0, now);
      JoinsTwice(u, v, SweepFrom(cfg, v, 0, true, 0, now), now);
    case Fetch(_, _) =>
    case Release(at) =>
      var i :| 0 <= i < |t.gc| && Released(t.gc, at)[i] == x;
      assert t.gc[i] in t.gc;
    case Replace(_, _, _) =>
  }

  lemma CollectJoined(cfg: Config, t: Table, x: Entry, now: int)
    ensures Joined(Collect(cfg, t, now), x, now) ==> Joined(t, x, now)
  {
  }

  // ---------------------------------------------------------------- what the collector decides

  lemma {:induction false} NoCopyIn(c: Chain, p: int)
    ensures ChainCopies(c, p) == 0 <==> forall y :: y in c ==> y.at != p
  {
    if c != [] {
      NoCopyIn(c[1..], p);
      assert c == [c[0]] + c[1..];
    }
  }

  /** The one entry at an address. */
  lemma OnlyCopy(c: Chain, x: Entry, y: Entry)
    requires x in c && y in c && x.at == y.at && ChainCopies(c, x.at) <= 1
    ensures x == y
  {
    var i :| 0 <= i < |c| && c[i] == x;
    var j :| 0 <= j < |c| && c[j] == y;
    if i != j {
      ChainWithout(c, i, x.at);
      var d := Drop(c, i);
      var k := if j < i then j else j - 1;
      assert d[k] == y && y in d;
      NoCopyIn(d, x.at);
    }
  }

  lemma {:induction false} HeldAtMost(slots: seq<Chain>, p: int)
    ensures SlotsHeld(slots, p) <= SlotsCopies(slots, p)
  {
    if slots != [] {
      ChainHeldAtMost(slots[0], p);
      HeldAtMost(slots[1..], p);
    }
  }

  lemma {:induction false} ChainHeldAtMost(c: Chain, p: int)
    ensures ChainHeld(c, p) <= ChainCopies(c, p)
  {
    if c != [] {
      ChainHeldAtMost(c[1..], p);
    }
  }

  /** A sweep leaves what was removed before, and adds nothing. */
  lemma SweepBetween(cfg: Config, t: Table, all: bool, time: int, now: int, p: int)
    ensures ChainCopies(t.gc, p) <= Copies(SweepFrom(cfg, t, 0, all, time, now), p) <= Copies(t, p)
  {
    SweepKept(cfg, t, 0, all, time, now, p);
    SweepShrinks(cfg, t, 0, all, time, now, p);
    HeldAtMost(SweepFrom(cfg, t, 0, all, time, now).slots, p);
  }

  lemma ExpungeBetween(cfg: Config, t: Table, now: int, p: int)
    ensures ChainCopies(t.gc, p) <= Copies(Expunge(cfg, t, now), p) <= Copies(t, p)
  {
    SweepBetween(cfg, t, true, 0, now, p);
  }

  lemma {:induction false} InsertFromBetween(cfg: Config, t: Table, s: nat, j: nat, e: Entry, exclusive: bool, now: int, p: int)
    requires s < |t.slots| && j <= |t.slots[s]| && e.at != p
    ensures ChainCopies(t.gc, p) <= Copies(InsertFrom(cfg, t, s, j, e, exclusive, now).0, p) <= Copies(t, p)
    decreases |t.slots[s]| - j
  {
    hide RemoveAt, LinkAt;
    if j == |t.slots[s]| {
      LinkAtMeasures(t, s, j, e, p);
    } else {
      var u := RemoveAt(t, s, j, now);
      RemovedSlots(t, s, j, now);
      RemoveAtMeasures(t, s, j, now, p);
      RemovedGc(t, s, j, now, p);
      if t.slots[s][j].key == e.key {
        LinkAtMeasures(u, s, j, e, p);
      } else if Expired(cfg, t.slots[s][j], e.ctime) {
        InsertFromBetween(cfg, u, s, j, e, exclusive, now, p);
      } else {
        InsertFromBetween(cfg, t, s, j + 1, e, exclusive, now, p);
      }
    }
  }

  lemma RemovedGc(t: Table, s: nat, j: nat, now: int, p: int)
    requires InSlot(t, s, j)
    ensures ChainCopies(t.gc, p) <= ChainCopies(RemoveAt(t, s, j, now).gc, p) <= Copies(RemoveAt(t, s, j, now), p)
  {
    var r := RemoveAt(t, s, j, now);
    if t.slots[s][j].refs > 0 {
      assert r.gc[1..] == t.gc;
    }
  }

  lemma CollectDecides(cfg: Config, t: Table, now: int, x: Entry)
    requires x in t.gc && Copies(t, x.at) == 1
    ensures var u := Collect(cfg, t, now);
      if x.refs != 0 && (cfg.gcTtl == 0 || now - x.dtime <= cfg.gcTtl) then ChainCopies(u.gc, x.at) == 1 == Copies(u, x.at)
      else Copies(u, x.at) == 0
  {
    var u := Collect(cfg, t, now);
    CollectedExactly(cfg, t.gc, now);
    NoCopyIn(t.gc, x.at);
    NoCopyIn(u.gc, x.at);
    CollectedCopies(cfg, t.gc, now, x.at);
    forall y | y in u.gc && y.at == x.at ensures y == x {
      OnlyCopy(t.gc, x, y);
    }
  }

  /**
   Whenever the collector runs, a removed entry stays exactly if somebody uses it and, where
   there is a limit, it was not removed for longer.
   */
  lemma CollectorDecides(cfg: Config, t: Table, op: Op, x: Entry)
    requires Usable(cfg) && |t.slots| == cfg.nslots && x in t.gc && Copies(t, x.at) == 1
    requires RunsCollector(op) && (op.Store? ==> op.e.at != x.at)
    ensures Copies(Apply(cfg, t, op).0, x.at) ==
      if x.refs != 0 && (cfg.gcTtl == 0 || NowOf(op).value - x.dtime <= cfg.gcTtl) then 1 else 0
  {
    hide InsertFrom, SweepFrom, Copies, Collect;
    var u := Collect(cfg, t, op.now);
    CollectDecides(cfg, t, op.now, x);
    CollectSlots(cfg, t, op.now);
    if op.Store? {
      InsertFromBetween(cfg, u, Slot(cfg, op.e.key), 0, op.e, op.exclusive, op.now, x.at);
    } else {
      var v := SweepFrom(cfg, u, 0, false, op.time, op.now);
      SweepBetween(cfg, u, false, op.time, op.now, x.at);
      GcWithin(v, x.at);
      ExpungeBetween(cfg, u, op.now, x.at);
      ExpungeBetween(cfg, v, op.now, x.at);
      SweepKept(cfg, u, 0, false, op.time, op.now, x.at);
      SweptGc(cfg, u, op.time, op.now, x.at);
    }
  }

  lemma CollectSlots(cfg: Config, t: Table, now: int)
    ensures Collect(cfg, t, now).slots == t.slots
  {
  }

  lemma GcWithin(t: Table, p: int)
    ensures ChainCopies(t.gc, p) <= Copies(t, p)
  {
  }

  /** What no chain has is among the removed as often after a sweep as before. */
  lemma SweptGc(cfg: Config, t: Table, time: int, now: int, p: int)
    ensures Copies(t, p) == ChainCopies(t.gc, p) ==>
      ChainCopies(SweepFrom(cfg, t, 0, false, time, now).gc, p) == ChainCopies(t.gc, p)
  {
    var r := SweepFrom(cfg, t, 0, false, time, now);
    SweepKept(cfg, t, 0, false, time, now, p);
    SweepBetween(cfg, t, false, time, now, p);
    HeldAtMost(t.slots, p);
    HeldAtMost(r.slots, p);
    SweepSlotsShrink(cfg, t, 0, false, time, now, p);
  }

  lemma {:induction false} SweepSlotSlotsShrink(cfg: Config, t: Table, s: nat, j: nat, all: bool, time: int, now: int, p: int)
    requires s < |t.slots| && j <= |t.slots[s]|
    ensures SlotsCopies(SweepSlot(cfg, t, s, j, all, time, now).slots, p) <= SlotsCopies(t.slots, p)
    decreases |t.slots[s]| - j
  {
    hide RemoveAt;
    if j < |t.slots[s]| {
      if all || Expired(cfg, t.slots[s][j], time) {
        RemovedSlots(t, s, j, now);
        RemovedSlotsShrink(t, s, j, now, p);
        SweepSlotSlotsShrink(cfg, RemoveAt(t, s, j, now), s, j, all, time, now, p);
      } else {
        SweepSlotSlotsShrink(cfg, t, s, j + 1, all, time, now, p);
      }
    }
  }

  lemma RemovedSlotsShrink(t: Table, s: nat, j: nat, now: int, p: int)
    requires InSlot(t, s, j)
    ensures SlotsCopies(RemoveAt(t, s, j, now).slots, p) <= SlotsCopies(t.slots, p)
  {
    ChainWithout(t.slots[s], j, p);
    SlotsChange(t.slots, s, Drop(t.slots[s], j), p);
  }

  lemma {:induction false} SweepSlotsShrink(cfg: Config, t: Table, s: nat, all: bool, time: int, now: int, p: int)
    requires s <= |t.slots|
    ensures SlotsCopies(SweepFrom(cfg, t, s, all, time, now).slots, p) <= SlotsCopies(t.slots, p)
    decreases |t.slots| - s
  {
    hide SweepSlot;
    if s < |t.slots| {
      SweepSlotSlotsShrink(cfg, t, s, 0, all, time, now, p);
      SweepSlotsShrink(cfg, SweepSlot(cfg, t, s, 0, all, time, now), s + 1, all, time, now, p);
    }
  }
}
