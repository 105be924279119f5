/** Which values outside the entry itself a cache refers to, and that no operation makes one up. */
module CacheBoxes {
  import opened Collections
  import opened CacheTable
  import opened CacheLaws
  import opened CacheRuns

  /** A value kept outside its entry: where the entry is, its key and size, and which value it is. */
  datatype Box = Box(at: int, key: string, mem: nat, id: int)

  function EntryBoxes(e: Entry): set<Box> {
    if e.val.Boxed? then {Box(e.at, e.key, e.mem, e.val.id)} else {}
  }

  ghost function ChainBoxes(c: Chain): set<Box> {
    set e, b | e in c && b in EntryBoxes(e) :: b
  }

  /** The values the entries of a table have, removed entries included. */
  ghost function Boxes(t: Table): set<Box> {
    (set s, b | 0 <= s < |t.slots| && b in ChainBoxes(t.slots[s]) :: b) + ChainBoxes(t.gc)
  }

  lemma EntryBoxed(c: Chain, j: nat)
    requires j < |c|
    ensures EntryBoxes(c[j]) <= ChainBoxes(c)
  {
  }

  lemma PartBoxes(c: Chain, d: Chain, more: set<Box>)
    requires forall e :: e in d ==> EntryBoxes(e) <= ChainBoxes(c) + more
    ensures ChainBoxes(d) <= ChainBoxes(c) + more
  {
  }

  lemma SlotBoxes(t: Table, s: nat)
    requires s < |t.slots|
    ensures ChainBoxes(t.slots[s]) <= Boxes(t)
  {
  }

  /** One slot and the removed entries change. */
  lemma ChangeBoxes(t: Table, r: Table, s: nat, more: set<Box>)
    requires s < |t.slots| && |r.slots| == |t.slots| && r.slots == t.slots[s := r.slots[s]]
    requires ChainBoxes(r.slots[s]) <= Boxes(t) + more && ChainBoxes(r.gc) <= Boxes(t) + more
    ensures Boxes(r) <= Boxes(t) + more
  {
    hide ChainBoxes;
    forall b | b in Boxes(r) ensures b in Boxes(t) + more {
      if x :| 0 <= x < |r.slots| && b in ChainBoxes(r.slots[x]) {
        assert x != s ==> r.slots[x] == t.slots[x];
      }
    }
  }

  lemma RemoveAtBoxes(t: Table, s: nat, j: nat, now: int)
    requires InSlot(t, s, j)
    ensures Boxes(RemoveAt(t, s, j, now)) <= Boxes(t)
  {
    hide Boxes;
    var c, r, dead := t.slots[s], RemoveAt(t, s, j, now), t.slots[s][j];
    SlotBoxes(t, s);
    GcBoxes(t);
    EntryBoxed(c, j);
    PartBoxes(c, Drop(c, j), {});
    PartBoxes(t.gc, r.gc, EntryBoxes(dead));
    ChangeBoxes(t, r, s, {});
  }

  lemma GcBoxes(t: Table)
    ensures ChainBoxes(t.gc) <= Boxes(t)
  {
  }

  lemma LinkAtBoxes(t: Table, s: nat, j: nat, e: Entry)
    requires s < |t.slots| && j <= |t.slots[s]|
    ensures Boxes(LinkAt(t, s, j, e)) <= Boxes(t) + EntryBoxes(e)
  {
    hide Boxes;
    var c := t.slots[s];
    SlotBoxes(t, s);
    GcBoxes(t);
    PartBoxes(c, c[..j] + [e] + c[j..], EntryBoxes(e));
    ChangeBoxes(t, LinkAt(t, s, j, e), s, EntryBoxes(e));
  }

  lemma SetAtBoxes(t: Table, s: nat, j: nat, e: Entry)
    requires InSlot(t, s, j) && EntryBoxes(e) == EntryBoxes(t.slots[s][j])
    ensures Boxes(SetAt(t, s, j, e)) <= Boxes(t)
  {
    hide Boxes;
    var c := t.slots[s];
    SlotBoxes(t, s);
    GcBoxes(t);
    EntryBoxed(c, j);
    PartBoxes(c, c[j := e], {});
    ChangeBoxes(t, SetAt(t, s, j, e), s, {});
  }

  lemma CollectBoxes(cfg: Config, t: Table, now: int)
    ensures Boxes(Collect(cfg, t, now)) <= Boxes(t)
  {
    GcIsPart(cfg, t.gc, now);
    PartBoxes(t.gc, GcFrom(cfg, t.gc, now), {});
  }

  lemma {:induction false} InsertFromBoxes(cfg: Config, t: Table, s: nat, j: nat, e: Entry, exclusive: bool, now: int)
    requires s < |t.slots| && j <= |t.slots[s]|
    ensures Boxes(InsertFrom(cfg, t, s, j, e, exclusive, now).0) <= Boxes(t) + EntryBoxes(e)
    decreases |t.slots[s]| - j
  {
    hide Boxes, RemoveAt, LinkAt;
    if j == |t.slots[s]| {
      LinkAtBoxes(t, s, j, e);
    } else {
      RemovedSlots(t, s, j, now);
      RemoveAtBoxes(t, s, j, now);
      if t.slots[s][j].key == e.key {
        LinkAtBoxes(RemoveAt(t, s, j, now), s, j, e);
      } else if Expired(cfg, t.slots[s][j], e.ctime) {
        InsertFromBoxes(cfg, RemoveAt(t, s, j, now), s, j, e, exclusive, now);
      } else {
        InsertFromBoxes(cfg, t, s, j + 1, e, exclusive, now);
      }
    }
  }

  lemma {:induction false} SweepSlotBoxes(cfg: Config, t: Table, s: nat, j: nat, all: bool, time: int, now: int)
    requires s < |t.slots| && j <= |t.slots[s]|
    ensures Boxes(SweepSlot(cfg, t, s, j, all, time, now)) <= Boxes(t)
    decreases |t.slots[s]| - j
  {
    hide Boxes, RemoveAt;
    if j < |t.slots[s]| {
      if all || Expired(cfg, t.slots[s][j], time) {
        RemovedSlots(t, s, j, now);
        RemoveAtBoxes(t, s, j, now);
        SweepSlotBoxes(cfg, RemoveAt(t, s, j, now), s, j, all, time, now);
      } else {
        SweepSlotBoxes(cfg, t, s, j + 1, all, time, now);
      }
    }
  }

  lemma {:induction false} SweepFromBoxes(cfg: Config, t: Table, s: nat, all: bool, time: int, now: int)
    requires s <= |t.slots|
    ensures Boxes(SweepFrom(cfg, t, s, all, time, now)) <= Boxes(t)
    decreases |t.slots| - s
  {
    hide Boxes, SweepSlot;
    if s < |t.slots| {
      SweepSlotBoxes(cfg, t, s, 0, all, time, now);
      SweepFromBoxes(cfg, SweepSlot(cfg, t, s, 0, all, time, now), s + 1, all, time, now);
    }
  }

  lemma EvictedBoxes(cfg: Config, t: Table, time: int, now: int, short: bool, roomy: bool)
    ensures Boxes(Evicted(cfg, t, time, now, short, roomy)) <= Boxes(t)
  {
    hide SweepFrom, Collect;
    var u := Collect(cfg, t, now);
    CollectBoxes(cfg, t, now);
    SweepFromBoxes(cfg, u, 0, false, time, now);
    ExpungeBoxes(cfg, u, now);
    ExpungeBoxes(cfg, SweepFrom(cfg, u, 0, false, time, now), now);
  }

  lemma ExpungeBoxes(cfg: Config, t: Table, now: int)
    ensures Boxes(Expunge(cfg, t, now)) <= Boxes(t)
  {
    SweepFromBoxes(cfg, t, 0, true, 0, now);
  }

  lemma ReleasedBoxes(t: Table, at: int)
    ensures Boxes(Table(ReleasedAll(t.slots, at), Released(t.gc, at), t.count, t.mem)) <= Boxes(t)
  {
    var r := Table(ReleasedAll(t.slots, at), Released(t.gc, at), t.count, t.mem);
    ReleasedChainBoxes(t.gc, at);
    forall s | 0 <= s < |r.slots| ensures ChainBoxes(r.slots[s]) <= ChainBoxes(t.slots[s]) {
      ReleasedChainBoxes(t.slots[s], at);
    }
  }

  lemma ReleasedChainBoxes(c: Chain, at: int)
    ensures ChainBoxes(Released(c, at)) <= ChainBoxes(c)
  {
    forall e | e in Released(c, at) ensures EntryBoxes(e) <= ChainBoxes(c) {
      var j :| 0 <= j < |c| && Released(c, at)[j] == e;
      EntryBoxed(c, j);
    }
  }

  /** An operation leaves values the table had, and the one it was given; updates in place are for simple values. */
  lemma ApplyBoxes(cfg: Config, t: Table, op: Op)
    requires Usable(cfg) && |t.slots| == cfg.nslots
    requires op.Replace? ==> !op.val.Boxed?
    ensures Boxes(Apply(cfg, t, op).0) <= Boxes(t) + if op.Store? then EntryBoxes(op.e) else {}
  {
    hide Boxes, Collect, InsertFrom, RemoveAt, Expunge, Evicted, SetAt, Released, ReleasedAll, Hit;
    match op
    case Store(e, exclusive, now) =>
      CollectBoxes(cfg, t, now);
      CollectedSlots(cfg, t, now);
      InsertFromBoxes(cfg, Collect(cfg, t, now), Slot(cfg, e.key), 0, e, exclusive, now);
    case Remove(key, now) =>
      if IndexOf(t.slots[Slot(cfg, key)], key) < |t.slots[Slot(cfg, key)]| {
        RemoveAtBoxes(t, Slot(cfg, key), IndexOf(t.slots[Slot(cfg, key)], key), now);
      }
    case Clear(now) => ExpungeBoxes(cfg, t, now);
    case Evict(time, now, short, roomy) => EvictedBoxes(cfg, t, time, now, short, roomy);
    case Fetch(key, time) =>
      var s, j := Slot(cfg, key), FindIn(cfg, t, key, time);
      if j < |t.slots[s]| {
        HitBoxes(t.slots[s][j], time);
        SetAtBoxes(t, s, j, Hit(t.slots[s][j], time));
      }
    case Release(at) => ReleasedBoxes(t, at);
    case Replace(key, time, val) =>
      var s, j := Slot(cfg, key), FindIn(cfg, t, key, time);
      if j < |t.slots[s]| && Simple(t.slots[s][j].val) {
        SetAtBoxes(t, s, j, t.slots[s][j].(val := val, mtime := time));
      }
  }

  lemma CollectedSlots(cfg: Config, t: Table, now: int)
    ensures Collect(cfg, t, now).slots == t.slots
  {
  }

  lemma HitBoxes(e: Entry, time: int)
    ensures EntryBoxes(Hit(e, time)) == EntryBoxes(e)
  {
  }

  /** What a lookup hits is one of them. */
  lemma LookupBoxed(cfg: Config, t: Table, key: string, time: int)
    requires Usable(cfg) && |t.slots| == cfg.nslots && Lookup(cfg, t, key, time).Some?
    ensures EntryBoxes(Lookup(cfg, t, key, time).value) <= Boxes(t)
    ensures Lookup(cfg, t, key, time).value.key == key
  {
    hide Boxes;
    var s := Slot(cfg, key);
    EntryBoxed(t.slots[s], FindIn(cfg, t, key, time));
    SlotBoxes(t, s);
  }
}
