/** What each cache operation does to the keys it holds, and what a whole run may and may not do. */
module CacheLaws {
  import opened CacheTable
  import opened Collections

  /** The entry stored under `k`, expired or not. */
  function Stored(cfg: Config, t: Table, k: string): Option<Entry>
    requires Usable(cfg) && |t.slots| == cfg.nslots
  {
    var c := t.slots[Slot(cfg, k)];
    var j := IndexOf(c, k);
    if j < |c| then Some(c[j]) else None
  }

  lemma LookupIsUnexpired(cfg: Config, t: Table, k: string, time: int)
    requires Usable(cfg) && |t.slots| == cfg.nslots
    ensures Lookup(cfg, t, k, time) ==
      match Stored(cfg, t, k) case None => None case Some(e) => if HardExpired(e, time) then None else Some(e)
  {
  }

  // ---------------------------------------------------------------- times, in plain arithmetic

  /** The entry's own time to live, if it has one, is not over. */
  predicate InTime(e: Entry, time: int) {
    e.ttl == 0 || time <= e.ctime + e.ttl
  }

  /** Nor is the cache's, which runs from the last access and is for entries that have none of their own. */
  predicate InUse(cfg: Config, e: Entry, time: int) {
    InTime(e, time) && (e.ttl != 0 || cfg.ttl == 0 || time <= e.atime + cfg.ttl)
  }

  /** Some entry of the chains has the key, and its own time is not over. */
  ghost predicate Alive(t: Table, k: string, time: int) {
    exists s, j {:trigger t.slots[s][j]} :: InSlot(t, s, j) && t.slots[s][j].key == k && InTime(t.slots[s][j], time)
  }

  /** A lookup hits exactly if there is such an entry, and gives it. */
  lemma LookupIffAlive(cfg: Config, t: Table, k: string, time: int)
    requires WellFormed(cfg, t)
    ensures Lookup(cfg, t, k, time).Some? <==> Alive(t, k, time)
    ensures Lookup(cfg, t, k, time).Some? ==>
      exists s, j {:trigger t.slots[s][j]} :: InSlot(t, s, j) && Lookup(cfg, t, k, time) == Some(t.slots[s][j])
        && t.slots[s][j].key == k && InTime(t.slots[s][j], time)
  {
    var s, j := Slot(cfg, k), FindIn(cfg, t, k, time);
    if Alive(t, k, time) {
      var x, y :| InSlot(t, x, y) && t.slots[x][y].key == k && InTime(t.slots[x][y], time);
      StoredAt(cfg, t, x, y);
    }
    if j < |t.slots[s]| {
      assert InSlot(t, s, j) && t.slots[s][j].key == k;
    }
  }

  lemma ExpiredIs(cfg: Config, e: Entry, time: int)
    ensures HardExpired(e, time) <==> !InTime(e, time)
    ensures Expired(cfg, e, time) <==> !InUse(cfg, e, time)
  {
  }

  lemma {:induction false} IndexOfOnly(c: Chain, j: nat)
    requires j < |c| && forall i :: 0 <= i < j ==> c[i].key != c[j].key
    ensures IndexOf(c, c[j].key) == j
  {
  }

  /** Every entry of a chain is the one stored under its key. */
  lemma StoredAt(cfg: Config, t: Table, s: nat, j: nat)
    requires Usable(cfg) && Hashed(cfg, t) && InSlot(t, s, j)
    ensures Stored(cfg, t, t.slots[s][j].key) == Some(t.slots[s][j])
  {
  }

  lemma NotStored(cfg: Config, t: Table, k: string)
    requires Usable(cfg) && |t.slots| == cfg.nslots
    ensures Stored(cfg, t, k) == None <==> forall j :: 0 <= j < |t.slots[Slot(cfg, k)]| ==> t.slots[Slot(cfg, k)][j].key != k
  {
  }

  // ---------------------------------------------------------------- single steps, by key

  lemma RemoveAtByKey(cfg: Config, t: Table, s: nat, j: nat, now: int, k: string)
    requires Usable(cfg) && Hashed(cfg, t) && InSlot(t, s, j)
    ensures Hashed(cfg, RemoveAt(t, s, j, now))
    ensures Stored(cfg, RemoveAt(t, s, j, now), k) == if k == t.slots[s][j].key then None else Stored(cfg, t, k)
  {
    var r := RemoveAt(t, s, j, now);
    RemoveAtHashed(cfg, t, s, j, now);
    var x := Slot(cfg, k);
    var i := IndexOf(t.slots[x], k);
    if x == s {
      assert forall y :: 0 <= y < |r.slots[s]| ==> r.slots[s][y] == t.slots[s][if y >= j then y + 1 else y];
      if i < |t.slots[s]| && i != j {
        var y := if i < j then i else i - 1;
        assert r.slots[s][y] == t.slots[s][i];
        StoredAt(cfg, r, s, y);
      } else {
        NotStored(cfg, r, k);
      }
    } else {
      assert t.slots[s][j].key != k;
    }
  }

  /** Where a key is once another one is linked. */
  lemma {:induction false} LinkIndex(c: Chain, j: nat, e: Entry, k: string)
    requires j <= |c| && k != e.key
    ensures IndexOf(c[..j] + [e] + c[j..], k) == if IndexOf(c, k) < j then IndexOf(c, k) else IndexOf(c, k) + 1
  {
    var d := c[..j] + [e] + c[j..];
    if j == 0 {
      assert d[1..] == c;
    } else {
      assert d[1..] == c[1..][..j - 1] + [e] + c[1..][j - 1..];
      if c[0].key != k {
        LinkIndex(c[1..], j - 1, e, k);
      }
    }
  }

  lemma LinkAtByKey(cfg: Config, t: Table, s: nat, j: nat, e: Entry, k: string)
    requires Usable(cfg) && Hashed(cfg, t) && s == Slot(cfg, e.key) && j <= |t.slots[s]|
    requires Stored(cfg, t, e.key) == None
    ensures Hashed(cfg, LinkAt(t, s, j, e))
    ensures Stored(cfg, LinkAt(t, s, j, e), k) == if k == e.key then Some(e) else Stored(cfg, t, k)
  {
    NotStored(cfg, t, e.key);
    LinkAtHashed(cfg, t, s, j, e);
    var c, d := t.slots[s], LinkAt(t, s, j, e).slots[s];
    if k == e.key {
      assert forall i :: 0 <= i < j ==> d[i] == c[i];
      IndexOfOnly(d, j);
    } else {
      LinkIndex(c, j, e, k);
    }
  }

  lemma SetAtByKey(cfg: Config, t: Table, s: nat, j: nat, e: Entry, k: string)
    requires Usable(cfg) && Hashed(cfg, t) && InSlot(t, s, j) && e.key == t.slots[s][j].key
    ensures Hashed(cfg, SetAt(t, s, j, e))
    ensures Stored(cfg, SetAt(t, s, j, e), k) == if k == e.key then Some(e) else Stored(cfg, t, k)
  {
    var r := SetAt(t, s, j, e);
    var x := Slot(cfg, k);
    var i := IndexOf(t.slots[x], k);
    assert forall y :: 0 <= y < |t.slots[s]| ==> r.slots[s][y].key == t.slots[s][y].key;
    assert Hashed(cfg, r);
    if k == e.key {
      StoredAt(cfg, r, s, j);
    } else if i < |t.slots[x]| {
      assert r.slots[x][i] == t.slots[x][i];
      StoredAt(cfg, r, x, i);
    } else {
      NotStored(cfg, r, k);
    }
  }

  // ---------------------------------------------------------------- insertion

  /** Another key's entry stays, unless it is expired and shares the chain. */
  ghost predicate StaysOrExpired(cfg: Config, t: Table, r: Table, k: string, other: string, time: int)
    requires Usable(cfg) && |t.slots| == |r.slots| == cfg.nslots
  {
    || Stored(cfg, r, other) == Stored(cfg, t, other)
    || (Stored(cfg, r, other) == None && Stored(cfg, t, other).Some?
        && !InUse(cfg, Stored(cfg, t, other).value, time) && Slot(cfg, other) == Slot(cfg, k))
  }

  lemma {:induction false} InsertFromByKey(cfg: Config, t: Table, s: nat, j: nat, e: Entry, exclusive: bool, now: int, k: string)
    requires WellFormed(cfg, t) && s == Slot(cfg, e.key) && j <= |t.slots[s]|
    requires forall i :: 0 <= i < j ==> t.slots[s][i].key != e.key
    ensures var (r, ok) := InsertFrom(cfg, t, s, j, e, exclusive, now);
      && WellFormed(cfg, r)
      && (ok <==> !exclusive || Lookup(cfg, t, e.key, e.ctime) == None)
      && Stored(cfg, r, e.key) == (if ok then Some(e) else Stored(cfg, t, e.key))
      && (k != e.key ==> StaysOrExpired(cfg, t, r, e.key, k, e.ctime))
    decreases |t.slots[s]| - j
  {
    hide Hashed, Counted, InUse, InTime, Stored, Lookup, RemoveAt, LinkAt;
    LookupIsUnexpired(cfg, t, e.key, e.ctime);
    if j == |t.slots[s]| {
      NotStored(cfg, t, e.key);
      LinkedWell(cfg, t, s, j, e, k);
    } else if t.slots[s][j].key == e.key {
      StoredAtPosition(cfg, t, s, j);
      if !(exclusive && !HardExpired(t.slots[s][j], e.ctime)) {
        var u := RemoveAt(t, s, j, now);
        RemovedWell(cfg, t, s, j, now, k);
        RemovedWell(cfg, t, s, j, now, e.key);
        RemovedSlots(t, s, j, now);
        LinkedWell(cfg, u, s, j, e, k);
      }
    } else if Expired(cfg, t.slots[s][j], e.ctime) {
      ExpiredIs(cfg, t.slots[s][j], e.ctime);
      RemovedWell(cfg, t, s, j, now, k);
      RemovedWell(cfg, t, s, j, now, e.key);
      StoredAtPosition(cfg, t, s, j);
      RemovedSlots(t, s, j, now);
      LookupIsUnexpired(cfg, RemoveAt(t, s, j, now), e.key, e.ctime);
      InsertFromByKey(cfg, RemoveAt(t, s, j, now), s, j, e, exclusive, now, k);
    } else {
      InsertFromByKey(cfg, t, s, j + 1, e, exclusive, now, k);
    }
  }

  lemma RemovedSlots(t: Table, s: nat, j: nat, now: int)
    requires InSlot(t, s, j)
    ensures var r := RemoveAt(t, s, j, now);
      |r.slots| == |t.slots| && r.slots[s] == Drop(t.slots[s], j) && |r.slots[s]| == |t.slots[s]| - 1
  {
  }

  lemma RemovedWell(cfg: Config, t: Table, s: nat, j: nat, now: int, k: string)
    requires WellFormed(cfg, t) && InSlot(t, s, j)
    ensures WellFormed(cfg, RemoveAt(t, s, j, now))
    ensures Stored(cfg, RemoveAt(t, s, j, now), k) == if k == t.slots[s][j].key then None else Stored(cfg, t, k)
  {
    RemoveAtByKey(cfg, t, s, j, now, k);
    RemoveAtMeasures(t, s, j, now, 0);
  }

  lemma LinkedWell(cfg: Config, t: Table, s: nat, j: nat, e: Entry, k: string)
    requires WellFormed(cfg, t) && s == Slot(cfg, e.key) && j <= |t.slots[s]| && Stored(cfg, t, e.key) == None
    ensures WellFormed(cfg, LinkAt(t, s, j, e))
    ensures Stored(cfg, LinkAt(t, s, j, e), k) == if k == e.key then Some(e) else Stored(cfg, t, k)
    ensures Stored(cfg, LinkAt(t, s, j, e), e.key) == Some(e)
  {
    LinkAtByKey(cfg, t, s, j, e, k);
    LinkAtByKey(cfg, t, s, j, e, e.key);
    LinkAtMeasures(t, s, j, e, 0);
  }

  /**
   An exclusive insertion succeeds exactly when no entry of the key is in time then; an
   insertion that succeeds is what the next lookup finds; other keys only lose entries
   that share the chain and are expired, and before the new entry none of those is left.
   */
  lemma InsertEffect(cfg: Config, t: Table, e: Entry, exclusive: bool, now: int, k: string)
    requires WellFormed(cfg, t)
    ensures var (r, ok) := Insert(cfg, t, e, exclusive, now);
      && WellFormed(cfg, r)
      && (ok <==> !exclusive || Lookup(cfg, t, e.key, e.ctime) == None)
      && (ok <==> !exclusive || !Alive(t, e.key, e.ctime))
      && Stored(cfg, r, e.key) == (if ok then Some(e) else Stored(cfg, t, e.key))
      && (k != e.key ==> StaysOrExpired(cfg, t, r, e.key, k, e.ctime))
      && (ok ==> CleanBefore(cfg, r.slots[cfg.hash(e.key) % cfg.nslots], e, e.ctime))
  {
    hide CleanBefore, InsertFrom, Alive;
    LookupIffAlive(cfg, t, e.key, e.ctime);
    InsertFromCleans(cfg, Collect(cfg, t, now), Slot(cfg, e.key), 0, e, exclusive, now);
    InsertFromByKey(cfg, Collect(cfg, t, now), Slot(cfg, e.key), 0, e, exclusive, now, k);
  }

  /** The chain up to the entry `e` has no other that is no longer in use at `time`. */
  ghost predicate CleanBefore(cfg: Config, c: Chain, e: Entry, time: int) {
    exists j {:trigger c[j]} :: 0 <= j < |c| && c[j] == e && forall i {:trigger c[i]} :: 0 <= i < j ==> InUse(cfg, c[i], time)
  }

  /** An insertion that succeeds has removed what was out of use on its way along the chain. */
  lemma {:induction false} InsertFromCleans(cfg: Config, t: Table, s: nat, j: nat, e: Entry, exclusive: bool, now: int)
    requires s < |t.slots| && j <= |t.slots[s]|
    requires forall i {:trigger t.slots[s][i]} :: 0 <= i < j ==> InUse(cfg, t.slots[s][i], e.ctime)
    ensures var (r, ok) := InsertFrom(cfg, t, s, j, e, exclusive, now); ok ==> CleanBefore(cfg, r.slots[s], e, e.ctime)
    decreases |t.slots[s]| - j
  {
    hide InUse;
    if j == |t.slots[s]| {
      LinkCleans(cfg, t, s, j, e);
    } else {
      ExpiredIs(cfg, t.slots[s][j], e.ctime);
      var u := RemoveAt(t, s, j, now);
      RemovedSlots(t, s, j, now);
      if t.slots[s][j].key == e.key {
        LinkCleans(cfg, u, s, j, e);
      } else if Expired(cfg, t.slots[s][j], e.ctime) {
        InsertFromCleans(cfg, u, s, j, e, exclusive, now);
      } else {
        InsertFromCleans(cfg, t, s, j + 1, e, exclusive, now);
      }
    }
  }

  lemma LinkCleans(cfg: Config, t: Table, s: nat, j: nat, e: Entry)
    requires s < |t.slots| && j <= |t.slots[s]|
    requires forall i {:trigger t.slots[s][i]} :: 0 <= i < j ==> InUse(cfg, t.slots[s][i], e.ctime)
    ensures CleanBefore(cfg, LinkAt(t, s, j, e).slots[s], e, e.ctime)
  {
    hide InUse;
    assert LinkAt(t, s, j, e).slots[s][j] == e;
  }

  /** Deleting removes the key's entry, expired or not, and nothing else. */
  lemma DeleteEffect(cfg: Config, t: Table, key: string, now: int, k: string)
    requires WellFormed(cfg, t)
    ensures var (r, ok) := Delete(cfg, t, key, now);
      && WellFormed(cfg, r)
      && (ok <==> Stored(cfg, t, key).Some?)
      && Stored(cfg, r, k) == (if k == key then None else Stored(cfg, t, k))
  {
    var s := Slot(cfg, key);
    var j := IndexOf(t.slots[s], key);
    if j < |t.slots[s]| {
      RemovedWell(cfg, t, s, j, now, k);
    }
  }

  // ---------------------------------------------------------------- sweeping

  /** What a sweep that has passed some positions leaves under key `k`. */
  function Swept(cfg: Config, e: Option<Entry>, all: bool, time: int): Option<Entry> {
    match e case None => None case Some(x) => if all || Expired(cfg, x, time) then None else e
  }

  /** Key `k` is not stored in slot `s` from position `j` on. */
  ghost predicate Passed(cfg: Config, t: Table, s: nat, j: nat, k: string)
    requires Usable(cfg) && |t.slots| == cfg.nslots && s < |t.slots|
  {
    Slot(cfg, k) == s ==> IndexOf(t.slots[s], k) < j || IndexOf(t.slots[s], k) == |t.slots[s]|
  }

  lemma {:induction false} SweepSlotByKey(cfg: Config, t: Table, s: nat, j: nat, all: bool, time: int, now: int, k: string)
    requires WellFormed(cfg, t) && s < |t.slots| && j <= |t.slots[s]|
    ensures var r := SweepSlot(cfg, t, s, j, all, time, now);
      && WellFormed(cfg, r)
      && Stored(cfg, r, k) == (if Passed(cfg, t, s, j, k) || Slot(cfg, k) != s then Stored(cfg, t, k)
                               else Swept(cfg, Stored(cfg, t, k), all, time))
      && (all && j == 0 ==> r.slots[s] == [])
      && (forall x :: 0 <= x < |t.slots| && x != s ==> r.slots[x] == t.slots[x])
    decreases |t.slots[s]| - j
  {
    hide Hashed, Counted, Stored;
    if j < |t.slots[s]| {
      var e := t.slots[s][j];
      StoredAtPosition(cfg, t, s, j);
      if all || Expired(cfg, e, time) {
        var u := RemoveAt(t, s, j, now);
        RemovedWell(cfg, t, s, j, now, k);
        SweepSlotByKey(cfg, u, s, j, all, time, now, k);
        if k != e.key && Slot(cfg, k) == s {
          ShiftedIndex(cfg, t, s, j, now, k);
        }
      } else {
        SweepSlotByKey(cfg, t, s, j + 1, all, time, now, k);
      }
    }
  }

  lemma StoredAtPosition(cfg: Config, t: Table, s: nat, j: nat)
    requires WellFormed(cfg, t) && InSlot(t, s, j)
    ensures Stored(cfg, t, t.slots[s][j].key) == Some(t.slots[s][j]) && IndexOf(t.slots[s], t.slots[s][j].key) == j
    ensures Slot(cfg, t.slots[s][j].key) == s
  {
  }

  lemma ShiftedIndex(cfg: Config, t: Table, s: nat, j: nat, now: int, k: string)
    requires WellFormed(cfg, t) && InSlot(t, s, j) && k != t.slots[s][j].key && Slot(cfg, k) == s
    ensures Passed(cfg, RemoveAt(t, s, j, now), s, j, k) <==> Passed(cfg, t, s, j, k)
  {
    hide Hashed, Counted;
    DropIndex(t.slots[s], j, k);
  }

  /** Dropping an entry of another key moves an index down by one, if it lies behind. */
  lemma {:induction false} DropIndex(c: Chain, j: nat, k: string)
    requires j < |c| && c[j].key != k
    ensures IndexOf(Drop(c, j), k) == if IndexOf(c, k) < j then IndexOf(c, k) else IndexOf(c, k) - 1
  {
    hide Drop;
    if j == 0 {
      DropHead(c);
    } else {
      DropFirst(c, j);
      if c[0].key != k {
        DropIndex(c[1..], j - 1, k);
      }
    }
  }

  lemma DropHead(c: Chain)
    requires c != []
    ensures Drop(c, 0) == c[1..]
  {
  }

  lemma DropFirst(c: Chain, j: nat)
    requires 0 < j < |c|
    ensures Drop(c, j) != [] && Drop(c, j)[0] == c[0] && Drop(c, j)[1..] == Drop(c[1..], j - 1)
  {
  }

  lemma SweepSlotWhole(cfg: Config, t: Table, s: nat, all: bool, time: int, now: int, k: string)
    requires WellFormed(cfg, t) && s < |t.slots|
    ensures var r := SweepSlot(cfg, t, s, 0, all, time, now);
      && WellFormed(cfg, r) && |r.slots| == |t.slots| == cfg.nslots
      && Stored(cfg, r, k) == (if Slot(cfg, k) != s then Stored(cfg, t, k) else Swept(cfg, Stored(cfg, t, k), all, time))
      && (all ==> r.slots[s] == [])
      && (forall x {:trigger r.slots[x]} :: 0 <= x < |t.slots| && x != s ==> r.slots[x] == t.slots[x])
  {
    hide SweepSlot, Counted;
    SweepSlotByKey(cfg, t, s, 0, all, time, now, k);
  }

  lemma {:induction false} SweepFromByKey(cfg: Config, t: Table, s: nat, all: bool, time: int, now: int, k: string)
    requires WellFormed(cfg, t) && s <= |t.slots|
    ensures var r := SweepFrom(cfg, t, s, all, time, now);
      && WellFormed(cfg, r)
      && Stored(cfg, r, k) == (if Slot(cfg, k) < s then Stored(cfg, t, k) else Swept(cfg, Stored(cfg, t, k), all, time))
      && (forall x :: 0 <= x < s ==> r.slots[x] == t.slots[x])
      && (all ==> forall x :: s <= x < |r.slots| ==> r.slots[x] == [])
    decreases |t.slots| - s
  {
    hide Hashed, Counted, Stored, SweepSlot;
    if s < |t.slots| {
      var u := SweepSlot(cfg, t, s, 0, all, time, now);
      SweepSlotWhole(cfg, t, s, all, time, now, k);
      SweepFromByKey(cfg, u, s + 1, all, time, now, k);
    }
  }

  /** A sweep for expired entries removes exactly those. */
  lemma SweepEffect(cfg: Config, t: Table, time: int, now: int, k: string)
    requires WellFormed(cfg, t)
    ensures var r := SweepFrom(cfg, t, 0, false, time, now);
      && WellFormed(cfg, r) && Stored(cfg, r, k) == Swept(cfg, Stored(cfg, t, k), false, time)
      && Stored(cfg, r, k) ==
           if Stored(cfg, t, k).Some? && InUse(cfg, Stored(cfg, t, k).value, time) then Stored(cfg, t, k) else None
  {
    SweepFromByKey(cfg, t, 0, false, time, now, k);
    if Stored(cfg, t, k).Some? {
      ExpiredIs(cfg, Stored(cfg, t, k).value, time);
    }
  }

  lemma {:induction false} EmptySlots(slots: seq<Chain>)
    requires forall x :: 0 <= x < |slots| ==> slots[x] == []
    ensures TotalCount(slots) == 0 && TotalMem(slots) == 0
  {
    if slots != [] {
      EmptySlots(slots[1..]);
    }
  }

  /** A full expunge leaves no key, no entry counted and no memory counted. */
  lemma ExpungeEffect(cfg: Config, t: Table, now: int, k: string)
    requires WellFormed(cfg, t)
    ensures var r := Expunge(cfg, t, now);
      && WellFormed(cfg, r) && Stored(cfg, r, k) == None && r.count == 0 && r.mem == 0
      && (forall s :: 0 <= s < |r.slots| ==> r.slots[s] == [])
  {
    var u := SweepFrom(cfg, t, 0, true, 0, now);
    SweepFromByKey(cfg, t, 0, true, 0, now, k);
    EmptySlots(u.slots);
  }

  // ---------------------------------------------------------------- referenced entries outlive removal

  /** Every entry at address `p` is referenced. */
  ghost predicate Referenced(t: Table, p: int) {
    && (forall s, j {:trigger t.slots[s][j]} :: InSlot(t, s, j) && t.slots[s][j].at == p ==> t.slots[s][j].refs > 0)
    && (forall i {:trigger t.gc[i]} :: 0 <= i < |t.gc| && t.gc[i].at == p ==> t.gc[i].refs > 0)
  }

  lemma RemoveAtKeepsReferenced(t: Table, s: nat, j: nat, now: int, p: int)
    requires InSlot(t, s, j) && Referenced(t, p)
    ensures Referenced(RemoveAt(t, s, j, now), p) && Copies(RemoveAt(t, s, j, now), p) == Copies(t, p)
  {
    var r := RemoveAt(t, s, j, now);
    RemoveAtMeasures(t, s, j, now, p);
    forall x, y {:trigger r.slots[x][y]} | InSlot(r, x, y) ensures r.slots[x][y] == t.slots[x][if x == s && y >= j then y + 1 else y] {
    }
  }

  lemma {:induction false} SweepSlotKeepsReferenced(cfg: Config, t: Table, s: nat, j: nat, all: bool, time: int, now: int, p: int)
    requires s < |t.slots| && j <= |t.slots[s]| && Referenced(t, p)
    ensures var r := SweepSlot(cfg, t, s, j, all, time, now); Referenced(r, p) && Copies(r, p) == Copies(t, p)
    decreases |t.slots[s]| - j
  {
    if j < |t.slots[s]| {
      if all || Expired(cfg, t.slots[s][j], time) {
        RemoveAtKeepsReferenced(t, s, j, now, p);
        SweepSlotKeepsReferenced(cfg, RemoveAt(t, s, j, now), s, j, all, time, now, p);
      } else {
        SweepSlotKeepsReferenced(cfg, t, s, j + 1, all, time, now, p);
      }
    }
  }

  /** No sweep, not even a full expunge, frees an entry somebody references. */
  lemma {:induction false} SweepKeepsReferenced(cfg: Config, t: Table, s: nat, all: bool, time: int, now: int, p: int)
    requires s <= |t.slots| && Referenced(t, p)
    ensures var r := SweepFrom(cfg, t, s, all, time, now); Referenced(r, p) && Copies(r, p) == Copies(t, p)
    decreases |t.slots| - s
  {
    if s < |t.slots| {
      SweepSlotKeepsReferenced(cfg, t, s, 0, all, time, now, p);
      SweepKeepsReferenced(cfg, SweepSlot(cfg, t, s, 0, all, time, now), s + 1, all, time, now, p);
    }
  }

  /** How many entries of a chain are at `p` and referenced. */
  ghost function ChainHeld(c: Chain, p: int): nat {
    if c == [] then 0 else (if c[0].at == p && c[0].refs > 0 then 1 else 0) + ChainHeld(c[1..], p)
  }

  ghost function SlotsHeld(slots: seq<Chain>, p: int): nat {
    if slots == [] then 0 else ChainHeld(slots[0], p) + SlotsHeld(slots[1..], p)
  }

  lemma {:induction false} HeldWithout(c: Chain, j: nat, p: int)
    requires j < |c|
    ensures ChainHeld(c, p) == ChainHeld(Drop(c, j), p) + (if c[j].at == p && c[j].refs > 0 then 1 else 0)
  {
    if j == 0 {
      assert Drop(c, 0) == c[1..];
    } else {
      assert Drop(c, j)[1..] == Drop(c[1..], j - 1);
      HeldWithout(c[1..], j - 1, p);
    }
  }

  lemma {:induction false} SlotsHeldChange(slots: seq<Chain>, s: nat, c: Chain, p: int)
    requires s < |slots|
    ensures SlotsHeld(slots[s := c], p) == SlotsHeld(slots, p) - ChainHeld(slots[s], p) + ChainHeld(c, p)
  {
    if s == 0 {
      assert slots[s := c][1..] == slots[1..];
    } else {
      assert slots[s := c][1..] == slots[1..][s - 1 := c];
      SlotsHeldChange(slots[1..], s - 1, c, p);
    }
  }

  /** The removed entries at `p`, and those that would join them. */
  ghost function Kept(t: Table, p: int): nat {
    SlotsHeld(t.slots, p) + ChainCopies(t.gc, p)
  }

  lemma RemoveAtKept(t: Table, s: nat, j: nat, now: int, p: int)
    requires InSlot(t, s, j)
    ensures Kept(RemoveAt(t, s, j, now), p) == Kept(t, p)
  {
    var r := RemoveAt(t, s, j, now);
    HeldWithout(t.slots[s], j, p);
    SlotsHeldChange(t.slots, s, Drop(t.slots[s], j), p);
    if t.slots[s][j].refs > 0 {
      assert r.gc[1..] == t.gc;
    }
  }

  lemma {:induction false} SweepSlotKept(cfg: Config, t: Table, s: nat, j: nat, all: bool, time: int, now: int, p: int)
    requires s < |t.slots| && j <= |t.slots[s]|
    ensures Kept(SweepSlot(cfg, t, s, j, all, time, now), p) == Kept(t, p)
    decreases |t.slots[s]| - j
  {
    if j < |t.slots[s]| {
      if all || Expired(cfg, t.slots[s][j], time) {
        RemoveAtKept(t, s, j, now, p);
        SweepSlotKept(cfg, RemoveAt(t, s, j, now), s, j, all, time, now, p);
      } else {
        SweepSlotKept(cfg, t, s, j + 1, all, time, now, p);
      }
    }
  }

  lemma {:induction false} SweepKept(cfg: Config, t: Table, s: nat, all: bool, time: int, now: int, p: int)
    requires s <= |t.slots|
    ensures Kept(SweepFrom(cfg, t, s, all, time, now), p) == Kept(t, p)
    decreases |t.slots| - s
  {
    if s < |t.slots| {
      SweepSlotKept(cfg, t, s, 0, all, time, now, p);
      SweepKept(cfg, SweepSlot(cfg, t, s, 0, all, time, now), s + 1, all, time, now, p);
    }
  }

  lemma {:induction false} SweepSlotShrinks(cfg: Config, t: Table, s: nat, j: nat, all: bool, time: int, now: int, p: int)
    requires s < |t.slots| && j <= |t.slots[s]|
    ensures Copies(SweepSlot(cfg, t, s, j, all, time, now), p) <= Copies(t, p)
    decreases |t.slots[s]| - j
  {
    if j < |t.slots[s]| {
      if all || Expired(cfg, t.slots[s][j], time) {
        RemoveAtMeasures(t, s, j, now, p);
        SweepSlotShrinks(cfg, RemoveAt(t, s, j, now), s, j, all, time, now, p);
      } else {
        SweepSlotShrinks(cfg, t, s, j + 1, all, time, now, p);
      }
    }
  }

  lemma {:induction false} SweepShrinks(cfg: Config, t: Table, s: nat, all: bool, time: int, now: int, p: int)
    requires s <= |t.slots|
    ensures Copies(SweepFrom(cfg, t, s, all, time, now), p) <= Copies(t, p)
    decreases |t.slots| - s
  {
    if s < |t.slots| {
      SweepSlotShrinks(cfg, t, s, 0, all, time, now, p);
      SweepShrinks(cfg, SweepSlot(cfg, t, s, 0, all, time, now), s + 1, all, time, now, p);
    }
  }

  lemma {:induction false} EmptyHoldsNothing(slots: seq<Chain>, p: int)
    requires forall x :: 0 <= x < |slots| ==> slots[x] == []
    ensures SlotsCopies(slots, p) == 0 && SlotsHeld(slots, p) == 0
  {
    if slots != [] {
      EmptyHoldsNothing(slots[1..], p);
    }
  }

  /**
   After a full expunge an address is still owned exactly if a removed entry was there
   before, or an entry that somebody references: every other entry has been freed.
   */
  lemma ExpungeFrees(cfg: Config, t: Table, now: int, p: int)
    requires WellFormed(cfg, t)
    ensures Copies(Expunge(cfg, t, now), p) == ChainCopies(t.gc, p) + SlotsHeld(t.slots, p)
  {
    ExpungeEffect(cfg, t, now, "");
    EmptyHoldsNothing(Expunge(cfg, t, now).slots, p);
    SweepKept(cfg, t, 0, true, 0, now, p);
  }

  /** A removed entry that the collector is to keep: somebody uses it, and not for longer than the limit, if there is one. */
  predicate Lingers(cfg: Config, x: Entry, now: int) {
    x.refs != 0 && (cfg.gcTtl == 0 || now - x.dtime <= cfg.gcTtl)
  }

  /** The collector keeps those and no others. */
  lemma {:induction false} CollectedExactly(cfg: Config, gc: Chain, now: int)
    ensures forall x :: x in GcFrom(cfg, gc, now) <==> x in gc && Lingers(cfg, x, now)
  {
    if gc != [] {
      CollectedExactly(cfg, gc[1..], now);
      assert gc == [gc[0]] + gc[1..];
    }
  }

  /** The collector keeps every removed entry at `p`. */
  ghost predicate AllKept(cfg: Config, gc: Chain, now: int, p: int) {
    gc == [] || ((gc[0].at == p ==> Lingers(cfg, gc[0], now)) && AllKept(cfg, gc[1..], now, p))
  }

  lemma {:induction false} AllKeptMeans(cfg: Config, gc: Chain, now: int, p: int)
    ensures AllKept(cfg, gc, now, p) <==> forall e :: e in gc && e.at == p ==> Lingers(cfg, e, now)
  {
    if gc != [] {
      AllKeptMeans(cfg, gc[1..], now, p);
      assert gc == [gc[0]] + gc[1..];
    }
  }

  /** The collector frees the address `p` exactly when there is a removed entry there that it does not keep. */
  lemma {:induction false} CollectedCopies(cfg: Config, gc: Chain, now: int, p: int)
    ensures ChainCopies(GcFrom(cfg, gc, now), p) <= ChainCopies(gc, p)
    ensures ChainCopies(GcFrom(cfg, gc, now), p) == ChainCopies(gc, p) <==>
      forall e :: e in gc && e.at == p ==> Lingers(cfg, e, now)
  {
    AllKeptMeans(cfg, gc, now, p);
    if gc != [] {
      CollectedCopies(cfg, gc[1..], now, p);
      AllKeptMeans(cfg, gc[1..], now, p);
      ChainsAdd(if GcKeeps(cfg, gc[0], now) then [gc[0]] else [], GcFrom(cfg, gc[1..], now), p);
    }
  }

  lemma {:induction false} InsertFromKeepsReferenced(cfg: Config, t: Table, s: nat, j: nat, e: Entry, exclusive: bool, now: int, p: int)
    requires s < |t.slots| && j <= |t.slots[s]| && Referenced(t, p) && e.at != p
    ensures var (r, ok) := InsertFrom(cfg, t, s, j, e, exclusive, now); Copies(r, p) == Copies(t, p)
    decreases |t.slots[s]| - j
  {
    if j == |t.slots[s]| {
      LinkAtMeasures(t, s, j, e, p);
    } else if t.slots[s][j].key == e.key {
      RemoveAtKeepsReferenced(t, s, j, now, p);
      LinkAtMeasures(RemoveAt(t, s, j, now), s, j, e, p);
    } else if Expired(cfg, t.slots[s][j], e.ctime) {
      RemoveAtKeepsReferenced(t, s, j, now, p);
      InsertFromKeepsReferenced(cfg, RemoveAt(t, s, j, now), s, j, e, exclusive, now, p);
    } else {
      InsertFromKeepsReferenced(cfg, t, s, j + 1, e, exclusive, now, p);
    }
  }

  /**
   An insertion frees the entries at `p`, if they are referenced, exactly when the
   collector it runs first gives one of the removed ones up: no entry in a chain is ever
   freed under a reference.
   */
  lemma InsertKeepsReferenced(cfg: Config, t: Table, e: Entry, exclusive: bool, now: int, p: int)
    requires WellFormed(cfg, t) && Referenced(t, p) && e.at != p
    ensures Copies(Insert(cfg, t, e, exclusive, now).0, p) == Copies(t, p) <==>
      forall x :: x in t.gc && x.at == p ==> Lingers(cfg, x, now)
  {
    CollectedCopies(cfg, t.gc, now, p);
    CollectedReferenced(cfg, t, now, p);
    InsertFromKeepsReferenced(cfg, Collect(cfg, t, now), Slot(cfg, e.key), 0, e, exclusive, now, p);
  }

  lemma CollectedReferenced(cfg: Config, t: Table, now: int, p: int)
    requires Referenced(t, p)
    ensures Referenced(Collect(cfg, t, now), p)
  {
    GcIsPart(cfg, t.gc, now);
    var r := Collect(cfg, t, now);
    forall i {:trigger r.gc[i]} | 0 <= i < |r.gc| && r.gc[i].at == p ensures r.gc[i].refs > 0 {
      assert r.gc[i] in t.gc;
    }
  }

  lemma {:induction false} GcIsPart(cfg: Config, gc: Chain, now: int)
    ensures forall x :: x in GcFrom(cfg, gc, now) ==> x in gc
  {
    if gc != [] {
      GcIsPart(cfg, gc[1..], now);
    }
  }
}
