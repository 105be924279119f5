/**
 The contents of the cache as a value: the chains of the hash table, the list of
 removed entries that are still referenced, and the two size counters.
 */
module CacheTable {
  import opened Collections

  /** A stored value, as far as in-place updates tell values apart. */
  datatype Value = Long(n: int) | Scalar(id: int) | Boxed(id: int)

  datatype Entry = Entry(
    at: int, key: string, val: Value, ttl: int, refs: int, hits: int,
    ctime: int, mtime: int, dtime: int, atime: int, mem: nat)

  type Chain = seq<Entry>

  datatype Config = Config(nslots: nat, hash: string -> nat, ttl: int, gcTtl: int)

  datatype Table = Table(slots: seq<Chain>, gc: Chain, count: int, mem: int)

  predicate Usable(cfg: Config) {
    0 < cfg.nslots
  }

  function Slot(cfg: Config, k: string): (s: nat)
    requires Usable(cfg)
    ensures s < cfg.nslots
  {
    cfg.hash(k) % cfg.nslots
  }

  // ---------------------------------------------------------------- expiry

  predicate HardExpired(e: Entry, t: int) {
    e.ttl != 0 && e.ctime + e.ttl < t
  }

  predicate SoftExpired(cfg: Config, e: Entry, t: int) {
    e.ttl == 0 && cfg.ttl != 0 && e.atime + cfg.ttl < t
  }

  predicate Expired(cfg: Config, e: Entry, t: int) {
    HardExpired(e, t) || SoftExpired(cfg, e, t)
  }

  // ---------------------------------------------------------------- chains

  /** Position of `k` in a chain, or its length. */
  function IndexOf(c: Chain, k: string): (j: nat)
    ensures j <= |c|
    ensures forall i :: 0 <= i < j ==> c[i].key != k
    ensures j < |c| ==> c[j].key == k
  {
    if c == [] || c[0].key == k then 0 else 1 + IndexOf(c[1..], k)
  }

  function ChainMem(c: Chain): nat {
    if c == [] then 0 else c[0].mem + ChainMem(c[1..])
  }

  function TotalCount(slots: seq<Chain>): nat {
    if slots == [] then 0 else |slots[0]| + TotalCount(slots[1..])
  }

  function TotalMem(slots: seq<Chain>): nat {
    if slots == [] then 0 else ChainMem(slots[0]) + TotalMem(slots[1..])
  }

  // ---------------------------------------------------------------- single steps

  predicate InSlot(t: Table, s: int, j: int) {
    0 <= s < |t.slots| && 0 <= j < |t.slots[s]|
  }

  /** Unlinks one entry: it is freed if nobody holds it, else put on the list of the removed. */
  function RemoveAt(t: Table, s: nat, j: nat, now: int): Table
    requires InSlot(t, s, j)
  {
    var dead := t.slots[s][j];
    Table(
      t.slots[s := Drop(t.slots[s], j)],
      if dead.refs <= 0 then t.gc else [dead.(dtime := now)] + t.gc,
      if t.count != 0 then t.count - 1 else 0,
      if t.mem != 0 then t.mem - dead.mem else 0)
  }

  /** Links a new entry into slot `s` before position `j`. */
  function LinkAt(t: Table, s: nat, j: nat, e: Entry): Table
    requires s < |t.slots| && j <= |t.slots[s]|
  {
    t.(slots := t.slots[s := t.slots[s][..j] + [e] + t.slots[s][j..]], count := t.count + 1, mem := t.mem + e.mem)
  }

  /** Replaces one entry in place. */
  function SetAt(t: Table, s: nat, j: nat, e: Entry): Table
    requires InSlot(t, s, j)
  {
    t.(slots := t.slots[s := t.slots[s][j := e]])
  }

  // ---------------------------------------------------------------- operations

  /** Whether the collector keeps a removed entry. */
  predicate GcKeeps(cfg: Config, e: Entry, now: int) {
    var age := if cfg.gcTtl != 0 then now - e.dtime else 0;
    e.refs != 0 && age <= cfg.gcTtl
  }

  function GcFrom(cfg: Config, gc: Chain, now: int): Chain {
    if gc == [] then [] else (if GcKeeps(cfg, gc[0], now) then [gc[0]] else []) + GcFrom(cfg, gc[1..], now)
  }

  function Collect(cfg: Config, t: Table, now: int): Table {
    t.(gc := GcFrom(cfg, t.gc, now))
  }

  /** The walk of an insertion along its chain, from position `j` on. */
  function InsertFrom(cfg: Config, t: Table, s: nat, j: nat, e: Entry, exclusive: bool, now: int): (r: (Table, bool))
    requires s < |t.slots| && j <= |t.slots[s]|
    ensures |r.0.slots| == |t.slots|
    decreases |t.slots[s]| - j
  {
    if j == |t.slots[s]| then
      (LinkAt(t, s, j, e), true)
    else if t.slots[s][j].key == e.key then
      if exclusive && !HardExpired(t.slots[s][j], e.ctime) then (t, false)
      else (LinkAt(RemoveAt(t, s, j, now), s, j, e), true)
    else if Expired(cfg, t.slots[s][j], e.ctime) then
      InsertFrom(cfg, RemoveAt(t, s, j, now), s, j, e, exclusive, now)
    else
      InsertFrom(cfg, t, s, j + 1, e, exclusive, now)
  }

  function Insert(cfg: Config, t: Table, e: Entry, exclusive: bool, now: int): (Table, bool)
    requires Usable(cfg) && |t.slots| == cfg.nslots
  {
    InsertFrom(cfg, Collect(cfg, t, now), Slot(cfg, e.key), 0, e, exclusive, now)
  }

  function Delete(cfg: Config, t: Table, k: string, now: int): (Table, bool)
    requires Usable(cfg) && |t.slots| == cfg.nslots
  {
    var s := Slot(cfg, k);
    var j := IndexOf(t.slots[s], k);
    if j == |t.slots[s]| then (t, false) else (RemoveAt(t, s, j, now), true)
  }

  /** Removes the entries of slot `s` from position `j` on that are expired, or all of them. */
  function SweepSlot(cfg: Config, t: Table, s: nat, j: nat, all: bool, time: int, now: int): (r: Table)
    requires s < |t.slots| && j <= |t.slots[s]|
    ensures |r.slots| == |t.slots|
    decreases |t.slots[s]| - j
  {
    if j == |t.slots[s]| then t
    else if all || Expired(cfg, t.slots[s][j], time) then SweepSlot(cfg, RemoveAt(t, s, j, now), s, j, all, time, now)
    else SweepSlot(cfg, t, s, j + 1, all, time, now)
  }

  function SweepFrom(cfg: Config, t: Table, s: nat, all: bool, time: int, now: int): (r: Table)
    requires s <= |t.slots|
    ensures |r.slots| == |t.slots|
    decreases |t.slots| - s
  {
    if s == |t.slots| then t
    else SweepFrom(cfg, SweepSlot(cfg, t, s, 0, all, time, now), s + 1, all, time, now)
  }

  /** Empties the table, and resets its entry counter. */
  function Expunge(cfg: Config, t: Table, now: int): Table {
    SweepFrom(cfg, t, 0, true, 0, now).(count := 0)
  }

  /** Where the lookup of `k` at time `time` ends: the position of a hit, or the chain's length. */
  function FindIn(cfg: Config, t: Table, k: string, time: int): (j: nat)
    requires Usable(cfg) && |t.slots| == cfg.nslots
    ensures j <= |t.slots[Slot(cfg, k)]|
  {
    var c := t.slots[Slot(cfg, k)];
    var j := IndexOf(c, k);
    if j < |c| && HardExpired(c[j], time) then |c| else j
  }

  function Lookup(cfg: Config, t: Table, k: string, time: int): Option<Entry>
    requires Usable(cfg) && |t.slots| == cfg.nslots
  {
    var j := FindIn(cfg, t, k, time);
    if j < |t.slots[Slot(cfg, k)]| then Some(t.slots[Slot(cfg, k)][j]) else None
  }

  // ---------------------------------------------------------------- well-formed tables

  /** Every entry is in its key's slot, and no key occurs twice. */
  ghost predicate Hashed(cfg: Config, t: Table)
    requires Usable(cfg)
  {
    && |t.slots| == cfg.nslots
    && (forall s, j {:trigger t.slots[s][j]} :: InSlot(t, s, j) ==> Slot(cfg, t.slots[s][j].key) == s)
    && (forall s, i, j {:trigger t.slots[s][i], t.slots[s][j]} ::
          InSlot(t, s, j) && 0 <= i < j ==> t.slots[s][i].key != t.slots[s][j].key)
  }

  ghost predicate Counted(t: Table) {
    t.count == TotalCount(t.slots) && t.mem == TotalMem(t.slots)
  }

  /** How many entries of a chain have address `p`. */
  ghost function ChainCopies(c: Chain, p: int): nat {
    if c == [] then 0 else (if c[0].at == p then 1 else 0) + ChainCopies(c[1..], p)
  }

  ghost function SlotsCopies(slots: seq<Chain>, p: int): nat {
    if slots == [] then 0 else ChainCopies(slots[0], p) + SlotsCopies(slots[1..], p)
  }

  /** How many entries, in the chains and on the list of the removed, have address `p`. */
  ghost function Copies(t: Table, p: int): nat {
    SlotsCopies(t.slots, p) + ChainCopies(t.gc, p)
  }

  ghost predicate WellFormed(cfg: Config, t: Table) {
    Usable(cfg) && |t.slots| == cfg.nslots && Hashed(cfg, t) && Counted(t)
  }

  // ---------------------------------------------------------------- measures add up

  lemma {:induction false} ChainsAdd(a: Chain, b: Chain, p: int)
    ensures ChainMem(a + b) == ChainMem(a) + ChainMem(b)
    ensures ChainCopies(a + b, p) == ChainCopies(a, p) + ChainCopies(b, p)
  {
    if a == [] {
      assert a + b == b;
    } else {
      assert (a + b)[1..] == a[1..] + b;
      ChainsAdd(a[1..], b, p);
    }
  }

  lemma ChainWithout(c: Chain, j: nat, p: int)
    requires j < |c|
    ensures ChainMem(Drop(c, j)) == ChainMem(c) - c[j].mem
    ensures ChainCopies(c, p) == ChainCopies(Drop(c, j), p) + (if c[j].at == p then 1 else 0)
  {
    var tail := c[j..];
    assert c == c[..j] + tail && tail[1..] == c[j + 1..];
    ChainsAdd(c[..j], tail, p);
    ChainsAdd(c[..j], c[j + 1..], p);
  }

  lemma ChainWith(c: Chain, j: nat, e: Entry, p: int)
    requires j <= |c|
    ensures var d := c[..j] + [e] + c[j..];
      ChainMem(d) == ChainMem(c) + e.mem && ChainCopies(d, p) == ChainCopies(c, p) + (if e.at == p then 1 else 0)
  {
    ChainsAdd(c[..j], c[j..], p);
    assert c == c[..j] + c[j..];
    ChainsAdd(c[..j], [e], p);
    ChainsAdd(c[..j] + [e], c[j..], p);
  }

  lemma {:induction false} SlotsChange(slots: seq<Chain>, s: nat, c: Chain, p: int)
    requires s < |slots|
    ensures TotalCount(slots[s := c]) == TotalCount(slots) - |slots[s]| + |c| && |slots[s]| <= TotalCount(slots)
    ensures TotalMem(slots[s := c]) == TotalMem(slots) - ChainMem(slots[s]) + ChainMem(c)
    ensures ChainMem(slots[s]) <= TotalMem(slots)
    ensures SlotsCopies(slots[s := c], p) == SlotsCopies(slots, p) - ChainCopies(slots[s], p) + ChainCopies(c, p)
  {
    if s == 0 {
      assert slots[s := c][1..] == slots[1..];
    } else {
      assert slots[s := c][1..] == slots[1..][s - 1 := c];
      SlotsChange(slots[1..], s - 1, c, p);
    }
  }

  // ---------------------------------------------------------------- what single steps do

  /** Removing an entry gives up its address exactly when nobody holds it, and keeps the counters exact. */
  lemma RemoveAtMeasures(t: Table, s: nat, j: nat, now: int, p: int)
    requires InSlot(t, s, j)
    ensures var e, r := t.slots[s][j], RemoveAt(t, s, j, now);
      && Copies(r, p) == Copies(t, p) - (if e.refs <= 0 && e.at == p then 1 else 0)
      && (Counted(t) ==> Counted(r))
  {
    var r := RemoveAt(t, s, j, now);
    ChainWithout(t.slots[s], j, p);
    SlotsChange(t.slots, s, Drop(t.slots[s], j), p);
    if t.slots[s][j].refs > 0 {
      assert r.gc[1..] == t.gc;
    }
  }

  lemma LinkAtMeasures(t: Table, s: nat, j: nat, e: Entry, p: int)
    requires s < |t.slots| && j <= |t.slots[s]|
    ensures var r := LinkAt(t, s, j, e);
      Copies(r, p) == Copies(t, p) + (if e.at == p then 1 else 0) && (Counted(t) ==> Counted(r))
  {
    ChainWith(t.slots[s], j, e, p);
    SlotsChange(t.slots, s, t.slots[s][..j] + [e] + t.slots[s][j..], p);
  }

  lemma SetAtMeasures(t: Table, s: nat, j: nat, e: Entry, p: int)
    requires InSlot(t, s, j) && e.at == t.slots[s][j].at && e.mem == t.slots[s][j].mem
    ensures var r := SetAt(t, s, j, e); Copies(r, p) == Copies(t, p) && (Counted(t) ==> Counted(r))
  {
    var c := t.slots[s];
    ChainWithout(c, j, p);
    ChainWith(Drop(c, j), j, e, p);
    assert c[j := e] == Drop(c, j)[..j] + [e] + Drop(c, j)[j..];
    SlotsChange(t.slots, s, c[j := e], p);
  }

  /** Removing an entry leaves every other one in its key's slot. */
  lemma RemoveAtHashed(cfg: Config, t: Table, s: nat, j: nat, now: int)
    requires Usable(cfg) && Hashed(cfg, t) && InSlot(t, s, j)
    ensures Hashed(cfg, RemoveAt(t, s, j, now))
  {
  }

  lemma LinkAtHashed(cfg: Config, t: Table, s: nat, j: nat, e: Entry)
    requires Usable(cfg) && Hashed(cfg, t) && s == Slot(cfg, e.key) && j <= |t.slots[s]|
    requires forall i :: 0 <= i < |t.slots[s]| ==> t.slots[s][i].key != e.key
    ensures Hashed(cfg, LinkAt(t, s, j, e))
  {
    var c, r := t.slots[s], LinkAt(t, s, j, e);
    forall x, y {:trigger r.slots[x][y]} | InSlot(r, x, y)
      ensures Slot(cfg, r.slots[x][y].key) == x
      ensures x == s ==> r.slots[x][y] == if y < j then c[y] else if y == j then e else c[y - 1]
    {
    }
  }
}
