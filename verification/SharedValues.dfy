/**
 The whole way of a value: measured, persisted into the block the allocator grants, inserted,
 found by a lookup, and restored from what is in shared memory by then.
 */
module SharedValues {
  import opened Collections
  import opened Graph
  import S = Sizing
  import opened CacheTable
  import opened CacheBoxes
  import opened CacheLaws
  import opened CacheRuns
  import P = Persist
  import U = Unpersist
  import R = RoundTrip
  import C = Cache
  import L = CacheLayout
  import SmaArena
  import opened SmaAllocator

  /** A value as it was handed in, in what form it is kept, and the block it was persisted into. */
  datatype Original = Original(h: Heap, key: string, v: Val, form: P.Form, size: nat, block: P.Block, root: P.Persisted)

  /** The block holds the value: a graph isomorphic to it, or the text it was serialized to. */
  ghost predicate Faithful(o: Original) {
    && Closed(o.h) && o.v.Ptr? && o.form != P.Failure
    && P.Laid(o.h, o.block) && o.block.cur == o.block.base + o.size
    && (o.form == P.Graphed ==>
          && o.root.Plain? && Isomorphic(o.h, o.v, o.block.mem, o.root.val, o.block.copies)
          && P.Complete(o.h, P.Block(o.block.base, o.block.base, map[], map[]), o.block, {}))
    && (o.form.AsText? ==> o.root.Serialized? && o.root.at in o.block.mem && o.block.mem[o.root.at] == Str(o.form.text))
  }

  /** The block's nodes are in memory. */
  ghost predicate Held(mem: Heap, shm: Heap) {
    forall q {:trigger q in mem} :: q in mem ==> q in shm && shm[q] == mem[q]
  }

  /** A lookup misses, hits a value that is in the entry itself, a text to be unserialized, or a graph. */
  datatype Fetched = Missing | Inline(val: Value) | Unread(text: string) | Restored(out: seq<Node>, counts: seq<int>, w: Val)

  /** A graph in memory is isomorphic to the original too, and can be restored. */
  lemma HeldRestorable(o: Original, shm: Heap)
    requires Faithful(o) && o.form == P.Graphed && Held(o.block.mem, shm)
    ensures Isomorphic(o.h, o.v, shm, o.root.val, o.block.copies)
    ensures o.root.val.Ptr? ==> o.root.val.at in Image(o.block.copies)
    ensures var d := Image(o.block.copies); forall a {:trigger a in d} :: a in d ==> U.Restorable(shm, d, a)
  {
    hide Closed, P.Laid, P.Complete, Copied, U.Restorable;
    var k := o.block;
    forall a {:trigger a in k.copies} | a in k.copies
      ensures Copied(o.h, a, shm, k.copies[a], k.copies) && U.Restorable(shm, Image(k.copies), k.copies[a])
    {
      CopiedIn(o.h, a, k.mem, k.copies[a], k.copies);
      CopiedStays(o.h, a, k.mem, shm, k.copies[a], k.copies, k.copies);
      assert P.Done(o.h, a, k.mem, k.copies[a], k.copies) by { CompleteDone(o, a); }
      R.PersistedRestorable(o.h, k, a);
      RestorableStays(k.mem, shm, Image(k.copies), k.copies[a]);
    }
  }

  lemma CopiedIn(h: Heap, a: int, mem: Heap, b: int, f: map<int, int>)
    requires Copied(h, a, mem, b, f)
    ensures a in h && b in mem
  {
  }

  lemma CompleteDone(o: Original, a: int)
    requires Faithful(o) && o.form == P.Graphed && a in o.block.copies
    ensures P.Done(o.h, a, o.block.mem, o.block.copies[a], o.block.copies)
  {
  }

  lemma RestorableStays(mem: Heap, shm: Heap, d: set<int>, a: int)
    requires U.Restorable(mem, d, a) && Held(mem, shm)
    ensures U.Restorable(shm, d, a)
  {
  }

  lemma WithinBlock(h: Heap, k: P.Block, q: int)
    requires P.Laid(h, k) && q in k.mem
    ensures k.base <= q < k.cur
  {
  }

  /** Blocks that do not overlap have no node in common. */
  lemma HeldApart(o: Original, n: P.Block, h: Heap, shm: Heap)
    requires Faithful(o) && P.Laid(h, n) && Held(o.block.mem, shm)
    requires o.block.cur <= n.base || n.cur <= o.block.base
    ensures Held(o.block.mem, shm + n.mem)
  {
    hide P.Laid;
    forall q {:trigger q in o.block.mem} | q in o.block.mem ensures q !in n.mem {
      WithinBlock(o.h, o.block, q);
      if q in n.mem {
        WithinBlock(h, n, q);
        assert false;
      }
    }
  }

  lemma LogBoxes(cfg: Config, log: seq<Op>, op: Op)
    requires Usable(cfg) && !op.Replace?
    ensures Boxes(CacheRuns.After(cfg, log + [op]).0) <=
      Boxes(CacheRuns.After(cfg, log).0) + if op.Store? then EntryBoxes(op.e) else {}
  {
    hide Boxes, EntryBoxes, Apply;
    C.AfterOne(cfg, log, op);
    ApplyBoxes(cfg, CacheRuns.After(cfg, log).0, op);
  }

  class ValueCache {
    const cache: C.Cache
    var shm: Heap                          // what was persisted, by address in bytes
    var roots: map<int, P.Persisted>       // the values of the entries, by address of the entry
    var next: int                          // a number no value has had yet
    ghost var stored: map<int, Original>   // all values that were ever stored, by number

    /** The value of an entry is in memory as it was persisted, in the block of the entry and as large as that says. */
    ghost predicate Kept(b: Box)
      reads this
    {
      && b.id in stored && b.at in roots && stored[b.id].key == b.key && stored[b.id].size == b.mem
      && stored[b.id].block.base == b.at * SmaArena.WORD_BYTES && roots[b.at] == stored[b.id].root
      && Held(stored[b.id].block.mem, shm)
    }

    /** The values numbered so far are as they were handed in. */
    ghost predicate Recorded()
      reads `next, `stored
    {
      forall id {:trigger id in stored} :: id in stored ==> id < next && Faithful(stored[id])
    }

    ghost predicate AllKept(boxes: set<Box>)
      reads this
    {
      forall b {:trigger Kept(b)} {:trigger b in boxes} :: b in boxes ==> Kept(b)
    }

    ghost predicate Valid()
      reads this, cache, cache.sma, cache.sma.Repr
    {
      this !in cache.sma.Repr && cache.Valid() && Recorded() && AllKept(Boxes(cache.Abs()))
    }

    /** What a map that forgets nothing would hold under the key by now. */
    ghost function Latest(key: string): Option<Item>
      requires Usable(cache.cfg)
      reads cache`log
    {
      var m := CacheRuns.After(cache.cfg, cache.log).1;
      if key in m then Some(m[key]) else None
    }

    constructor (cache: C.Cache)
      requires cache.Valid() && cache.log == []
      ensures Valid() && this.cache == cache && stored == map[]
    {
      hide C.Cache.Valid, Boxes, Allocator.Valid;
      this.cache := cache;
      shm, roots, next, stored := map[], map[], 0, map[];
      new;
      CacheIs(cache);
      NoBoxes(cache.cfg);
    }

    /** Writes the block of a persisted entry: no other value is touched. */
    method Write(p: int, mem: Heap, root: P.Persisted, ghost o: Original)
      requires this !in cache.sma.Repr && cache.Valid() && Recorded() && AllKept(Boxes(cache.Abs()))
      requires p in cache.pending && p in cache.entries && cache.entries[p].mem == o.size
      requires Faithful(o) && o.block.base == p * SmaArena.WORD_BYTES && o.block.mem == mem && o.root == root
      modifies `shm, `roots, `next, `stored
      ensures Recorded() && AllKept(Boxes(cache.Abs()) + {Box(p, o.key, o.size, old(next))})
      ensures stored == old(stored)[old(next) := o] && next == old(next) + 1
    {
      hide C.Cache.Valid, Boxes, Faithful, Held, Allocator.Valid, Room;
      CacheIs(cache);
      ghost var boxes, was, all := Boxes(cache.Abs()), shm, stored;
      forall b | b in boxes ensures b.at != p && Held(all[b.id].block.mem, was + mem) {
        assert Kept(b);
        BoxApart(b, p, o);
      }
      NewHeld(was, mem);
      shm, roots, stored := shm + mem, roots[p := root], stored[next := o];
      next := next + 1;
    }

    lemma BoxApart(b: Box, p: int, o: Original)
      requires cache.Valid() && Recorded() && b in Boxes(cache.Abs()) && Kept(b)
      requires p in cache.pending && p in cache.entries && cache.entries[p].mem == o.size
      requires Faithful(o) && o.block.base == p * SmaArena.WORD_BYTES
      ensures b.at != p && Held(stored[b.id].block.mem, shm + o.block.mem)
    {
      hide C.Cache.Sound, Boxes, Held, Allocator.Valid, Room, Allocator.Books;
      cache.BoxHoused(b);
      cache.EntryHoused(p);
      SmaValid(cache);
      cache.sma.RoomsApart(p, b.at, o.size, b.mem);
      assert Faithful(stored[b.id]);
      HeldApart(stored[b.id], o.block, o.h, shm);
    }

    /** The values that are left after the allocator's call-back are kept still. */
    lemma StillKept(log: seq<Op>, evicted: seq<Op>)
      requires Usable(cache.cfg) && AllKept(Boxes(CacheRuns.After(cache.cfg, log).0))
      requires evicted == [] || (|evicted| == 1 && !evicted[0].Replace? && !evicted[0].Store?)
      ensures AllKept(Boxes(CacheRuns.After(cache.cfg, log + evicted).0))
    {
      hide Boxes, Kept;
      if evicted == [] {
        assert log + evicted == log;
      } else {
        assert evicted == [evicted[0]];
        LogBoxes(cache.cfg, log, evicted[0]);
      }
    }

    /** Finds memory for a value of `n` bytes. */
    method Claim(key: string, n: nat, ttl: int, t: int, now: int) returns (p: int, ghost evicted: seq<Op>)
      requires Valid()
      modifies cache, cache.sma.Repr
      ensures Valid() && evicted == old(cache.Evictions(n, t, now)) && cache.log == old(cache.log) + evicted
      ensures p == NULL ==> cache.pending == old(cache.pending)
      ensures p != NULL ==> p !in old(cache.pending) && cache.pending == old(cache.pending) + {p}
      ensures p != NULL ==> p in cache.entries && cache.entries[p] == NewEntry(key, next, ttl, t, p, n)
    {
      hide C.Cache.Valid, Boxes, Faithful, Kept, Allocator.Valid, CacheRuns.After;
      CacheIs(cache);
      p, evicted := cache.Persist(NewEntry(key, next, ttl, t, NULL, 0), n, t, now);
      CacheIs(cache);
      StillKept(old(cache.log), evicted);
    }

    /** Inserts the entry at `p`, whose value was written. */
    method Insert(p: int, exclusive: bool, now: int) returns (ok: bool)
      requires this !in cache.sma.Repr && cache.Valid() && Recorded() && p in cache.pending && p in cache.entries
      requires AllKept(Boxes(cache.Abs()) + EntryBoxes(cache.entries[p]))
      modifies cache, cache.sma.Repr
      ensures Valid() && cache.pending == old(cache.pending) - {p}
      ensures cache.log == old(cache.log) + [CacheRuns.Store(old(cache.entries[p]), exclusive, now)]
      ensures var e := old(cache.entries[p]);
        && (ok <==> !exclusive || Lookup(cache.cfg, CacheRuns.After(cache.cfg, old(cache.log)).0, e.key, e.ctime) == None)
        && (ok <==> !exclusive || !Alive(CacheRuns.After(cache.cfg, old(cache.log)).0, e.key, e.ctime))
        && (ok ==> Latest(e.key) == Some(ItemOf(e)))
    {
      hide C.Cache.Valid, Boxes, EntryBoxes, Kept, Allocator.Valid, CacheRuns.After, Lookup, Alive;
      CacheIs(cache);
      LogBoxes(cache.cfg, cache.log, CacheRuns.Store(cache.entries[p], exclusive, now));
      StoredIsLatest(cache.cfg, cache.log, cache.entries[p], exclusive, now);
      ok := cache.Commit(p, exclusive, now);
      CacheIs(cache);
    }

    /**
     Persists a value and stores it under `key`.  It is measured first; then memory is
     found for it, the copy is written, and the entry is inserted or given back.
     */
    method Store(key: string, h: Heap, v: Val, custom: bool, serialized: Option<string>, ttl: int, exclusive: bool, t: int, now: int)
      returns (ok: bool, p: int, ghost evicted: seq<Op>)
      requires Valid() && Closed(h) && ClosedVal(h, v) && v.Ptr?
      modifies this, cache, cache.sma.Repr
      ensures Valid() && cache.pending == old(cache.pending)
      ensures var form, n := P.Outgoing(h, v, custom, serialized), P.PersistedSize(h, key, v, custom, serialized);
        if form == P.Failure then
          !ok && p == NULL && cache.log == old(cache.log) && stored == old(stored)
        else
          && evicted == old(cache.Evictions(n, t, now))
          && if p == NULL then
               !ok && cache.log == old(cache.log) + evicted && stored == old(stored)
             else
               && cache.log == old(cache.log) + evicted + [CacheRuns.Store(NewEntry(key, old(next), ttl, t, p, n), exclusive, now)]
               && (ok <==> !exclusive || Lookup(cache.cfg, CacheRuns.After(cache.cfg, old(cache.log) + evicted).0, key, t) == None)
               && (ok <==> !exclusive || !Alive(CacheRuns.After(cache.cfg, old(cache.log) + evicted).0, key, t))
               && (ok ==> Latest(key) == Some(Item(Boxed(old(next)), t, ttl)))
               && next == old(next) + 1 && exists o {:trigger Records(o, h, key, v, form, n)} ::
                    Records(o, h, key, v, form, n) && stored == old(stored)[old(next) := o]
    {
      hide C.Cache.Valid, Boxes, Faithful, Kept, Allocator.Valid, P.Outgoing, P.PersistedSize, CacheRuns.After, Lookup, Alive, Closed,
        C.Cache.Evictions, Recorded;
      CacheIs(cache);
      ok, p, evicted := false, NULL, [];
      var persister := new P.Persister(h);
      var fits := persister.Measure(key, v, custom, serialized);
      if fits {
        p, evicted := Claim(key, persister.size, ttl, t, now);
        if p != NULL {
          var root;
          ghost var o;
          root, o := Copy(persister, key, v, custom, serialized, p);
          Write(p, persister.mem, root, o);
          ok := Insert(p, exclusive, now);
        }
      }
    }

    /** Restores the graph an entry refers to, from what is in memory now. */
    method Restore(root: Val, ghost o: Original) returns (out: seq<Node>, counts: seq<int>, w: Val, ghost f: map<int, int>)
      requires Faithful(o) && o.form == P.Graphed && o.root == P.Plain(root) && Held(o.block.mem, shm)
      ensures Isomorphic(o.h, o.v, U.HeapOf(out), w, f)
      ensures forall a {:trigger a in f} :: a in f ==> a in o.h && 0 <= f[a] < |out| && R.Renewed(o.h[a], out[f[a]])
      ensures |counts| == |out|
      ensures forall q {:trigger counts[q]} :: 0 <= q < |out| ==> counts[q] == U.Slots(out, q) + U.Points(w, q)
    {
      hide Closed, P.Laid, P.Complete, Copied, U.Restorable, Isomorphic;
      ghost var k := o.block;
      HeldRestorable(o, shm);
      var restorer := new U.Restorer(shm, Image(k.copies));
      w := restorer.Run(root);
      out, counts := restorer.out, restorer.counts;
      f := Compose(k.copies, restorer.copied);
      forall a {:trigger a in f} | a in f ensures a in o.h && 0 <= f[a] < |out| && R.Renewed(o.h[a], out[f[a]]) {
        CompleteDone(o, a);
        DoneMeans(o.h, a, k.mem, k.copies[a], k.copies);
        R.RenewedTwice(o.h, k.mem, out, a, k.copies, restorer.copied);
      }
      IsomorphicTwice(o.h, o.v, shm, root, U.HeapOf(out), w, k.copies, restorer.copied);
    }

    /** What a hit gives, if a map that forgets nothing would hold this value under the key. */
    ghost predicate Answers(val: Value, key: string, r: Fetched, f: map<int, int>)
      reads `stored
    {
      if !val.Boxed? then r == Inline(val)
      else
        val.id in stored && stored[val.id].key == key && Faithful(stored[val.id]) &&
        var o := stored[val.id];
        match o.form
        case AsText(text) => r == Unread(text)
        case Failure => false
        case Graphed =>
          && r.Restored? && Isomorphic(o.h, o.v, U.HeapOf(r.out), r.w, f)
          && (forall a {:trigger a in f} :: a in f ==> a in o.h && 0 <= f[a] < |r.out| && R.Renewed(o.h[a], r.out[f[a]]))
          && |r.counts| == |r.out|
          && forall q {:trigger r.counts[q]} :: 0 <= q < |r.out| ==> r.counts[q] == U.Slots(r.out, q) + U.Points(r.w, q)
    }

    /** Reads the value of the entry at `p`. */
    method Read(p: int, e: Entry) returns (r: Fetched, ghost f: map<int, int>)
      requires Recorded() && forall b :: b in EntryBoxes(e) ==> Kept(b)
      requires e.at == p
      ensures !r.Missing? && Answers(e.val, e.key, r, f)
    {
      hide Faithful, Held, Isomorphic, U.HeapOf, U.Slots, R.Renewed;
      f := map[];
      if !e.val.Boxed? {
        return Inline(e.val), f;
      }
      ghost var b := Box(p, e.key, e.mem, e.val.id);
      assert b in EntryBoxes(e) && Kept(b);
      ghost var o := stored[e.val.id];
      FormRoots(o);
      match roots[p]
      case Serialized(at) =>
        TextHeld(o, shm);
        r := Unread(shm[at].text);
      case Plain(root) =>
        var out, counts, w;
        out, counts, w, f := Restore(root, o);
        r := Restored(out, counts, w);
    }

    /**
     Fetches the value of `key`.  A hit gives what was stored last under the key: the value
     in the entry, the text the value was serialized to, or a graph isomorphic to it whose
     nodes are counted as often as slots lead to them.
     */
    method Fetch(key: string, t: int) returns (r: Fetched, ghost f: map<int, int>)
      requires Valid()
      modifies cache
      ensures Valid() && cache.pending == old(cache.pending)
      ensures r.Missing? <==> Lookup(cache.cfg, old(cache.Abs()), key, t) == None
      ensures r.Missing? <==> !Alive(old(cache.Abs()), key, t)
      ensures r.Missing? ==> cache.log == old(cache.log) + [CacheRuns.Fetch(key, t)]
      ensures !r.Missing? ==> exists p :: cache.log == old(cache.log) + [CacheRuns.Fetch(key, t)] + [CacheRuns.Release(p)]
      ensures !r.Missing? ==> old(Latest(key)).Some? && Answers(old(Latest(key)).value.val, key, r, f)
    {
      hide C.Cache.Valid, Boxes, Faithful, Kept, Allocator.Valid, CacheRuns.After, Lookup, Alive, Recorded, Held,
        Answers;
      CacheIs(cache);
      f := map[];
      ghost var before := cache.Abs();
      LogBoxes(cache.cfg, cache.log, CacheRuns.Fetch(key, t));
      var p := cache.Find(key, t);
      CacheIs(cache);
      if p == NULL {
        return Missing, f;
      }
      LookupBoxed(cache.cfg, before, key, t);
      HitBoxes(Lookup(cache.cfg, before, key, t).value, t);
      r, f := Read(p, cache.entries[p]);
      LogBoxes(cache.cfg, cache.log, CacheRuns.Release(p));
      cache.Release(p);
      CacheIs(cache);
    }

    /** Deletes the value of `key`. */
    method Delete(key: string, now: int) returns (found: bool)
      requires Valid()
      modifies cache, cache.sma.Repr
      ensures Valid() && cache.pending == old(cache.pending) && cache.log == old(cache.log) + [Remove(key, now)]
      ensures (cache.Abs(), found) == CacheTable.Delete(cache.cfg, old(cache.Abs()), key, now)
    {
      hide C.Cache.Valid, Boxes, Kept, Allocator.Valid, CacheRuns.After, Recorded;
      CacheIs(cache);
      LogBoxes(cache.cfg, cache.log, Remove(key, now));
      found := cache.Delete(key, now);
      CacheIs(cache);
    }

    /** Deletes all values. */
    method Clear(now: int)
      requires Valid()
      modifies cache, cache.sma.Repr
      ensures Valid() && cache.pending == old(cache.pending) && cache.log == old(cache.log) + [CacheRuns.Clear(now)]
    {
      hide C.Cache.Valid, Boxes, Kept, Allocator.Valid, CacheRuns.After, Recorded;
      CacheIs(cache);
      LogBoxes(cache.cfg, cache.log, CacheRuns.Clear(now));
      cache.Clear(now);
      CacheIs(cache);
    }
  }

  lemma StoredIsLatest(cfg: Config, log: seq<Op>, e: Entry, exclusive: bool, now: int)
    requires Usable(cfg)
    ensures !exclusive || Lookup(cfg, CacheRuns.After(cfg, log).0, e.key, e.ctime) == None ==>
      var m := CacheRuns.After(cfg, log + [CacheRuns.Store(e, exclusive, now)]).1; e.key in m && m[e.key] == ItemOf(e)
  {
    hide Insert, Lookup, WellFormed;
    RunIsTruthful(cfg, log);
    InsertEffect(cfg, CacheRuns.After(cfg, log).0, e, exclusive, now, "");
    assert (log + [CacheRuns.Store(e, exclusive, now)])[..|log|] == log;
  }

  /** The record of a value that was handed in. */
  ghost predicate Records(o: Original, h: Heap, key: string, v: Val, form: P.Form, n: nat) {
    o.h == h && o.key == key && o.v == v && o.form == form && o.size == n && Faithful(o)
  }

  /** Copies a value that was measured into the block at `p`. */
  method Copy(persister: P.Persister, key: string, v: Val, custom: bool, serialized: Option<string>, p: int)
    returns (root: P.Persisted, ghost o: Original)
    requires Closed(persister.h) && ClosedVal(persister.h, v) && v.Ptr? && persister.mem == map[]
    requires persister.copies == map[]
    requires persister.size == P.PersistedSize(persister.h, key, v, custom, serialized)
    requires var form := P.Outgoing(persister.h, v, custom, serialized);
      if persister.useSerialization then serialized.Some? && form == P.AsText(serialized.value) else form == P.Graphed
    modifies persister
    ensures Records(o, persister.h, key, v, P.Outgoing(persister.h, v, custom, serialized),
      P.PersistedSize(persister.h, key, v, custom, serialized))
    ensures o.block.base == p * SmaArena.WORD_BYTES && o.block.mem == persister.mem && o.root == root
  {
    hide P.Outgoing, P.PersistedSize, Closed, P.Laid, P.Complete, Isomorphic, S.WalkVal, P.EntrySize, P.Reached;
    P.FormMeans(persister.h, key, v, custom, serialized);
    persister.base := p * SmaArena.WORD_BYTES;
    var r: P.Result;
    if persister.useSerialization {
      r := persister.CopySerialized(key, serialized.value);
    } else {
      r := persister.CopyGraph(key, v);
    }
    root := r.val;
    o := Original(persister.h, key, v, P.Outgoing(persister.h, v, custom, serialized), persister.size, persister.Filled(), root);
  }

  /** A new entry for the value of this number. */
  function NewEntry(key: string, id: int, ttl: int, t: int, at: int, mem: nat): Entry {
    C.NewEntry(key, Boxed(id), ttl, t).(at := at, mem := mem)
  }

  lemma FormRoots(o: Original)
    requires Faithful(o)
    ensures o.form == P.Graphed || o.form.AsText?
    ensures (o.form == P.Graphed ==> o.root.Plain?) && (o.form.AsText? ==> o.root.Serialized?)
  {
  }

  lemma TextHeld(o: Original, shm: Heap)
    requires Faithful(o) && o.form.AsText? && Held(o.block.mem, shm)
    ensures o.root.at in shm && shm[o.root.at] == Str(o.form.text)
  {
  }

  lemma DoneMeans(h: Heap, a: int, mem: Heap, b: int, f: map<int, int>)
    requires P.Done(h, a, mem, b, f)
    ensures a in h && b in mem
  {
  }

  lemma NewHeld(shm: Heap, mem: Heap)
    ensures Held(mem, shm + mem)
  {
  }

  /** The contents of a cache are what its log leaves. */
  lemma CacheIs(c: C.Cache)
    requires c.Valid()
    ensures Usable(c.cfg) && L.Shaped(c.InMemory()) && c.Abs() == CacheRuns.After(c.cfg, c.log).0
  {
    hide Allocator.Valid, Boxes;
  }

  lemma SmaValid(c: C.Cache)
    requires c.Sound()
    ensures c.sma.Valid()
  {
  }

  lemma NoBoxes(cfg: Config)
    requires Usable(cfg)
    ensures Boxes(CacheRuns.After(cfg, []).0) == {}
  {
  }
}
