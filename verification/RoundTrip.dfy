/** A value that is persisted and restored again. */
module RoundTrip {
  import opened Collections
  import opened Graph
  import opened Sizing
  import P = Persist
  import U = Unpersist

  /** What persisting leaves in the block can be restored. */
  lemma PersistedRestorable(h: Heap, k: P.Block, a: int)
    requires Closed(h) && P.Laid(h, k) && a in k.copies && P.Done(h, a, k.mem, k.copies[a], k.copies)
    ensures U.Restorable(k.mem, Image(k.copies), k.copies[a])
  {
  }

  /** An array that went through shared memory has its next free index and its position computed anew. */
  predicate Renewed(n: Node, m: Node) {
    n.Table? && m.Table? ==>
      && m.nextFree == P.NextFree(n, |n.buckets|)
      && (n.buckets != [] ==> m.pos == P.FirstUsed(n.buckets, |n.buckets|))
  }

  lemma RenewedTwice(h: Heap, mem: Heap, out: seq<Node>, a: int, f: map<int, int>, g: map<int, int>)
    requires a in f && f[a] in g && P.Done(h, a, mem, f[a], f) && f[a] in mem
    requires 0 <= g[f[a]] < |out| && U.Carried(mem[f[a]], out[g[f[a]]])
    ensures Renewed(h[a], out[g[f[a]]])
  {
  }

  /**
   Round trip: a value from which nothing foreign can be reached, persisted and restored,
   comes back as the same graph, with arbitrary sharing and cycles; each node of the
   result is counted as often as slots point to it.
   */
  method Run(h: Heap, key: string, v: Val, alloc: nat -> int, ghost d: set<int>)
    returns (stored: bool, out: seq<Node>, counts: seq<int>, w: Val, ghost f: map<int, int>)
    requires Closed(h) && ClosedVal(h, v) && v != Indirect
    requires Sealed(h, d) && (v.Ptr? ==> v.at in d) && Innocent(h, d)
    ensures stored <==> alloc(P.PersistedSize(h, key, v, false, None)) != 0
    ensures stored ==> Isomorphic(h, v, U.HeapOf(out), w, f)
    ensures stored ==> forall a {:trigger a in f} :: a in f ==> a in h && 0 <= f[a] < |out| && Renewed(h[a], out[f[a]])
    ensures stored ==> |counts| == |out| && forall q {:trigger counts[q]} :: 0 <= q < |out| ==> counts[q] == U.Slots(out, q) + U.Points(w, q)
  {
    P.GraphedUnlessForeign(h, v, d);
    InnocentRoot(h, v, d);
    var persister := new P.Persister(h);
    var r := persister.Run(key, v, false, None, alloc);
    if r.Failed? {
      return false, [], [], Undef, map[];
    }
    ghost var k := persister.Filled();
    var restorer := new U.Restorer(persister.mem, Image(k.copies));
    forall p {:trigger p in Image(k.copies)} | p in Image(k.copies) ensures U.Restorable(k.mem, Image(k.copies), p) {
      var a :| a in k.copies && k.copies[a] == p;
      PersistedRestorable(h, k, a);
    }
    w := restorer.Run(r.val.val);
    stored, out, counts := true, restorer.out, restorer.counts;
    f := Compose(k.copies, restorer.copied);
    forall a {:trigger a in f} | a in f ensures a in h && 0 <= f[a] < |out| && Renewed(h[a], out[f[a]]) {
      RenewedTwice(h, k.mem, out, a, k.copies, restorer.copied);
    }
    IsomorphicTwice(h, v, k.mem, r.val.val, U.HeapOf(out), w, k.copies, restorer.copied);
  }

  lemma InnocentRoot(h: Heap, v: Val, d: set<int>)
    requires Closed(h) && ClosedVal(h, v) && v != Indirect && WalkVal(h, v, h.Keys).Ok?
    requires (v.Ptr? ==> v.at in d) && Innocent(h, d)
    ensures P.Outgoing(h, v, false, None) == P.Graphed
  {
  }
}
