/** Copying a value out of shared memory into request memory, and how often each node of the result is pointed to. */
module Unpersist {
  import opened Collections
  import opened Graph

  /** Request memory: the nodes made so far, their reference counts, and which node of shared memory was copied where. */
  datatype Copy = Copy(out: seq<Node>, counts: seq<int>, copied: map<int, int>)

  function HeapOf(out: seq<Node>): (h: Heap)
    ensures forall i {:trigger i in h} :: i in h <==> 0 <= i < |out|
    ensures forall i {:trigger h[i]} :: 0 <= i < |out| ==> h[i] == out[i]
  {
    map i | 0 <= i < |out| :: out[i]
  }

  /** A node of shared memory that can be copied out, its successors being in `d`. */
  predicate Restorable(shm: Heap, d: set<int>, a: int) {
    && a in shm && Within(d, shm[a]) && Keyed(shm, shm[a])
    && (shm[a].Str? || shm[a].Ref? || shm[a].Table?)
    && (shm[a].Table? && (shm[a].staticKeys || shm[a].packed) ==>
          forall i {:trigger shm[a].buckets[i]} :: 0 <= i < |shm[a].buckets| && shm[a].buckets[i].val != Undef ==> shm[a].buckets[i].key.None?)
  }

  /** The copy of an array has the original's other fields, and places of its own. */
  predicate Carried(n: Node, m: Node) {
    n.Table? && m.Table? ==> m == n.(data := 0, buckets := m.buckets)
  }

  predicate Done(shm: Heap, a: int, h: Heap, b: int, f: map<int, int>) {
    Copied(shm, a, h, b, f) && Carried(shm[a], h[b])
  }

  lemma DoneStays(shm: Heap, a: int, h2: Heap, h3: Heap, b: int, f: map<int, int>, g: map<int, int>)
    requires Done(shm, a, h2, b, f) && StringsKept(h2, h3) && b in h3 && h3[b] == h2[b] && Extends(f, g)
    ensures Done(shm, a, h3, b, g)
  {
  }

  // ---------------------------------------------------------------- counting slots

  function Points(v: Val, q: int): nat {
    if v == Ptr(q) then 1 else 0
  }

  function BucketSlots(b: Bucket, q: int): nat {
    if b.val == Undef then 0 else Points(b.val, q) + if b.key == Some(q) then 1 else 0
  }

  function PlacesSlots(bs: seq<Bucket>, q: int): nat {
    if bs == [] then 0 else PlacesSlots(bs[..|bs| - 1], q) + BucketSlots(bs[|bs| - 1], q)
  }

  /** How many slots of a node point to `q`. */
  function NodeSlots(n: Node, q: int): nat {
    match n
    case Ref(v) => Points(v, q)
    case Table(_, _, _, bs, _, _, _) => PlacesSlots(bs, q)
    case _ => 0
  }

  /** How many slots of all nodes point to `q`. */
  function Slots(out: seq<Node>, q: int): nat {
    if out == [] then 0 else Slots(out[..|out| - 1], q) + NodeSlots(out[|out| - 1], q)
  }

  lemma {:induction false} SlotsChange(out: seq<Node>, i: nat, n: Node, q: int)
    requires i < |out|
    ensures Slots(out[i := n], q) == Slots(out, q) - NodeSlots(out[i], q) + NodeSlots(n, q)
  {
    if i == |out| - 1 {
      assert out[i := n][..|out| - 1] == out[..|out| - 1];
    } else {
      assert out[i := n][..|out| - 1] == out[..|out| - 1][i := n];
      SlotsChange(out[..|out| - 1], i, n, q);
    }
  }

  lemma PlacesMore(bs: seq<Bucket>, b: Bucket, q: int)
    ensures PlacesSlots(bs + [b], q) == PlacesSlots(bs, q) + BucketSlots(b, q)
  {
  }

  /** A node's count less the slots that point to it. */
  function Surplus(k: Copy, q: int): int
    requires |k.counts| == |k.out|
  {
    (if 0 <= q < |k.out| then k.counts[q] else 0) - Slots(k.out, q)
  }

  // ---------------------------------------------------------------- growing

  ghost predicate Laid(d: set<int>, k: Copy) {
    && |k.counts| == |k.out|
    && (forall a {:trigger a in k.copied} :: a in k.copied ==> a in d && 0 <= k.copied[a] < |k.out|)
    && Injective(k.copied)
  }

  ghost predicate Later(k: Copy, l: Copy) {
    && |k.out| <= |l.out| && Extends(k.copied, l.copied)
    && (forall i {:trigger l.out[i]} :: 0 <= i < |k.out| ==> l.out[i] == k.out[i])
  }

  ghost predicate Complete(shm: Heap, k: Copy, l: Copy, but: set<int>) {
    forall a {:trigger a in l.copied} :: a in l.copied && a !in k.copied && a !in but ==>
      Done(shm, a, HeapOf(l.out), l.copied[a], l.copied)
  }

  /** The counts kept up with the slots, `w` being one more. */
  ghost predicate Counted(k: Copy, l: Copy, w: Val)
    requires |k.counts| == |k.out| && |l.counts| == |l.out|
  {
    forall q {:trigger Surplus(l, q)} {:trigger Surplus(k, q)} :: Surplus(l, q) == Surplus(k, q) + Points(w, q)
  }

  lemma LaterStrings(k: Copy, l: Copy)
    requires Later(k, l)
    ensures StringsKept(HeapOf(k.out), HeapOf(l.out))
  {
  }

  lemma LaterTwice(j: Copy, k: Copy, l: Copy)
    requires Later(j, k) && Later(k, l)
    ensures Later(j, l)
  {
  }

  lemma CompleteTwice(shm: Heap, d: set<int>, j: Copy, k: Copy, l: Copy, but: set<int>)
    requires Laid(d, k) && Later(k, l) && Complete(shm, j, k, but) && Complete(shm, k, l, {})
    ensures Complete(shm, j, l, but)
  {
  }

  /** A node without an original of its own, pointed to once. */
  function Made(k: Copy, n: Node): Copy {
    k.(out := k.out + [n], counts := k.counts + [1])
  }

  function MadeFor(k: Copy, n: Node, a: int): Copy {
    Made(k, n).(copied := k.copied[a := |k.out|])
  }

  predicate Bare(n: Node) {
    n.Str? || (n.Table? && n.buckets == []) || (n.Ref? && n.val == Undef)
  }

  lemma MadeLaid(shm: Heap, d: set<int>, k: Copy, n: Node)
    requires Laid(d, k) && Bare(n)
    ensures var l := Made(k, n); Laid(d, l) && Later(k, l) && Complete(shm, k, l, {}) && Counted(k, l, Ptr(|k.out|))
  {
  }

  lemma MadeForLaid(shm: Heap, d: set<int>, k: Copy, n: Node, a: int)
    requires Laid(d, k) && Bare(n) && a in d && a !in k.copied
    ensures var l := MadeFor(k, n, a); Laid(d, l) && Later(k, l) && Complete(shm, k, l, {a}) && Counted(k, l, Ptr(|k.out|))
  {
  }

  /** One more pointer to a node that is there. */
  lemma SharedCounted(d: set<int>, k: Copy, a: int)
    requires Laid(d, k) && a in k.copied
    ensures var i := k.copied[a]; var l := k.(counts := k.counts[i := k.counts[i] + 1]);
      Laid(d, l) && Later(k, l) && Counted(k, l, Ptr(i))
  {
  }

  lemma SelfLater(shm: Heap, k: Copy, w: Val)
    requires |k.counts| == |k.out| && !w.Ptr?
    ensures Later(k, k) && Complete(shm, k, k, {}) && Counted(k, k, w)
  {
    assert forall q {:trigger Points(w, q)} :: Points(w, q) == 0;
  }

  /** Writing the node at `i`, still in the making. */
  lemma Rewritten(shm: Heap, d: set<int>, j: Copy, k: Copy, i: nat, n: Node, a: int)
    requires Laid(d, k) && Later(j, k) && Complete(shm, j, k, {a}) && a in k.copied && k.copied[a] == i
    requires |j.out| <= i < |k.out| && !k.out[i].Str?
    ensures var l := k.(out := k.out[i := n]); Laid(d, l) && Later(j, l) && Complete(shm, j, l, {a})
  {
  }

  lemma CompleteAll(shm: Heap, j: Copy, m: Copy, a: int)
    requires Complete(shm, j, m, {a}) && a in m.copied && Done(shm, a, HeapOf(m.out), m.copied[a], m.copied)
    ensures Complete(shm, j, m, {})
  {
  }

  // ---------------------------------------------------------------- filling

  /** Place `i` of the copy means what place `i` of the original does. */
  predicate CellCopied(shm: Heap, b: Bucket, out: Heap, c: Bucket, f: map<int, int>) {
    && CellOf(out, c) == MapCell(CellOf(shm, b), f)
    && (b.val.Ptr? ==> b.val.at in f)
    && (c.val != Undef && c.key.Some? ==> IsStr(out, c.key.value))
  }

  /** The array at `i` is the copy of the first places of `a`. */
  ghost predicate Filling(shm: Heap, k: Copy, a: int, i: nat) {
    && a in shm && shm[a].Table? && a in k.copied && k.copied[a] == i && i < |k.out| && k.out[i].Table?
    && |k.out[i].buckets| <= |shm[a].buckets|
    && k.out[i] == shm[a].(data := 0, buckets := k.out[i].buckets)
    && (forall j {:trigger k.out[i].buckets[j]} :: 0 <= j < |k.out[i].buckets| ==>
          CellCopied(shm, shm[a].buckets[j], HeapOf(k.out), k.out[i].buckets[j], k.copied))
  }

  lemma FillingStays(shm: Heap, k: Copy, l: Copy, a: int, i: nat)
    requires Filling(shm, k, a, i) && Later(k, l)
    ensures Filling(shm, l, a, i) && l.out[i] == k.out[i]
  {
  }

  lemma FilledIsCopied(shm: Heap, k: Copy, a: int, i: nat)
    requires Filling(shm, k, a, i) && |k.out[i].buckets| == |shm[a].buckets|
    ensures Done(shm, a, HeapOf(k.out), i, k.copied)
  {
    var bs, cs := shm[a].buckets, k.out[i].buckets;
    forall j | 0 <= j < |bs|
      ensures CellCopied(shm, bs[j], HeapOf(k.out), cs[j], k.copied)
      ensures CellsOf(HeapOf(k.out), cs)[j] == MapCells(CellsOf(shm, bs), k.copied)[j]
    {
      assert CellCopied(shm, bs[j], HeapOf(k.out), cs[j], k.copied);
    }
    assert CellsOf(HeapOf(k.out), cs) == MapCells(CellsOf(shm, bs), k.copied);
  }

  /** Adding the next place. */
  function Extended(n: Node, c: Bucket): Node
    requires n.Table?
  {
    n.(buckets := n.buckets + [c])
  }

  lemma ExtendedFills(shm: Heap, k: Copy, a: int, i: nat, c: Bucket)
    requires Filling(shm, k, a, i) && |k.out[i].buckets| < |shm[a].buckets|
    requires CellCopied(shm, shm[a].buckets[|k.out[i].buckets|], HeapOf(k.out), c, k.copied)
    ensures Filling(shm, k.(out := k.out[i := Extended(k.out[i], c)]), a, i)
  {
  }

  lemma ExtendedCounts(j: Copy, k: Copy, i: nat, c: Bucket, w: Val)
    requires |j.counts| == |j.out| && |k.counts| == |k.out| && i < |k.out| && k.out[i].Table?
    requires forall q {:trigger Surplus(k, q)} :: Surplus(k, q) == Surplus(j, q) + Points(w, q) + BucketSlots(c, q)
    ensures Counted(j, k.(out := k.out[i := Extended(k.out[i], c)]), w)
  {
    var l := k.(out := k.out[i := Extended(k.out[i], c)]);
    forall q ensures Surplus(l, q) == Surplus(j, q) + Points(w, q) {
      assert Surplus(k, q) == Surplus(j, q) + Points(w, q) + BucketSlots(c, q);
      SlotsChange(k.out, i, Extended(k.out[i], c), q);
      PlacesMore(k.out[i].buckets, c, q);
    }
  }

  /** A reference is restored once its value is. */
  lemma RefDone(shm: Heap, d: set<int>, j: Copy, k: Copy, l: Copy, a: int, i: nat, w: Val)
    requires a in shm && shm[a].Ref? && a in d && a !in j.copied && Laid(d, j) && Laid(d, k) && Laid(d, l)
    requires k == MadeFor(j, Ref(Undef), a) && i == |j.out|
    requires Later(j, k) && Complete(shm, j, k, {a}) && Counted(j, k, Ptr(i))
    requires Later(k, l) && Complete(shm, k, l, {}) && Counted(k, l, w)
    requires w == MapVal(shm[a].val, l.copied) && (shm[a].val.Ptr? ==> shm[a].val.at in l.copied)
    ensures i < |l.out|
    ensures var m := l.(out := l.out[i := Ref(w)]);
      Laid(d, m) && Later(j, m) && Complete(shm, j, m, {}) && Counted(j, m, Ptr(i)) && a in m.copied && m.copied[a] == i
  {
    hide Complete, Done, Counted;
    LaterTwice(j, k, l);
    CompleteTwice(shm, d, j, k, l, {a});
    assert l.out[i] == k.out[i] && a in k.copied;
    Rewritten(shm, d, j, l, i, Ref(w), a);
    RefCopied(shm, l, a, i, w);
    CompleteAll(shm, j, l.(out := l.out[i := Ref(w)]), a);
    RefCounts(j, k, l, i, w);
  }

  lemma RefCopied(shm: Heap, l: Copy, a: int, i: nat, w: Val)
    requires a in shm && shm[a].Ref? && i < |l.out|
    requires w == MapVal(shm[a].val, l.copied) && (shm[a].val.Ptr? ==> shm[a].val.at in l.copied)
    ensures Done(shm, a, HeapOf(l.out[i := Ref(w)]), i, l.copied)
  {
  }

  lemma RefCounts(j: Copy, k: Copy, l: Copy, i: nat, w: Val)
    requires |j.counts| == |j.out| && |k.counts| == |k.out| && |l.counts| == |l.out| && i < |l.out|
    requires l.out[i] == Ref(Undef)
    requires Counted(j, k, Ptr(i)) && Counted(k, l, w)
    ensures Counted(j, l.(out := l.out[i := Ref(w)]), Ptr(i))
  {
    var m := l.(out := l.out[i := Ref(w)]);
    forall q ensures Surplus(m, q) == Surplus(j, q) + Points(Ptr(i), q) {
      assert Surplus(l, q) == Surplus(k, q) + Points(w, q);
      assert Surplus(k, q) == Surplus(j, q) + Points(Ptr(i), q);
      SlotsChange(l.out, i, Ref(w), q);
    }
  }

  lemma BareRef()
    ensures Bare(Ref(Undef))
  {
  }

  lemma StrDone(shm: Heap, j: Copy, a: int)
    requires a in shm && shm[a].Str?
    ensures Done(shm, a, HeapOf(MadeFor(j, shm[a], a).out), |j.out|, MadeFor(j, shm[a], a).copied)
  {
  }

  lemma SharedComplete(shm: Heap, k: Copy, counts: seq<int>)
    ensures Complete(shm, k, k.(counts := counts), {})
  {
  }

  /** The counts kept up with the slots, those of the place `c` being more. */
  ghost predicate PlaceCounted(k: Copy, l: Copy, c: Bucket)
    requires |k.counts| == |k.out| && |l.counts| == |l.out|
  {
    forall q {:trigger Surplus(l, q)} :: Surplus(l, q) == Surplus(k, q) + BucketSlots(c, q)
  }

  lemma KeyKept(shm: Heap, k: Copy, l: Copy, q: int)
    requires Later(k, l) && 0 <= q < |k.out| && k.out[q].Str?
    ensures q < |l.out| && l.out[q] == k.out[q]
  {
  }

  /** A place is restored once its key, if any, and its value are. */
  lemma PlaceDone(shm: Heap, d: set<int>, j: Copy, k: Copy, l: Copy, b: Bucket, c: Bucket, w: Val)
    requires Laid(d, j) && Laid(d, k) && Laid(d, l)
    requires k == j || (c.key == Some(|j.out|) && Later(j, k) && Complete(shm, j, k, {}) && Counted(j, k, Ptr(|j.out|)))
    requires k == j ==> b.val == Undef || c.key.None?
    requires Later(k, l) && Complete(shm, k, l, {}) && Counted(k, l, w)
    requires w == MapVal(b.val, l.copied) && (b.val.Ptr? ==> b.val.at in l.copied) && c.val == w
    requires b.val != Undef ==> c.h == b.h && (b.key.None? <==> c.key.None?)
    requires b.val != Undef && b.key.Some? ==> IsStr(shm, b.key.value) && k != j && 0 <= |j.out| < |l.out| && l.out[|j.out|] == Str(shm[b.key.value].text)
    requires b.val == Undef ==> k == j
    ensures Later(j, l) && Complete(shm, j, l, {})
    ensures PlaceCounted(j, l, c) && CellCopied(shm, b, HeapOf(l.out), c, l.copied)
  {
    hide Done;
    if k != j {
      LaterTwice(j, k, l);
      CompleteTwice(shm, d, j, k, l, {});
    }
    forall q {:trigger Surplus(l, q)} ensures Surplus(l, q) == Surplus(j, q) + BucketSlots(c, q) {
      assert Surplus(l, q) == Surplus(k, q) + Points(w, q);
      assert k != j ==> Surplus(k, q) == Surplus(j, q) + Points(Ptr(|j.out|), q);
    }
  }

  /** One place more is in the copy. */
  lemma NextDone(shm: Heap, d: set<int>, j: Copy, k: Copy, l: Copy, a: int, i: nat, c: Bucket)
    requires Laid(d, k) && Laid(d, l) && |j.counts| == |j.out| <= i && a in shm
    requires Later(j, k) && Complete(shm, j, k, {a}) && Counted(j, k, Ptr(i)) && Filling(shm, k, a, i)
    requires |k.out[i].buckets| < |shm[a].buckets|
    requires Later(k, l) && Complete(shm, k, l, {}) && PlaceCounted(k, l, c)
    requires CellCopied(shm, shm[a].buckets[|k.out[i].buckets|], HeapOf(l.out), c, l.copied)
    ensures i < |l.out| && l.out[i] == k.out[i]
    ensures var m := l.(out := l.out[i := Extended(l.out[i], c)]);
      Laid(d, m) && Later(j, m) && Complete(shm, j, m, {a}) && Counted(j, m, Ptr(i)) && Filling(shm, m, a, i)
  {
    hide Complete, Done, CellCopied;
    FillingStays(shm, k, l, a, i);
    LaterTwice(j, k, l);
    CompleteTwice(shm, d, j, k, l, {a});
    ExtendedFills(shm, l, a, i, c);
    Rewritten(shm, d, j, l, i, Extended(l.out[i], c), a);
    NextCounts(j, k, l, i, c);
    ExtendedCounts(j, l, i, c, Ptr(i));
  }

  lemma NextCounts(j: Copy, k: Copy, l: Copy, i: nat, c: Bucket)
    requires |j.counts| == |j.out| && |k.counts| == |k.out| && |l.counts| == |l.out|
    requires Counted(j, k, Ptr(i)) && PlaceCounted(k, l, c)
    ensures forall q {:trigger Surplus(l, q)} :: Surplus(l, q) == Surplus(j, q) + Points(Ptr(i), q) + BucketSlots(c, q)
  {
  }

  lemma BareTable(n: Node)
    requires n.Table?
    ensures Bare(n.(data := 0, buckets := []))
  {
  }

  lemma FillStart(shm: Heap, j: Copy, a: int)
    requires a in shm && shm[a].Table?
    ensures Filling(shm, MadeFor(j, shm[a].(data := 0, buckets := []), a), a, |j.out|)
  {
  }

  lemma FilledNode(shm: Heap, k: Copy, a: int, i: nat)
    requires Filling(shm, k, a, i)
    ensures i < |k.out| && k.out[i].Table? && a in k.copied && k.copied[a] == i
  {
  }

  lemma TableDone(shm: Heap, j: Copy, k: Copy, a: int, i: nat)
    requires a in shm && shm[a].Table? && Filling(shm, k, a, i) && |k.out[i].buckets| == |shm[a].buckets|
    requires Complete(shm, j, k, {a})
    ensures Complete(shm, j, k, {}) && a in k.copied && k.copied[a] == i
  {
    FilledIsCopied(shm, k, a, i);
    CompleteAll(shm, j, k, a);
  }

  class Restorer {
    const shm: Heap
    ghost const d: set<int>                // the nodes that can be reached
    var out: seq<Node>
    var counts: seq<int>
    var copied: map<int, int>

    constructor (shm: Heap, ghost d: set<int>)
      ensures this.shm == shm && this.d == d && out == [] && counts == [] && copied == map[]
    {
      this.shm, this.d := shm, d;
      out, counts, copied := [], [], map[];
    }

    ghost function State(): Copy
      reads this
    {
      Copy(out, counts, copied)
    }

    ghost function Uncopied(): set<int>
      reads `copied
    {
      d - copied.Keys
    }

    ghost predicate Ready()
      reads this
    {
      Laid(d, State()) && forall a {:trigger a in d} :: a in d ==> Restorable(shm, d, a)
    }

    /** Everything made is copied in full, and the counts are right if one slot gets `w`. */
    twostate predicate Restored(w: Val)
      requires old(|counts| == |out|) && |counts| == |out|
      reads this
    {
      && Later(old(State()), State()) && Complete(shm, old(State()), State(), {})
      && Counted(old(State()), State(), w)
      && |Uncopied()| <= old(|Uncopied()|)
    }

    method NewNode(n: Node) returns (i: int)
      modifies `out, `counts
      ensures i == |old(out)| && State() == Made(old(State()), n)
    {
      i := |out|;
      out := out + [n];
      counts := counts + [1];
    }

    method RestoreStr(a: int) returns (i: int)
      requires Ready() && a in Uncopied() && shm[a].Str?
      modifies this
      ensures Ready() && Restored(Ptr(i)) && a in copied && copied[a] == i
    {
      ghost var j := State();
      MadeForLaid(shm, d, j, shm[a], a);
      i := NewNode(shm[a]);
      copied := copied[a := i];
      assert State() == MadeFor(j, shm[a], a);
      assert Uncopied() == old(Uncopied()) - {a};
      StrDone(shm, j, a);
    }

    method RestoreRef(a: int) returns (i: int)
      requires Ready() && a in Uncopied() && shm[a].Ref?
      modifies this
      ensures Ready() && Restored(Ptr(i)) && a in copied && copied[a] == i
      decreases |Uncopied()|, 0
    {
      hide Later, Complete, Counted, Done, Bare;
      ghost var j := State();
      BareRef();
      MadeForLaid(shm, d, j, Ref(Undef), a);
      assert Restorable(shm, d, a);
      i := NewNode(Ref(Undef));
      copied := copied[a := i];
      ghost var k := State();
      assert k == MadeFor(j, Ref(Undef), a);
      assert Uncopied() == old(Uncopied()) - {a};
      var w := RestoreVal(shm[a].val);
      ghost var l := State();
      RefDone(shm, d, j, k, l, a, i, w);
      out := out[i := Ref(w)];
      assert State() == l.(out := l.out[i := Ref(w)]);
    }

    method RestoreVal(v: Val) returns (w: Val)
      requires Ready() && (v.Ptr? ==> v.at in d)
      modifies this
      ensures Ready() && Restored(w)
      ensures w == MapVal(v, copied) && (v.Ptr? ==> v.at in copied)
      decreases |Uncopied()|, 1
    {
      hide Later, Complete, Counted, Done;
      if !v.Ptr? {
        SelfLater(shm, State(), v);
        return v;
      }
      var i;
      if v.at in copied {
        i := copied[v.at];
        SharedCounted(d, State(), v.at);
        SharedComplete(shm, State(), counts[i := counts[i] + 1]);
        counts := counts[i := counts[i] + 1];
        return Ptr(i);
      }
      assert Restorable(shm, d, v.at);
      match shm[v.at] {
        case Str(_) => i := RestoreStr(v.at);
        case Ref(_) => i := RestoreRef(v.at);
        case Table(_, _, _, _, _, _, _) => i := RestoreTable(v.at);
      }
      w := Ptr(i);
    }

    /** Copies the key and the value of a place; arrays without keys have their places copied as they are. */
    method RestorePlace(b: Bucket, keyless: bool) returns (c: Bucket)
      requires Ready() && (b.val.Ptr? ==> b.val.at in d)
      requires b.val != Undef && b.key.Some? ==> !keyless && IsStr(shm, b.key.value)
      modifies this
      ensures Ready() && Later(old(State()), State()) && Complete(shm, old(State()), State(), {})
      ensures |Uncopied()| <= old(|Uncopied()|)
      ensures PlaceCounted(old(State()), State(), c) && CellCopied(shm, b, HeapOf(out), c, copied)
      decreases |Uncopied()|, 2
    {
      hide Later, Complete, Counted, Done, PlaceCounted, CellCopied, Restorable;
      ghost var j := State();
      var w;
      if keyless {
        w := RestoreVal(b.val);
        c := b.(val := w);
        PlaceDone(shm, d, j, j, State(), b, c, w);
        return;
      }
      if b.val == Undef {
        c := Bucket(Undef, 0, None);
        SelfLater(shm, j, Undef);
        PlaceDone(shm, d, j, j, j, b, c, Undef);
        return;
      }
      if b.key.Some? {
        MadeLaid(shm, d, j, Str(shm[b.key.value].text));
        var q := NewNode(Str(shm[b.key.value].text));
        ghost var k := State();
        w := RestoreVal(b.val);
        c := Bucket(w, b.h, Some(q));
        KeyKept(shm, k, State(), q);
        PlaceDone(shm, d, j, k, State(), b, c, w);
      } else {
        w := RestoreVal(b.val);
        c := Bucket(w, b.h, None);
        PlaceDone(shm, d, j, j, State(), b, c, w);
      }
    }

    /** Adds the next place to the array `i`, the copy of `a`; `j` is what there was before it was begun. */
    method RestoreNext(a: int, i: int, ghost j: Copy)
      requires Ready() && a in d && |j.counts| == |j.out| <= i && Later(j, State()) && Complete(shm, j, State(), {a})
      requires Counted(j, State(), Ptr(i))
      requires Filling(shm, State(), a, i) && |out[i].buckets| < |shm[a].buckets|
      modifies this
      ensures Ready() && Later(j, State()) && Complete(shm, j, State(), {a}) && Counted(j, State(), Ptr(i))
      ensures |Uncopied()| <= old(|Uncopied()|)
      ensures Filling(shm, State(), a, i) && |out[i].buckets| == old(|out[i].buckets|) + 1
      decreases |Uncopied()|, 3
    {
      hide Later, Complete, Counted, Done, PlaceCounted, CellCopied;
      assert Restorable(shm, d, a);
      var b := shm[a].buckets[|out[i].buckets|];
      ghost var k := State();
      var c := RestorePlace(b, shm[a].packed || shm[a].staticKeys);
      ghost var l := State();
      NextDone(shm, d, j, k, l, a, i, c);
      out := out[i := Extended(out[i], c)];
      assert State() == l.(out := l.out[i := Extended(l.out[i], c)]);
    }

    method RestoreTable(a: int) returns (i: int)
      requires Ready() && a in Uncopied() && a in shm && shm[a].Table?
      modifies this
      ensures Ready() && Restored(Ptr(i)) && a in copied && copied[a] == i
      decreases |Uncopied()|, 0
    {
      hide Later, Complete, Counted, Done, Bare, Filling, Restorable;
      ghost var j := State();
      i := BeginTable(a);
      RestorePlaces(a, i, j);
      FilledNode(shm, State(), a, i);
      TableDone(shm, j, State(), a, i);
    }

    /** Restores all places of an array. */
    method RestorePlaces(a: int, i: int, ghost j: Copy)
      requires Ready() && a in d && |j.counts| == |j.out| <= i && Later(j, State()) && Complete(shm, j, State(), {a})
      requires Counted(j, State(), Ptr(i))
      requires Filling(shm, State(), a, i) && out[i].buckets == []
      modifies this
      ensures Ready() && Later(j, State()) && Complete(shm, j, State(), {a}) && Counted(j, State(), Ptr(i))
      ensures |Uncopied()| <= old(|Uncopied()|)
      ensures Filling(shm, State(), a, i) && |out[i].buckets| == |shm[a].buckets|
      decreases |Uncopied()|, 4
    {
      hide Later, Complete, Counted, Done, Bare, CellCopied, Restorable;
      ghost var bound := |Uncopied()|;
      var n := 0;
      while n < |shm[a].buckets|
        invariant 0 <= n <= |shm[a].buckets| && |Uncopied()| <= bound
        invariant Ready() && Later(j, State()) && Complete(shm, j, State(), {a}) && Counted(j, State(), Ptr(i))
        invariant Filling(shm, State(), a, i) && |out[i].buckets| == n
      {
        RestoreNext(a, i, j);
        n := n + 1;
      }
    }

    /** Makes the copy of an array, without its places. */
    method BeginTable(a: int) returns (i: int)
      requires Ready() && a in Uncopied() && a in shm && shm[a].Table?
      modifies this
      ensures Ready() && Later(old(State()), State()) && Complete(shm, old(State()), State(), {a})
      ensures Counted(old(State()), State(), Ptr(i))
      ensures i == |old(out)| && Filling(shm, State(), a, i) && i < |out| && out[i].Table? && out[i].buckets == []
      ensures Uncopied() == old(Uncopied()) - {a}
    {
      hide Later, Complete, Counted, Done, Bare, Filling, Restorable;
      ghost var j := State();
      var n := shm[a].(data := 0, buckets := []);
      BareTable(shm[a]);
      MadeForLaid(shm, d, j, n, a);
      FillStart(shm, j, a);
      i := NewNode(n);
      copied := copied[a := i];
      assert State() == MadeFor(j, n, a);
      assert out[i] == n;
    }

    /**
     Restores a value.  The result is the same graph, and every node of it is counted as
     often as slots point to it, the slot for the result included.
     */
    method Run(v: Val) returns (w: Val)
      requires Ready() && out == [] && counts == [] && copied == map[] && (v.Ptr? ==> v.at in d)
      modifies this
      ensures Isomorphic(shm, v, HeapOf(out), w, copied)
      ensures forall a {:trigger a in copied} :: a in copied ==> 0 <= copied[a] < |out| && Carried(shm[a], out[copied[a]])
      ensures |counts| == |out|
      ensures forall q {:trigger counts[q]} :: 0 <= q < |out| ==> counts[q] == Slots(out, q) + Points(w, q)
    {
      ghost var j := State();
      w := RestoreVal(v);
      assert forall q {:trigger Surplus(j, q)} :: Surplus(j, q) == 0;
      forall q | 0 <= q < |out| ensures counts[q] == Slots(out, q) + Points(w, q) {
        assert Surplus(State(), q) == Surplus(j, q) + Points(w, q);
      }
    }
  }
}
