/** Copying a value into one block of shared memory: first its size is computed, then it is copied node by node. */
module Persist {
  import opened Collections
  import opened Graph
  import opened Sizing

  // ---------------------------------------------------------------- what an array's copy says about its places

  /** The next free index after the first `i` places. */
  function NextFree(n: Node, i: nat): (r: nat)
    requires n.Table? && i <= |n.buckets|
  {
    if i == 0 then 0
    else
      var before, b := NextFree(n, i - 1), n.buckets[i - 1];
      if b.val == Undef then before
      else if n.packed then (if i - 1 >= before then i else before)
      else if b.key.None? && b.h >= before then b.h + 1
      else before
  }

  /** Place `j` is in use and has an integer key: its index in a packed array. */
  predicate HasIndex(n: Node, j: nat)
    requires n.Table? && j < |n.buckets|
  {
    n.buckets[j].val != Undef && (n.packed || n.buckets[j].key.None?)
  }

  function IndexAt(n: Node, j: nat): int
    requires n.Table? && j < |n.buckets|
  {
    if n.packed then j else n.buckets[j].h
  }

  /** The next free index is the least that is not negative and above every integer key. */
  lemma {:induction false} NextFreeIsLeast(n: Node, i: nat)
    requires n.Table? && i <= |n.buckets|
    ensures forall j {:trigger HasIndex(n, j)} :: 0 <= j < i && HasIndex(n, j) ==> IndexAt(n, j) < NextFree(n, i)
    ensures NextFree(n, i) > 0 ==> exists j :: 0 <= j < i && HasIndex(n, j) && IndexAt(n, j) == NextFree(n, i) - 1
  {
    if i > 0 {
      NextFreeIsLeast(n, i - 1);
      if NextFree(n, i) != NextFree(n, i - 1) {
        assert HasIndex(n, i - 1) && IndexAt(n, i - 1) == NextFree(n, i) - 1;
      } else if NextFree(n, i) > 0 {
        var j :| 0 <= j < i - 1 && HasIndex(n, j) && IndexAt(n, j) == NextFree(n, i - 1) - 1;
        assert HasIndex(n, j) && IndexAt(n, j) == NextFree(n, i) - 1;
      }
    }
  }

  /** The first place in use among the first `i`, or -1. */
  function FirstUsed(bs: seq<Bucket>, i: nat): int
    requires i <= |bs|
  {
    if i == 0 then -1
    else if FirstUsed(bs, i - 1) == -1 && bs[i - 1].val != Undef then i - 1
    else FirstUsed(bs, i - 1)
  }

  /** It is the place of the first value, if there is one. */
  lemma {:induction false} FirstUsedIs(bs: seq<Bucket>, i: nat)
    requires i <= |bs|
    ensures var r := FirstUsed(bs, i);
      if exists j :: 0 <= j < i && bs[j].val != Undef then 0 <= r < i && bs[r].val != Undef && forall j :: 0 <= j < r ==> bs[j].val == Undef
      else r == -1
  {
    if i > 0 {
      FirstUsedIs(bs, i - 1);
    }
  }

  predicate NoKeys(bs: seq<Bucket>, i: nat)
    requires i <= |bs|
  {
    forall j :: 0 <= j < i && bs[j].val != Undef ==> bs[j].key.None?
  }

  /** The copy of an array has its own next free index, position and key flag. */
  predicate Refreshed(n: Node, m: Node) {
    n.Table? && m.Table? ==>
      && m.nextFree == NextFree(n, |n.buckets|)
      && (n.buckets != [] ==> m.pos == FirstUsed(n.buckets, |n.buckets|) && m.hashSize == n.hashSize)
      && m.staticKeys == (n.buckets != [] && NoKeys(n.buckets, |n.buckets|))
  }

  predicate Done(h: Heap, a: int, mem: Heap, b: int, f: map<int, int>) {
    Copied(h, a, mem, b, f) && Refreshed(h[a], mem[b])
  }

  lemma DoneStays(h1: Heap, a: int, h2: Heap, h3: Heap, b: int, f: map<int, int>, g: map<int, int>)
    requires Done(h1, a, h2, b, f) && StringsKept(h2, h3) && b in h3 && h3[b] == h2[b] && Extends(f, g)
    ensures Done(h1, a, h3, b, g)
  {
    CopiedStays(h1, a, h2, h3, b, f, g);
  }

  /** The places of an array follow its head at once. */
  predicate DataBehind(p: int, n: Node) {
    n.Table? && n.buckets != [] ==> n.data == p + Aligned(TABLE_SIZE)
  }

  /** The block being filled: where it starts, the next free byte, the nodes in it, and which node was copied where. */
  datatype Block = Block(base: int, cur: int, mem: Heap, copies: map<int, int>)

  /** Byte `x` lies in the stretch of a node. */
  ghost predicate Covered(mem: Heap, x: int) {
    exists p {:trigger mem[p]} :: p in mem && p <= x < p + OwnSize(mem[p])
  }

  /** Every byte behind the entry is covered, and every node starts at a multiple of the alignment. */
  ghost predicate Dense(k: Block) {
    && (forall p {:trigger p in k.mem} :: p in k.mem ==> (p - k.base) % ALIGNMENT == 0)
    && (k.base + Aligned(ENTRY_SIZE) <= k.cur ==> (k.cur - k.base) % ALIGNMENT == 0)
    && (forall x {:trigger Covered(k.mem, x)} :: k.base + Aligned(ENTRY_SIZE) <= x < k.cur ==> Covered(k.mem, x))
  }

  /** The nodes in the block lie behind the entry without gap or overlap, and each holds one copy. */
  ghost predicate Laid(h: Heap, k: Block) {
    && Dense(k)
    && (forall p {:trigger p in k.mem} :: p in k.mem ==>
          k.base + Aligned(ENTRY_SIZE) <= p && 0 < OwnSize(k.mem[p]) && p + OwnSize(k.mem[p]) <= k.cur && DataBehind(p, k.mem[p]))
    && (forall p, q {:trigger p in k.mem, q in k.mem} :: p in k.mem && q in k.mem && p < q ==> p + OwnSize(k.mem[p]) <= q)
    && (forall a {:trigger a in k.copies} :: a in k.copies ==> a in h && k.copies[a] in k.mem)
    && Injective(k.copies)
  }

  /** `l` is `k` with more in it. */
  ghost predicate Later(k: Block, l: Block) {
    && k.base == l.base && k.cur <= l.cur && Extends(k.copies, l.copies)
    && (forall p {:trigger p in k.mem} {:trigger p in l.mem} :: p in k.mem ==> p in l.mem && l.mem[p] == k.mem[p])
    && (forall p {:trigger p in l.mem} :: p in l.mem && p !in k.mem ==> k.cur <= p)
  }

  /** What was copied between `k` and `l`, but for the node `but`, is copied in full. */
  ghost predicate Complete(h: Heap, k: Block, l: Block, but: set<int>) {
    forall a {:trigger a in l.copies} :: a in l.copies && a !in k.copies && a !in but ==> Done(h, a, l.mem, l.copies[a], l.copies)
  }

  lemma LaterTwice(j: Block, k: Block, l: Block)
    requires Later(j, k) && Later(k, l)
    ensures Later(j, l)
  {
  }

  lemma LaterStrings(k: Block, l: Block)
    requires Later(k, l)
    ensures StringsKept(k.mem, l.mem)
  {
  }

  lemma CompleteTwice(h: Heap, j: Block, k: Block, l: Block, but: set<int>)
    requires Laid(h, k) && Later(k, l) && Complete(h, j, k, but) && Complete(h, k, l, {})
    ensures Complete(h, j, l, but)
  {
    LaterStrings(k, l);
    forall a {:trigger a in l.copies} | a in l.copies && a !in j.copies && a !in but
      ensures Done(h, a, l.mem, l.copies[a], l.copies)
    {
      if a in k.copies {
        assert Done(h, a, k.mem, k.copies[a], k.copies);
        DoneStays(h, a, k.mem, l.mem, k.copies[a], k.copies, l.copies);
      }
    }
  }

  // ---------------------------------------------------------------- placing and filling nodes

  /** A node without an original of its own, such as a key. */
  function Placed(k: Block, n: Node): Block {
    k.(mem := k.mem[k.cur := n], cur := k.cur + OwnSize(n))
  }

  /** A node as the copy of `a`. */
  function PlacedFor(k: Block, n: Node, a: int): Block {
    Placed(k, n).(copies := k.copies[a := k.cur])
  }

  lemma PlacedLaid(h: Heap, k: Block, n: Node)
    requires Laid(h, k) && 0 < OwnSize(n) && DataBehind(k.cur, n) && k.base + Aligned(ENTRY_SIZE) <= k.cur
    ensures Laid(h, Placed(k, n)) && Later(k, Placed(k, n)) && k.cur !in k.mem
    ensures Complete(h, k, Placed(k, n), {})
  {
    hide OwnSize, Aligned, Dense;
    PlacedDense(k, n);
  }

  lemma PlacedDense(k: Block, n: Node)
    requires Dense(k) && 0 < OwnSize(n) && k.base + Aligned(ENTRY_SIZE) <= k.cur && k.cur !in k.mem
    ensures Dense(Placed(k, n))
  {
    hide OwnSize, Aligned;
    OwnSizeAligned(n);
    var l := Placed(k, n);
    forall x {:trigger Covered(l.mem, x)} | l.base + Aligned(ENTRY_SIZE) <= x < l.cur ensures Covered(l.mem, x) {
      if x < k.cur {
        assert Covered(k.mem, x);
        var p :| p in k.mem && p <= x < p + OwnSize(k.mem[p]);
        assert l.mem[p] == k.mem[p];
      } else {
        assert l.mem[k.cur] == n;
      }
    }
  }

  lemma OwnSizeAligned(n: Node)
    ensures OwnSize(n) % ALIGNMENT == 0
  {
  }

  lemma PlacedForLaid(h: Heap, k: Block, n: Node, a: int)
    requires Laid(h, k) && 0 < OwnSize(n) && DataBehind(k.cur, n) && a in h && a !in k.copies
    requires k.base + Aligned(ENTRY_SIZE) <= k.cur
    ensures Laid(h, PlacedFor(k, n, a)) && Later(k, PlacedFor(k, n, a)) && k.cur !in k.mem
    ensures Complete(h, k, PlacedFor(k, n, a), {a})
  {
    hide Laid, Later, Complete, OwnSize, Aligned, DataBehind;
    PlacedLaid(h, k, n);
    NotedLaid(h, k, Placed(k, n), a, k.cur);
  }

  /** Noting where the copy of `a` is. */
  lemma NotedLaid(h: Heap, k: Block, l: Block, a: int, p: int)
    requires Laid(h, k) && Laid(h, l) && Later(k, l) && k.copies == l.copies
    requires a in h && a !in k.copies && p in l.mem && p !in k.mem
    ensures var m := l.(copies := l.copies[a := p]); Laid(h, m) && Later(k, m) && Complete(h, k, m, {a})
  {
    hide OwnSize, Aligned, DataBehind, Done, Covered;
    assert forall b {:trigger b in k.copies} :: b in k.copies ==> k.copies[b] != p;
  }

  /** Overwriting the node at `p`, still in the making, leaves the rest as it is. */
  lemma Overwritten(h: Heap, j: Block, k: Block, p: int, n: Node, a: int)
    requires Laid(h, k) && Later(j, k) && Complete(h, j, k, {a})
    requires p in k.mem && p !in j.mem && OwnSize(n) == OwnSize(k.mem[p]) && DataBehind(p, n) && !k.mem[p].Str?
    requires a in k.copies && k.copies[a] == p
    ensures var l := k.(mem := k.mem[p := n]); Laid(h, l) && Later(j, l) && Complete(h, j, l, {a})
  {
    hide OwnSize, Aligned, DataBehind, Done, Dense;
    var l := k.(mem := k.mem[p := n]);
    OverwrittenDense(k, p, n);
    forall b {:trigger b in l.copies} | b in l.copies && b !in j.copies && b !in {a}
      ensures Done(h, b, l.mem, l.copies[b], l.copies)
    {
      assert Done(h, b, k.mem, k.copies[b], k.copies) && k.copies[b] != k.copies[a];
      DoneStays(h, b, k.mem, l.mem, k.copies[b], k.copies, l.copies);
    }
  }

  lemma OverwrittenDense(k: Block, p: int, n: Node)
    requires Dense(k) && p in k.mem && OwnSize(n) == OwnSize(k.mem[p])
    ensures Dense(k.(mem := k.mem[p := n]))
  {
    hide OwnSize, Aligned;
    var l := k.(mem := k.mem[p := n]);
    forall x {:trigger Covered(l.mem, x)} | l.base + Aligned(ENTRY_SIZE) <= x < l.cur ensures Covered(l.mem, x) {
      assert Covered(k.mem, x);
      var q :| q in k.mem && q <= x < q + OwnSize(k.mem[q]);
      assert q in l.mem && OwnSize(l.mem[q]) == OwnSize(k.mem[q]);
    }
  }

  // ---------------------------------------------------------------- the steps of filling an array

  /** Place `i` of the copy means what place `i` of the original does. */
  predicate CellCopied(h: Heap, b: Bucket, mem: Heap, c: Bucket, f: map<int, int>) {
    && CellOf(mem, c) == MapCell(CellOf(h, b), f)
    && (b.val.Ptr? ==> b.val.at in f)
    && (c.val != Undef && c.key.Some? ==> IsStr(mem, c.key.value))
  }

  /** The array at `p` is the copy of `a` in its first `i` places; the others still read as the original's. */
  ghost predicate Filling(h: Heap, k: Block, a: int, p: int, i: nat) {
    && a in h && h[a].Table? && a in k.copies && k.copies[a] == p && p in k.mem && k.mem[p].Table?
    && i <= |h[a].buckets| == |k.mem[p].buckets| && h[a].buckets != []
    && k.mem[p] == h[a].(data := p + Aligned(TABLE_SIZE), buckets := k.mem[p].buckets,
         nextFree := NextFree(h[a], i), pos := FirstUsed(h[a].buckets, i), staticKeys := NoKeys(h[a].buckets, i))
    && (forall j {:trigger k.mem[p].buckets[j]} :: 0 <= j < i ==> CellCopied(h, h[a].buckets[j], k.mem, k.mem[p].buckets[j], k.copies))
    && (forall j {:trigger k.mem[p].buckets[j]} :: i <= j < |h[a].buckets| ==> k.mem[p].buckets[j] == h[a].buckets[j])
  }

  lemma FillingStays(h: Heap, k: Block, l: Block, a: int, p: int, i: nat)
    requires Filling(h, k, a, p, i) && Later(k, l)
    ensures Filling(h, l, a, p, i)
  {
  }

  lemma FilledIsCopied(h: Heap, k: Block, a: int, p: int)
    requires a in h && h[a].Table? && Filling(h, k, a, p, |h[a].buckets|)
    ensures Done(h, a, k.mem, p, k.copies)
  {
    var bs, cs := h[a].buckets, k.mem[p].buckets;
    forall j | 0 <= j < |bs| ensures CellsOf(k.mem, cs)[j] == MapCells(CellsOf(h, bs), k.copies)[j] {
      assert CellCopied(h, bs[j], k.mem, cs[j], k.copies);
    }
    assert CellsOf(k.mem, cs) == MapCells(CellsOf(h, bs), k.copies);
    forall j | 0 <= j < |bs| && bs[j].val.Ptr? ensures bs[j].val.at in k.copies {
      assert CellCopied(h, bs[j], k.mem, cs[j], k.copies);
    }
    forall j | 0 <= j < |cs| && cs[j].val != Undef && cs[j].key.Some? ensures IsStr(k.mem, cs[j].key.value) {
      assert CellCopied(h, bs[j], k.mem, cs[j], k.copies);
    }
  }

  /** The node at `p` once place `i` has been copied too, as `c`. */
  function FillNext(h: Heap, k: Block, a: int, p: int, i: nat, c: Bucket): Node
    requires a in h && h[a].Table? && p in k.mem && k.mem[p].Table? && i < |h[a].buckets| == |k.mem[p].buckets|
  {
    k.mem[p].(buckets := k.mem[p].buckets[i := c], nextFree := NextFree(h[a], i + 1), pos := FirstUsed(h[a].buckets, i + 1),
      staticKeys := NoKeys(h[a].buckets, i + 1))
  }

  lemma FillNextFills(h: Heap, k: Block, a: int, p: int, i: nat, c: Bucket)
    requires Filling(h, k, a, p, i) && i < |h[a].buckets| && CellCopied(h, h[a].buckets[i], k.mem, c, k.copies)
    ensures Filling(h, k.(mem := k.mem[p := FillNext(h, k, a, p, i, c)]), a, p, i + 1)
    ensures OwnSize(FillNext(h, k, a, p, i, c)) == OwnSize(k.mem[p])
  {
  }

  /** Copying starts with the raw places of the original. */
  lemma FillStart(h: Heap, k: Block, a: int, n: Node)
    requires a in h && h[a].Table? && h[a].buckets != []
    requires n == h[a].(data := k.cur + Aligned(TABLE_SIZE), nextFree := 0, pos := -1, staticKeys := true)
    ensures Filling(h, PlacedFor(k, n, a), a, k.cur, 0)
  {
  }

  lemma WalkEnd(h: Heap, bs: seq<Bucket>, todo: set<int>)
    requires Closed(h) && forall j {:trigger bs[j]} :: 0 <= j < |bs| ==> ClosedBucket(h, bs[j])
    ensures WalkBuckets(h, bs, |bs|, todo) == Ok(todo, 0)
  {
  }

  lemma TableOwnSize(n: Node)
    requires n.Table?
    ensures OwnSize(n) == Aligned(TABLE_SIZE) + if n.buckets == [] then 0 else Aligned(UsedSize(n))
  {
  }

  lemma RefWalk(h: Heap, a: int, todo: set<int>)
    requires Closed(h) && a in h && a in todo && h[a].Ref?
    ensures ClosedVal(h, h[a].val) && h[a].val != Indirect
    ensures WalkVal(h, Ptr(a), todo) == Plus(WalkVal(h, h[a].val, todo - {a}), Aligned(REFERENCE_SIZE))
    ensures OwnSize(h[a]) == Aligned(REFERENCE_SIZE) && 0 < OwnSize(h[a])
  {
  }

  lemma LaterSelf(h: Heap, k: Block)
    ensures Later(k, k) && Complete(h, k, k, {})
  {
  }

  /** A reference is copied once its value is. */
  lemma RefCopied(h: Heap, j: Block, k: Block, l: Block, a: int, p: int, w: Val)
    requires a in h && h[a].Ref? && a !in j.copies && Laid(h, k) && Laid(h, l) && p !in j.mem
    requires Later(j, k) && Complete(h, j, k, {a}) && a in k.copies && k.copies[a] == p && p in k.mem
    requires k.mem[p] == h[a]
    requires Later(k, l) && Complete(h, k, l, {}) && w == MapVal(h[a].val, l.copies)
    requires (h[a].val.Ptr? ==> h[a].val.at in l.copies)
    ensures var m := l.(mem := l.mem[p := Ref(w)]); Laid(h, m) && Later(j, m) && Complete(h, j, m, {})
    ensures a in l.copies && l.copies[a] == p
  {
    hide Laid, Complete, Done;
    LaterTwice(j, k, l);
    CompleteTwice(h, j, k, l, {a});
    Overwritten(h, j, l, p, Ref(w), a);
    var m := l.(mem := l.mem[p := Ref(w)]);
    RefMatches(h, a, m.mem, p, m.copies);
    CompleteAll(h, j, m, a);
  }

  lemma RefMatches(h: Heap, a: int, mem: Heap, p: int, f: map<int, int>)
    requires a in h && h[a].Ref? && p in mem && mem[p] == Ref(MapVal(h[a].val, f))
    requires (h[a].val.Ptr? ==> h[a].val.at in f)
    ensures Done(h, a, mem, p, f)
  {
  }

  lemma CompleteAll(h: Heap, j: Block, m: Block, a: int)
    requires Complete(h, j, m, {a}) && a in m.copies && Done(h, a, m.mem, m.copies[a], m.copies)
    ensures Complete(h, j, m, {})
  {
  }

  /** A hole needs no copying. */
  lemma HoleFilled(h: Heap, k: Block, a: int, p: int, i: nat)
    requires Filling(h, k, a, p, i) && i < |h[a].buckets| && h[a].buckets[i].val == Undef
    ensures Filling(h, k, a, p, i + 1)
  {
  }

  lemma CompleteSteps(h: Heap, j: Block, k: Block, l: Block)
    requires Laid(h, k) && Later(k, l) && Complete(h, j, k, {}) && Complete(h, k, l, {})
    ensures Complete(h, j, l, {})
  {
    CompleteTwice(h, j, k, l, {});
  }

  lemma ValueCopied(h: Heap, k: Block, l: Block, b: Bucket, c: Bucket)
    requires Later(k, l) && b.val != Undef && c.val == MapVal(b.val, l.copies) && c.h == b.h
    requires (b.val.Ptr? ==> b.val.at in l.copies)
    requires ClosedBucket(h, b) && (b.key.None? <==> c.key.None?)
    requires c.key.Some? ==> IsStr(k.mem, c.key.value) && k.mem[c.key.value].text == h[b.key.value].text
    ensures CellCopied(h, b, l.mem, c, l.copies)
  {
  }

  lemma BucketDone(h: Heap, j: Block, k: Block, l: Block, a: int, p: int, i: nat, c: Bucket)
    requires Filling(h, k, a, p, i) && Laid(h, k) && Later(j, k) && Complete(h, j, k, {a})
    requires Laid(h, l) && Later(k, l) && Complete(h, k, l, {}) && p !in j.mem
    requires i < |h[a].buckets| && CellCopied(h, h[a].buckets[i], l.mem, c, l.copies)
    ensures p in l.mem && l.mem[p] == k.mem[p]
    ensures var m := l.(mem := l.mem[p := FillNext(h, l, a, p, i, c)]);
      Laid(h, m) && Later(j, m) && Complete(h, j, m, {a}) && Filling(h, m, a, p, i + 1)
  {
    hide Laid, Complete, Done, CellCopied;
    FillingStays(h, k, l, a, p, i);
    LaterTwice(j, k, l);
    CompleteTwice(h, j, k, l, {a});
    FillNextFills(h, l, a, p, i, c);
    Overwritten(h, j, l, p, FillNext(h, l, a, p, i, c), a);
  }

  lemma HoleWalks(h: Heap, b: Bucket, todo: set<int>)
    requires Closed(h) && ClosedBucket(h, b) && b.val == Undef
    ensures WalkOne(h, b, todo) == Ok(todo, 0)
  {
  }

  /** How the fields of an array in the making change with place `i`. */
  lemma FillNextIs(h: Heap, k: Block, a: int, p: int, i: nat)
    requires Filling(h, k, a, p, i) && i < |h[a].buckets| && h[a].buckets[i].val != Undef
    requires (h[a].packed ==> h[a].buckets[i].key.None?)
    ensures var n, b := k.mem[p], h[a].buckets[i];
      var pos := if n.pos == -1 then i else n.pos;
      var nextFree := if h[a].packed then (if i >= n.nextFree then i + 1 else n.nextFree)
        else if b.key.None? && b.h >= n.nextFree then b.h + 1 else n.nextFree;
      var staticKeys := n.staticKeys && (h[a].packed || b.key.None?);
      forall l: Block, c {:trigger FillNext(h, l, a, p, i, c)} :: p in l.mem && l.mem[p] == n ==>
        FillNext(h, l, a, p, i, c) == n.(buckets := n.buckets[i := c], nextFree := nextFree, pos := pos, staticKeys := staticKeys)
  {
  }

  lemma TableWalk(h: Heap, a: int, todo: set<int>)
    requires Closed(h) && a in h && a in todo && h[a].Table?
    ensures ClosedNode(h, h[a])
    ensures WalkVal(h, Ptr(a), todo) == Plus(WalkBuckets(h, h[a].buckets, 0, todo - {a}), OwnSize(h[a]))
    ensures h[a].buckets == [] ==> WalkVal(h, Ptr(a), todo) == Ok(todo - {a}, Aligned(TABLE_SIZE))
    ensures OwnSize(h[a]) == Aligned(TABLE_SIZE) + if h[a].buckets == [] then 0 else Aligned(UsedSize(h[a]))
  {
  }

  lemma EmptyCopied(h: Heap, j: Block, a: int, n: Node)
    requires Laid(h, j) && j.base + Aligned(ENTRY_SIZE) <= j.cur && a in h && a !in j.copies && h[a].Table?
    requires h[a].buckets == []
    requires n == h[a].(packed := false, hashSize := 0, data := 0, nextFree := 0, staticKeys := false)
    ensures var l := PlacedFor(j, n, a); Laid(h, l) && Later(j, l) && Complete(h, j, l, {}) && l.cur == j.cur + Aligned(TABLE_SIZE)
  {
    hide Laid, Complete;
    var l := PlacedFor(j, n, a);
    PlacedForLaid(h, j, n, a);
    assert CellsOf(l.mem, []) == MapCells(CellsOf(h, []), l.copies);
    assert Done(h, a, l.mem, j.cur, l.copies);
    CompleteAll(h, j, l, a);
  }

  lemma RawPlaced(h: Heap, j: Block, a: int, n: Node)
    requires Laid(h, j) && j.base + Aligned(ENTRY_SIZE) <= j.cur && a in h && a !in j.copies && h[a].Table?
    requires n == h[a].(data := j.cur + Aligned(TABLE_SIZE), nextFree := 0, pos := -1, staticKeys := true)
    ensures var l := PlacedFor(j, n, a); Laid(h, l) && Later(j, l) && Complete(h, j, l, {a}) && j.cur !in j.mem
    ensures PlacedFor(j, n, a).cur == j.cur + OwnSize(h[a])
  {
    hide Laid, Later, Complete, OwnSize, DataBehind;
    RawSize(h, j.cur, a, n);
    PlacedForLaid(h, j, n, a);
  }

  lemma RawSize(h: Heap, cur: int, a: int, n: Node)
    requires a in h && h[a].Table?
    requires n == h[a].(data := cur + Aligned(TABLE_SIZE), nextFree := 0, pos := -1, staticKeys := true)
    ensures 0 < OwnSize(n) == OwnSize(h[a]) && DataBehind(cur, n)
  {
  }

  lemma FillingNode(h: Heap, k: Block, a: int, p: int, i: nat)
    requires Filling(h, k, a, p, i)
    ensures a in h && h[a].Table? && p in k.mem && k.mem[p].Table? && |h[a].buckets| == |k.mem[p].buckets|
  {
  }

  lemma FilledDone(h: Heap, j: Block, l: Block, a: int, p: int)
    requires a in h && h[a].Table? && Filling(h, l, a, p, |h[a].buckets|) && Complete(h, j, l, {a})
    ensures Complete(h, j, l, {}) && a in l.copies && l.copies[a] == p
  {
    FilledIsCopied(h, l, a, p);
    CompleteAll(h, j, l, a);
  }

  /** What a value is persisted as. */
  datatype Persisted = Plain(val: Val) | Serialized(at: int)

  datatype Result = Failed | Stored(entry: int, key: int, val: Persisted, size: nat)

  function EntrySize(key: string): nat {
    Aligned(ENTRY_SIZE) + StrSize(key)
  }

  /** In which form a value is persisted: node by node, as text, or not at all. */
  datatype Form = Graphed | AsText(text: string) | Failure

  function Outgoing(h: Heap, v: Val, custom: bool, serialized: Option<string>): Form
    requires Closed(h) && ClosedVal(h, v) && v != Indirect
  {
    if (v.Ptr? && (h[v.at].Object? || (custom && h[v.at].Table?))) || WalkVal(h, v, h.Keys) == NeedSerialize then
      if serialized.Some? then AsText(serialized.value) else Failure
    else if WalkVal(h, v, h.Keys).Ok? then Graphed
    else Failure
  }

  /** The nodes that can be reached from a value that is persisted node by node. */
  function Reached(h: Heap, v: Val): set<int>
    requires Closed(h) && ClosedVal(h, v) && v != Indirect && WalkVal(h, v, h.Keys).Ok?
  {
    h.Keys - WalkVal(h, v, h.Keys).todo
  }

  function PersistedSize(h: Heap, key: string, v: Val, custom: bool, serialized: Option<string>): nat
    requires Closed(h) && ClosedVal(h, v) && v != Indirect
  {
    EntrySize(key) + match Outgoing(h, v, custom, serialized)
      case Graphed => WalkVal(h, v, h.Keys).bytes
      case AsText(text) => StrSize(text)
      case Failure => 0
  }

  /**
   A value is copied node by node exactly if nothing foreign can be reached from it and it is
   not an array that a serializer was set for; it goes as the text that serializing gave if it
   is such an array, or an object, and there is a text; and never as another text.
   */
  lemma FormIs(h: Heap, v: Val, custom: bool, serialized: Option<string>)
    requires Closed(h) && ClosedVal(h, v) && v != Indirect
    ensures var form := Outgoing(h, v, custom, serialized);
      && (form == Graphed <==>
            && !(v.Ptr? && h[v.at].Table? && custom)
            && exists d {:trigger Sealed(h, d)} :: Sealed(h, d) && (v.Ptr? ==> v.at in d) && Innocent(h, d))
      && (form.AsText? ==> serialized == Some(form.text))
      && (v.Ptr? && (h[v.at].Object? || (h[v.at].Table? && custom)) && serialized.Some? ==> form == AsText(serialized.value))
  {
    hide WalkVal, Closed, Sealed, Reached;
    if d :| Sealed(h, d) && (v.Ptr? ==> v.at in d) && Innocent(h, d) {
      GraphedUnlessForeign(h, v, d);
      RootInnocent(h, v, d);
    }
    if WalkVal(h, v, h.Keys).Ok? {
      SizeIsExact(h, v, {});
      RootInnocent(h, v, Reached(h, v));
    }
  }

  lemma RootInnocent(h: Heap, v: Val, d: set<int>)
    requires v.Ptr? ==> v.at in h && v.at in d
    requires Innocent(h, d)
    ensures v.Ptr? ==> !h[v.at].Object?
  {
  }

  /** Copying into a block without copies gives an isomorphic graph. */
  lemma CopyIsIsomorphic(h: Heap, v: Val, j: Block, k: Block, w: Val)
    requires Laid(h, k) && Later(j, k) && Complete(h, j, k, {}) && j.copies == map[]
    requires w == MapVal(v, k.copies) && (v.Ptr? ==> v.at in k.copies)
    ensures Isomorphic(h, v, k.mem, w, k.copies) && k.copies.Keys <= h.Keys
    ensures forall b: int :: Complete(h, Block(b, b, map[], map[]), k, {})
    ensures forall p {:trigger p in j.mem} :: p in j.mem ==> p in k.mem && k.mem[p] == j.mem[p]
  {
    forall a | a in k.copies.Keys ensures a in h.Keys {
      assert a in k.copies;
    }
  }

  lemma FormMeans(h: Heap, key: string, v: Val, custom: bool, serialized: Option<string>)
    requires Closed(h) && ClosedVal(h, v) && v != Indirect
    ensures var form := Outgoing(h, v, custom, serialized); var size := PersistedSize(h, key, v, custom, serialized);
      && (form == Graphed ==> WalkVal(h, v, h.Keys).Ok? && size == EntrySize(key) + WalkVal(h, v, h.Keys).bytes)
      && (form.AsText? ==> size == EntrySize(key) + StrSize(form.text))
  {
  }

  lemma ReachedIs(h: Heap, v: Val, d: set<int>)
    requires Closed(h) && ClosedVal(h, v) && v != Indirect && WalkVal(h, v, h.Keys).Ok? && d <= h.Keys
    ensures h.Keys - d == WalkVal(h, v, h.Keys).todo ==> d == Reached(h, v)
  {
  }

  /** Place `i` of an array is in use and has a key. */
  predicate HasKey(n: Node, i: nat)
    requires n.Table? && i < |n.buckets|
  {
    n.buckets[i].val != Undef && n.buckets[i].key.Some?
  }

  predicate Disjoint(mem: Heap, p: int, q: int)
    requires p in mem && q in mem
  {
    p + OwnSize(mem[p]) <= q || q + OwnSize(mem[q]) <= p
  }

  /**
   Self-containment: whatever the persisted value leads to, with its keys and the places
   of its arrays, lies in the block behind the entry, in places that do not overlap.
   */
  lemma SelfContained(h: Heap, v: Val, k: Block, w: Val, a: int, b: int)
    requires Laid(h, k) && Isomorphic(h, v, k.mem, w, k.copies) && a in k.copies && b in k.copies
    ensures var p, q := k.copies[a], k.copies[b];
      && k.base + Aligned(ENTRY_SIZE) <= p && p + OwnSize(k.mem[p]) <= k.cur
      && (k.mem[p].Table? && k.mem[p].buckets != [] ==>
            p < k.mem[p].data && k.mem[p].data + Aligned(UsedSize(k.mem[p])) == p + OwnSize(k.mem[p]))
      && Within(Image(k.copies), k.mem[p])
      && (a != b ==> Disjoint(k.mem, p, q))
    ensures var p, q := k.copies[a], k.copies[b];
      k.mem[p].Table? ==> forall i {:trigger HasKey(k.mem[p], i)} :: 0 <= i < |k.mem[p].buckets| && HasKey(k.mem[p], i) ==>
        var s := k.mem[p].buckets[i].key.value;
        && IsStr(k.mem, s) && k.base + Aligned(ENTRY_SIZE) <= s && s + OwnSize(k.mem[s]) <= k.cur
        && (s != q ==> Disjoint(k.mem, s, q))
  {
  }

  // ---------------------------------------------------------------- where the bytes go

  /** What a node consists of: its head, the characters of a string, the hash part of an array, and its places. */
  datatype Piece = Head | Chars | Hashes | Place(i: nat)

  /** Byte `x` belongs to this piece of the node at `p`. */
  predicate Has(n: Node, p: int, c: Piece, x: int) {
    match n
    case Str(text) =>
      || (c.Head? && p <= x < p + 24)
      || (c.Chars? && p + 24 <= x < p + 24 + |text| + 1)               // the final NUL included
    case Ref(_) => c.Head? && p <= x < p + 32
    case Table(packed, hashSize, _, bs, _, _, _) =>
      var w := if packed then 16 else 32;
      || (c.Head? && p <= x < p + 56)
      || (c.Hashes? && bs != [] && p + 56 <= x < p + 56 + hashSize)
      || (c.Place? && c.i < |bs| && p + 56 + hashSize + c.i * w <= x < p + 56 + hashSize + c.i * w + w)
    case _ => false
  }

  /**
   The bytes of a block: behind the 96 of the entry each belongs to one piece of one node at
   most, every piece is inside, and a byte that belongs to none follows one that does by less
   than eight.  Nodes are aligned, and an array's data is where its head says.
   */
  ghost predicate Arranged(k: Block) {
    && (forall p, c, x {:trigger Has(k.mem[p], p, c, x)} :: p in k.mem && Has(k.mem[p], p, c, x) ==> k.base + 96 <= x < k.cur)
    && (forall p, c, q, d, x {:trigger Has(k.mem[p], p, c, x), Has(k.mem[q], q, d, x)} ::
          p in k.mem && q in k.mem && Has(k.mem[p], p, c, x) && Has(k.mem[q], q, d, x) ==> p == q && c == d)
    && (forall x {:trigger Near(k, x)} :: k.base + 96 <= x < k.cur ==> Near(k, x))
    && (forall p {:trigger k.mem[p]} :: p in k.mem ==>
          && (p - k.base) % 8 == 0
          && (k.mem[p].Table? && k.mem[p].buckets != [] ==> k.mem[p].data == p + 56))
  }

  /** Byte `x` belongs to a piece, or follows one that does by less than eight. */
  ghost predicate Near(k: Block, x: int) {
    exists p, c, y {:trigger Has(k.mem[p], p, c, y)} :: p in k.mem && Has(k.mem[p], p, c, y) && y <= x < y + 8
  }

  lemma PieceInside(n: Node, p: int, c: Piece, x: int)
    requires Has(n, p, c, x)
    ensures p <= x < p + OwnSize(n)
  {
    if n.Table? && c.Place? {
      var w := if n.packed then 16 else 32;
      PlaceInside(c.i, |n.buckets|, w);
    }
  }

  lemma PlaceInside(i: nat, n: nat, w: nat)
    requires i < n
    ensures i * w + w <= n * w
  {
    assert (i + 1) * w <= n * w;
  }

  lemma OnePiece(n: Node, p: int, c: Piece, d: Piece, x: int)
    requires Has(n, p, c, x) && Has(n, p, d, x)
    ensures c == d
  {
    if c.Place? && d.Place? {
      PlacesApart(c.i, d.i, 16);
      PlacesApart(c.i, d.i, 32);
    }
  }

  lemma PlacesApart(i: nat, j: nat, w: nat)
    ensures i < j ==> i * w + w <= j * w
    ensures j < i ==> j * w + w <= i * w
  {
    if i < j {
      PlaceInside(i, j, w);
    } else if j < i {
      PlaceInside(j, i, w);
    }
  }

  /** The last byte that a node needs is near its end. */
  lemma PieceNear(n: Node, p: int, x: int) returns (c: Piece, y: int)
    requires 0 < OwnSize(n) && p <= x < p + OwnSize(n)
    ensures Has(n, p, c, y) && y <= x < y + 8
  {
    match n
    case Str(text) =>
      if x < p + 24 {
        c, y := Head, x;
      } else {
        c, y := Chars, if x < p + 24 + |text| + 1 then x else p + 24 + |text|;
      }
    case Ref(_) =>
      c, y := Head, x;
    case Table(packed, hashSize, _, bs, _, _, _) =>
      if x < p + 56 {
        c, y := Head, x;
      } else if x < p + 56 + hashSize {
        c, y := Hashes, x;
      } else {
        c, y := PlaceNear(n, p, x);
      }
  }

  lemma PlaceNear(n: Node, p: int, x: int) returns (c: Piece, y: int)
    requires n.Table? && n.buckets != [] && p + 56 + n.hashSize <= x < p + OwnSize(n)
    ensures Has(n, p, c, y) && y <= x < y + 8
  {
    var w := if n.packed then 16 else 32;
    var from, m := p + 56 + n.hashSize, |n.buckets|;
    if x < from + m * w {
      var i := (x - from) / w;
      Quotient(x - from, w, m);
      c, y := Place(i), x;
    } else {
      c, y := Place(m - 1), from + m * w - 1;
    }
  }

  lemma Quotient(x: int, w: int, m: nat)
    requires 0 <= x < m * w && 0 < w
    ensures 0 <= x / w < m && x / w * w <= x < x / w * w + w
  {
  }

  /** Nodes that are laid out behind each other have their pieces to themselves. */
  lemma LaidArranged(h: Heap, k: Block)
    requires Laid(h, k)
    ensures Arranged(k)
  {
    hide OwnSize, Has, Dense;
    forall p, c, x {:trigger Has(k.mem[p], p, c, x)} | p in k.mem && Has(k.mem[p], p, c, x)
      ensures k.base + 96 <= x < k.cur
    {
      PieceInside(k.mem[p], p, c, x);
    }
    forall p, c, q, d, x {:trigger Has(k.mem[p], p, c, x), Has(k.mem[q], q, d, x)} |
      p in k.mem && q in k.mem && Has(k.mem[p], p, c, x) && Has(k.mem[q], q, d, x)
      ensures p == q && c == d
    {
      PieceInside(k.mem[p], p, c, x);
      PieceInside(k.mem[q], q, d, x);
      if p == q {
        OnePiece(k.mem[p], p, c, d, x);
      }
    }
    DenseNear(h, k);
  }

  lemma DenseNear(h: Heap, k: Block)
    requires Laid(h, k)
    ensures forall x {:trigger Near(k, x)} :: k.base + 96 <= x < k.cur ==> Near(k, x)
    ensures forall p {:trigger k.mem[p]} :: p in k.mem ==> (p - k.base) % 8 == 0
  {
    hide OwnSize, Has;
    forall x {:trigger Near(k, x)} | k.base + 96 <= x < k.cur ensures Near(k, x) {
      assert Covered(k.mem, x);
      var p :| p in k.mem && p <= x < p + OwnSize(k.mem[p]);
      var c, y := PieceNear(k.mem[p], p, x);
    }
  }

  /**
   The size of a value persisted node by node is that of all nodes that can be reached:
   of the least set that holds the value and that no pointer leaves.
   */
  lemma SizeIsExact(h: Heap, v: Val, d: set<int>)
    requires Closed(h) && ClosedVal(h, v) && v != Indirect && WalkVal(h, v, h.Keys).Ok?
    ensures WalkVal(h, v, h.Keys).bytes == Total(h, Reached(h, v))
    ensures Sealed(h, Reached(h, v)) && (v.Ptr? ==> v.at in Reached(h, v)) && Innocent(h, Reached(h, v))
    ensures Sealed(h, d) && (v.Ptr? ==> v.at in d) ==> Reached(h, v) <= d
  {
    var todo := WalkVal(h, v, h.Keys).todo;
    WalkValCounts(h, v, h.Keys);
    forall a | a in h ensures Within(h.Keys, h[a]) {
      assert ClosedNode(h, h[a]);
      if h[a].Table? {
        assert forall i :: 0 <= i < |h[a].buckets| ==> ClosedBucket(h, h[a].buckets[i]);
      }
    }
    WalkValReaches(h, v, h.Keys, h.Keys);
    if Sealed(h, d) && (v.Ptr? ==> v.at in d) {
      WalkValReaches(h, v, h.Keys, d);
    }
  }

  /** A value falls back to text, or is refused, only if something foreign can be reached. */
  lemma GraphedUnlessForeign(h: Heap, v: Val, d: set<int>)
    requires Closed(h) && ClosedVal(h, v) && v != Indirect
    requires Sealed(h, d) && (v.Ptr? ==> v.at in d) && Innocent(h, d)
    ensures WalkVal(h, v, h.Keys).Ok?
  {
    WalkValReaches(h, v, h.Keys, d);
  }

  class Persister {
    const h: Heap                              // request memory
    var size: nat
    var counted: set<int>
    var useSerialization: bool
    var base: int                              // the block
    var cur: int                               // its next free byte
    var mem: Heap                              // what is in it
    var copies: map<int, int>

    constructor (h: Heap)
      ensures this.h == h && size == 0 && counted == {} && !useSerialization && copies == map[] && mem == map[]
    {
      this.h := h;
      size, counted, useSerialization := 0, {}, false;
      base, cur, mem, copies := 0, 0, map[], map[];
    }

    // ---------------------------------------------------------------- the size

    function Uncounted(): set<int>
      reads `counted
    {
      h.Keys - counted
    }

    method CalcVal(v: Val) returns (ok: bool)
      requires Closed(h) && ClosedVal(h, v) && v != Indirect && !useSerialization
      modifies `size, `counted, `useSerialization
      ensures var o := WalkVal(h, v, old(Uncounted()));
        && (ok <==> o.Ok?)
        && (ok ==> size == old(size) + o.bytes && Uncounted() == o.todo)
        && (useSerialization <==> o == NeedSerialize)
      decreases |Uncounted()|, 1
    {
      if !v.Ptr? {
        return true;
      }
      if v.at in counted {
        return true;
      }
      counted := counted + {v.at};
      assert Uncounted() == old(Uncounted()) - {v.at};
      assert ClosedNode(h, h[v.at]);
      match h[v.at]
      case Str(text) =>
        size := size + StrSize(text);
        ok := true;
      case Ref(w) =>
        size := size + Aligned(REFERENCE_SIZE);
        ok := CalcVal(w);
      case Table(_, _, _, _, _, _, _) =>
        ok := CalcTable(h[v.at]);
      case Object(_) =>
        useSerialization := true;
        ok := false;
      case Resource(_) =>
        ok := false;
    }

    method CalcBucket(b: Bucket) returns (ok: bool)
      requires Closed(h) && ClosedBucket(h, b) && !useSerialization
      modifies `size, `counted, `useSerialization
      ensures var o := WalkOne(h, b, old(Uncounted()));
        && (ok <==> o.Ok?)
        && (ok ==> size == old(size) + o.bytes && Uncounted() == o.todo)
        && (useSerialization <==> o == NeedSerialize)
      decreases |Uncounted()|, 2
    {
      if b.val == Undef {
        return true;
      }
      if b.val == Indirect {
        useSerialization := true;
        return false;
      }
      if b.key.Some? {
        size := size + StrSize(h[b.key.value].text);
      }
      ok := CalcVal(b.val);
    }

    method CalcTable(n: Node) returns (ok: bool)
      requires Closed(h) && n.Table? && ClosedNode(h, n) && !useSerialization
      modifies `size, `counted, `useSerialization
      ensures var o := WalkBuckets(h, n.buckets, 0, old(Uncounted()));
        && (ok <==> o.Ok?)
        && (ok ==> size == old(size) + OwnSize(n) + o.bytes && Uncounted() == o.todo)
        && (useSerialization <==> o == NeedSerialize)
      decreases |Uncounted()|, 3
    {
      hide WalkBuckets, WalkOne, Closed, Uncounted, Aligned, UsedSize, OwnSize;
      TableOwnSize(n);
      ghost var o := WalkBuckets(h, n.buckets, 0, Uncounted());
      ghost var bound := |Uncounted()|;
      size := size + Aligned(TABLE_SIZE);
      if |n.buckets| == 0 {
        WalkEnd(h, n.buckets, Uncounted());
        return true;
      }
      size := size + Aligned(UsedSize(n));
      ghost var before := size;
      var i := 0;
      while i < |n.buckets|
        invariant 0 <= i <= |n.buckets| && before <= size && !useSerialization && |Uncounted()| <= bound
        invariant o == Plus(WalkBuckets(h, n.buckets, i, Uncounted()), size - before)
      {
        WalkStep(h, n.buckets, i, Uncounted());
        ok := CalcBucket(n.buckets[i]);
        if !ok {
          return;
        }
        i := i + 1;
      }
      WalkEnd(h, n.buckets, Uncounted());
      ok := true;
    }

    // ---------------------------------------------------------------- the copy

    ghost function Filled(): Block
      reads this
    {
      Block(base, cur, mem, copies)
    }

    function Uncopied(): set<int>
      reads `copies
    {
      h.Keys - copies.Keys
    }

    ghost predicate Ready()
      reads this
    {
      Closed(h) && Laid(h, Filled()) && base + Aligned(ENTRY_SIZE) <= cur
    }

    /** What copying did: it used the bytes that were counted, and everything it placed is copied in full. */
    twostate predicate Advanced(o: Outcome)
      reads this
    {
      && o.Ok? && cur == old(cur) + o.bytes && Uncopied() == o.todo
      && Later(old(Filled()), Filled()) && Complete(h, old(Filled()), Filled(), {})
    }

    method Alloc(n: nat) returns (p: int)
      requires cur + Aligned(n) <= base + size
      modifies `cur
      ensures p == old(cur) && cur == old(cur) + Aligned(n)
    {
      p := cur;
      cur := cur + Aligned(n);
    }

    /** Places a string that no table of copies knows: a key. */
    method CopyText(text: string) returns (p: int)
      requires Ready() && cur + StrSize(text) <= base + size
      modifies `cur, `mem
      ensures Ready() && p == old(cur) && p !in old(mem) && Filled() == Placed(old(Filled()), Str(text))
      ensures Later(old(Filled()), Filled()) && Complete(h, old(Filled()), Filled(), {})
    {
      PlacedLaid(h, Filled(), Str(text));
      p := Alloc(STRING_HEADER + |text| + 1);
      mem := mem[p := Str(text)];
    }

    method CopyStr(a: int) returns (p: int)
      requires Ready() && a in Uncopied() && h[a].Str? && cur + OwnSize(h[a]) <= base + size
      modifies `cur, `mem, `copies
      ensures Ready() && Advanced(Ok(old(Uncopied()) - {a}, OwnSize(h[a])))
      ensures a in copies && p == copies[a]
    {
      ghost var k := Filled();
      PlacedForLaid(h, k, h[a], a);
      p := CopyText(h[a].text);
      copies := copies[a := p];
    }

    method CopyRef(a: int) returns (p: int)
      requires Ready() && a in Uncopied() && h[a].Ref?
      requires var o := WalkVal(h, Ptr(a), Uncopied()); o.Ok? && cur + o.bytes <= base + size
      modifies `cur, `mem, `copies
      ensures Ready() && Advanced(WalkVal(h, Ptr(a), old(Uncopied())))
      ensures a in copies && p == copies[a]
      decreases |Uncopied()|, 0
    {
      hide Laid, Later, Complete, Done, Aligned, WalkVal, Closed, MapVal;
      RefWalk(h, a, Uncopied());
      ghost var j := Filled();
      PlacedForLaid(h, j, h[a], a);
      p := Alloc(REFERENCE_SIZE);
      copies := copies[a := p];
      mem := mem[p := h[a]];
      ghost var k := Filled();
      assert k == PlacedFor(j, h[a], a);
      assert Uncopied() == old(Uncopied()) - {a};
      var w := CopyVal(h[a].val);
      ghost var l := Filled();
      RefCopied(h, j, k, l, a, p, w);
      mem := mem[p := Ref(w)];
      assert Filled() == l.(mem := l.mem[p := Ref(w)]);
    }

    method CopyVal(v: Val) returns (w: Val)
      requires Ready() && ClosedVal(h, v) && v != Indirect
      requires var o := WalkVal(h, v, Uncopied()); o.Ok? && cur + o.bytes <= base + size
      modifies `cur, `mem, `copies
      ensures Ready() && Advanced(WalkVal(h, v, old(Uncopied())))
      ensures w == MapVal(v, copies) && (v.Ptr? ==> v.at in copies)
      decreases |Uncopied()|, 1
    {
      hide Laid, Complete, Done, Aligned;
      LaterSelf(h, Filled());
      if !v.Ptr? {
        return v;
      }
      if v.at in copies {
        return Ptr(copies[v.at]);
      }
      var p;
      match h[v.at] {
        case Str(_) => p := CopyStr(v.at);
        case Ref(_) => p := CopyRef(v.at);
        case Table(_, _, _, _, _, _, _) => p := CopyTable(v.at);
      }
      w := Ptr(p);
    }

    /** Copies place `i` of the array `a` into its copy at `p`; `j` is the block before that copy was begun. */
    method CopyBucket(a: int, p: int, i: nat, ghost j: Block)
      requires Ready() && Later(j, Filled()) && Complete(h, j, Filled(), {a}) && p !in j.mem && a !in j.copies
      requires Filling(h, Filled(), a, p, i) && i < |h[a].buckets| && ClosedBucket(h, h[a].buckets[i])
      requires (h[a].packed ==> h[a].buckets[i].key.None?)
      requires var o := WalkOne(h, h[a].buckets[i], Uncopied()); o.Ok? && cur + o.bytes <= base + size
      modifies `cur, `mem, `copies
      ensures Ready() && Later(j, Filled()) && Complete(h, j, Filled(), {a}) && Filling(h, Filled(), a, p, i + 1)
      ensures var o := WalkOne(h, h[a].buckets[i], old(Uncopied())); cur == old(cur) + o.bytes && Uncopied() == o.todo
      decreases |Uncopied()|, 3
    {
      hide Laid, Later, Complete, Done, Aligned, Closed, CellCopied, WalkOne, FillNext, OwnSize, Filling;
      FillingNode(h, Filled(), a, p, i);
      var b := h[a].buckets[i];
      ghost var k := Filled();
      if b.val == Undef {
        HoleFilled(h, k, a, p, i);
        HoleWalks(h, b, Uncopied());
        return;
      }
      var c := CopyPlace(b);
      FillingStays(h, k, Filled(), a, p, i);
      BucketDone(h, j, k, Filled(), a, p, i, c);
      WritePlace(a, p, i, c);
    }

    /** Puts `c` into place `i` of the array at `p`, and brings its other fields up to date. */
    method WritePlace(a: int, p: int, i: nat, c: Bucket)
      requires Filling(h, Filled(), a, p, i) && i < |h[a].buckets| && h[a].buckets[i].val != Undef
      requires h[a].packed ==> h[a].buckets[i].key.None?
      modifies `mem
      ensures Filled() == old(Filled()).(mem := old(mem)[p := FillNext(h, old(Filled()), a, p, i, c)])
    {
      hide FillNext;
      FillNextIs(h, Filled(), a, p, i);
      var b, n := h[a].buckets[i], mem[p];
      var pos := if n.pos == -1 then i else n.pos;
      var nextFree, staticKeys := n.nextFree, n.staticKeys;
      if h[a].packed {
        if i >= nextFree {
          nextFree := i + 1;
        }
      } else if b.key.Some? {
        staticKeys := false;
      } else if b.h >= nextFree {
        nextFree := b.h + 1;
      }
      ghost var l := Filled();
      mem := mem[p := n.(buckets := n.buckets[i := c], nextFree := nextFree, pos := pos, staticKeys := staticKeys)];
      assert mem[p] == FillNext(h, l, a, p, i, c);
    }

    /** Copies the key and the value of a place in use. */
    method CopyPlace(b: Bucket) returns (c: Bucket)
      requires Ready() && ClosedBucket(h, b) && b.val != Undef
      requires var o := WalkOne(h, b, Uncopied()); o.Ok? && cur + o.bytes <= base + size
      modifies `cur, `mem, `copies
      ensures Ready() && Advanced(WalkOne(h, b, old(Uncopied()))) && CellCopied(h, b, mem, c, copies)
      decreases |Uncopied()|, 2
    {
      hide Laid, Later, Complete, Done, Aligned, Closed, CellCopied;
      ghost var k := Filled();
      LaterSelf(h, k);
      var key := None;
      if b.key.Some? {
        var q := CopyText(h[b.key.value].text);
        key := Some(q);
      }
      ghost var k1 := Filled();
      var w := CopyVal(b.val);
      c := Bucket(w, b.h, key);
      LaterTwice(k, k1, Filled());
      CompleteSteps(h, k, k1, Filled());
      ValueCopied(h, k1, Filled(), b, c);
    }

    method CopyTable(a: int) returns (p: int)
      requires Ready() && a in Uncopied() && h[a].Table?
      requires var o := WalkVal(h, Ptr(a), Uncopied()); o.Ok? && cur + o.bytes <= base + size
      modifies `cur, `mem, `copies
      ensures Ready() && Advanced(WalkVal(h, Ptr(a), old(Uncopied())))
      ensures a in copies && p == copies[a]
      decreases |Uncopied()|, 0
    {
      hide Laid, Later, Complete, Done, Aligned, WalkVal, WalkBuckets, WalkOne, Closed, OwnSize, UsedSize, Filling;
      TableWalk(h, a, Uncopied());
      ghost var j := Filled();
      if |h[a].buckets| == 0 {
        p := PlaceEmpty(a);
        return;
      }
      p := PlaceRaw(a);
      CopyPlaces(a, p, j);
      FilledDone(h, j, Filled(), a, p);
    }

    /** Places an empty array. */
    method PlaceEmpty(a: int) returns (p: int)
      requires Ready() && a in Uncopied() && h[a].Table? && h[a].buckets == []
      requires cur + Aligned(TABLE_SIZE) <= base + size
      modifies `cur, `mem, `copies
      ensures Ready() && Advanced(Ok(old(Uncopied()) - {a}, Aligned(TABLE_SIZE)))
      ensures a in copies && p == copies[a]
    {
      hide Laid, Later, Complete, Done, Aligned, Closed;
      ghost var j := Filled();
      p := Alloc(TABLE_SIZE);
      copies := copies[a := p];
      mem := mem[p := h[a].(packed := false, hashSize := 0, data := 0, nextFree := 0, staticKeys := false)];
      EmptyCopied(h, j, a, mem[p]);
      assert Filled() == PlacedFor(j, mem[p], a);
    }

    /** Places an array whose places are still the original's. */
    method PlaceRaw(a: int) returns (p: int)
      requires Ready() && a in Uncopied() && h[a].Table? && h[a].buckets != [] && cur + OwnSize(h[a]) <= base + size
      modifies `cur, `mem, `copies
      ensures Ready() && Later(old(Filled()), Filled()) && Complete(h, old(Filled()), Filled(), {a}) && p !in old(mem)
      ensures Filling(h, Filled(), a, p, 0)
      ensures cur == old(cur) + OwnSize(h[a]) && Uncopied() == old(Uncopied()) - {a}
    {
      hide Laid, Later, Complete, Done, Aligned, Closed, Filling, UsedSize;
      ghost var j := Filled();
      TableOwnSize(h[a]);
      p := Alloc(TABLE_SIZE);
      copies := copies[a := p];
      var data := Alloc(UsedSize(h[a]));
      mem := mem[p := h[a].(data := data, nextFree := 0, pos := -1, staticKeys := true)];
      FillStart(h, j, a, mem[p]);
      RawPlaced(h, j, a, mem[p]);
      assert Filled() == PlacedFor(j, mem[p], a);
    }

    /** Copies all places of an array. */
    method CopyPlaces(a: int, p: int, ghost j: Block)
      requires Ready() && Later(j, Filled()) && Complete(h, j, Filled(), {a}) && p !in j.mem && a !in j.copies
      requires Filling(h, Filled(), a, p, 0) && ClosedNode(h, h[a])
      requires var o := WalkBuckets(h, h[a].buckets, 0, Uncopied()); o.Ok? && cur + o.bytes <= base + size
      modifies `cur, `mem, `copies
      ensures Ready() && Later(j, Filled()) && Complete(h, j, Filled(), {a})
      ensures Filling(h, Filled(), a, p, |h[a].buckets|)
      ensures var o := WalkBuckets(h, h[a].buckets, 0, old(Uncopied())); cur == old(cur) + o.bytes && Uncopied() == o.todo
      decreases |Uncopied()|, 4
    {
      hide Laid, Later, Complete, Done, Aligned, WalkVal, WalkBuckets, WalkOne, Closed, NextFree, FirstUsed, NoKeys,
        CellCopied;
      ghost var o := WalkBuckets(h, h[a].buckets, 0, Uncopied());
      ghost var bound, before := |Uncopied()|, cur;
      var i := 0;
      while i < |h[a].buckets|
        invariant 0 <= i <= |h[a].buckets| && before <= cur && |Uncopied()| <= bound
        invariant Ready() && Later(j, Filled()) && Complete(h, j, Filled(), {a}) && Filling(h, Filled(), a, p, i)
        invariant o == Plus(WalkBuckets(h, h[a].buckets, i, Uncopied()), cur - before)
      {
        WalkStep(h, h[a].buckets, i, Uncopied());
        CopyBucket(a, p, i, j);
        i := i + 1;
      }
      WalkEnd(h, h[a].buckets, Uncopied());
    }

    // ---------------------------------------------------------------- the whole

    /** The size of an entry with its value, in one form or the other. */
    method Calc(key: string, v: Val, serialized: Option<string>) returns (ok: bool)
      requires Closed(h) && ClosedVal(h, v) && v != Indirect && counted == {}
      modifies `size, `counted, `useSerialization
      ensures old(useSerialization) ==> useSerialization && (ok <==> serialized.Some?)
      ensures old(useSerialization) && ok ==> size == EntrySize(key) + StrSize(serialized.value)
      ensures !old(useSerialization) ==> var o := WalkVal(h, v, h.Keys);
        && (ok <==> o.Ok?) && (ok ==> size == EntrySize(key) + o.bytes) && (useSerialization <==> o == NeedSerialize)
    {
      assert Uncounted() == h.Keys;
      size := Aligned(ENTRY_SIZE);
      size := size + StrSize(key);
      if useSerialization {
        ok := serialized.Some?;
        if ok {
          size := size + StrSize(serialized.value);
        }
      } else {
        ok := CalcVal(v);
      }
    }

    /**
     Persists an entry.  `custom` says whether a serializer is set, `serialized` is what
     serializing the value gives, and `alloc` what the allocator answers to a size.
     */
    method Run(key: string, v: Val, custom: bool, serialized: Option<string>, alloc: nat -> int) returns (r: Result)
      requires Closed(h) && ClosedVal(h, v) && v != Indirect && counted == {} && copies == map[] && mem == map[]
      requires !useSerialization
      modifies this
      ensures r.Failed? <==> Outgoing(h, v, custom, serialized) == Failure || alloc(PersistedSize(h, key, v, custom, serialized)) == 0
      ensures r.Stored? ==>
        && r.entry == base == alloc(r.size) && r.size == size == PersistedSize(h, key, v, custom, serialized)
        && cur == base + size && Laid(h, Filled()) && Arranged(Filled())
        && r.key in mem && mem[r.key] == Str(key)
        && (Outgoing(h, v, custom, serialized) == Graphed ==>
              && r.val.Plain? && Isomorphic(h, v, mem, r.val.val, copies) && copies.Keys == Reached(h, v)
              && Complete(h, Block(base, base, map[], map[]), Filled(), {}))
        && (Outgoing(h, v, custom, serialized).AsText? ==>
              r.val.Serialized? && r.val.at in mem && mem[r.val.at] == Str(Outgoing(h, v, custom, serialized).text))
    {
      hide WalkVal, Laid, Later, Complete, Done, Closed, Aligned, Isomorphic, Outgoing, Reached, PersistedSize,
        EntrySize, Arranged;
      FormMeans(h, key, v, custom, serialized);
      var ok := Measure(key, v, custom, serialized);
      if !ok {
        return Failed;
      }
      base := alloc(size);
      if base == 0 {
        return Failed;
      }
      if useSerialization {
        r := CopySerialized(key, serialized.value);
      } else {
        r := CopyGraph(key, v);
      }
      LaidArranged(h, Filled());
    }

    /** Computes the size, falling back to text where the value cannot be copied node by node. */
    method Measure(key: string, v: Val, custom: bool, serialized: Option<string>) returns (ok: bool)
      requires Closed(h) && ClosedVal(h, v) && v != Indirect && counted == {} && !useSerialization
      modifies `size, `counted, `useSerialization
      ensures var form := Outgoing(h, v, custom, serialized);
        && (ok <==> form != Failure)
        && (ok ==> size == PersistedSize(h, key, v, custom, serialized))
        && (ok ==> (if useSerialization then serialized.Some? && form == AsText(serialized.value) else form == Graphed))
    {
      hide WalkVal, Closed, Aligned, EntrySize;
      if v.Ptr? && (h[v.at].Object? || (custom && h[v.at].Table?)) {
        useSerialization := true;
      }
      ok := Calc(key, v, serialized);
      if !ok && useSerialization {
        size, counted := 0, {};
        ok := Calc(key, v, serialized);
      }
    }

    method CopySerialized(key: string, text: string) returns (r: Result)
      requires Closed(h) && mem == map[] && copies == map[] && size == EntrySize(key) + StrSize(text)
      modifies `cur, `mem
      ensures r.Stored? && r.entry == base && r.size == size && cur == base + size && Laid(h, Filled())
      ensures r.key in mem && mem[r.key] == Str(key)
      ensures r.val.Serialized? && r.val.at in mem && mem[r.val.at] == Str(text)
    {
      hide Laid, Later, Complete, Closed, Aligned;
      var k := CopyEntry(key);
      var at := CopyText(text);
      r := Stored(base, k, Serialized(at), size);
    }

    method CopyGraph(key: string, v: Val) returns (r: Result)
      requires Closed(h) && ClosedVal(h, v) && v != Indirect && mem == map[] && copies == map[]
      requires WalkVal(h, v, h.Keys).Ok? && size == EntrySize(key) + WalkVal(h, v, h.Keys).bytes
      modifies `cur, `mem, `copies
      ensures r.Stored? && r.entry == base && r.size == size && cur == base + size && Laid(h, Filled())
      ensures r.key in mem && mem[r.key] == Str(key)
      ensures r.val.Plain? && Isomorphic(h, v, mem, r.val.val, copies) && copies.Keys == Reached(h, v)
      ensures Complete(h, Block(base, base, map[], map[]), Filled(), {})
    {
      hide WalkVal, Laid, Later, Complete, Done, Closed, Aligned, Isomorphic, EntrySize, MapVal, Reached;
      var k := CopyEntry(key);
      assert Uncopied() == h.Keys;
      ghost var j := Filled();
      var w := CopyVal(v);
      CopyIsIsomorphic(h, v, j, Filled(), w);
      ReachedIs(h, v, copies.Keys);
      r := Stored(base, k, Plain(w), size);
    }

    /** Places the entry and its key. */
    method CopyEntry(key: string) returns (k: int)
      requires Closed(h) && mem == map[] && copies == map[] && EntrySize(key) <= size
      modifies `cur, `mem
      ensures Ready() && copies == map[] && mem == map[k := Str(key)] && cur == base + EntrySize(key)
    {
      cur := base;
      var _ := Alloc(ENTRY_SIZE);
      k := CopyText(key);
    }
  }
}
