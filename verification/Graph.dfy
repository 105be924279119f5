/**
 PHP values as graphs: strings, arrays, references and objects by address, with sharing
 and cycles, and what it means for one graph to be a copy of another.
 */
module Graph {
  import opened Collections

  /** A slot: empty, a value that fits in it, a pointer to another slot, or a counted node by address. */
  datatype Val = Undef | Scalar(id: int) | Indirect | Ptr(at: int)

  /** One place of an array; an `Undef` value makes it a hole. */
  datatype Bucket = Bucket(val: Val, h: int, key: Option<int>)

  datatype Node =
    | Str(text: string)
    | Table(packed: bool, hashSize: nat, data: int, buckets: seq<Bucket>, nextFree: int, pos: int, staticKeys: bool)
    | Ref(val: Val)
    | Object(id: int)
    | Resource(id: int)

  type Heap = map<int, Node>

  predicate IsStr(h: Heap, p: int) {
    p in h && h[p].Str?
  }

  predicate ClosedVal(h: Heap, v: Val) {
    v.Ptr? ==> v.at in h
  }

  /** The value and the key of a place in use lead to nodes; what a hole may still have as a key does not matter. */
  predicate ClosedBucket(h: Heap, b: Bucket) {
    ClosedVal(h, b.val) && (b.val != Undef && b.key.Some? ==> IsStr(h, b.key.value))
  }

  /** A node's pointers lead to nodes; packed arrays have neither keys nor indirect slots. */
  predicate ClosedNode(h: Heap, n: Node) {
    match n
    case Ref(v) => ClosedVal(h, v) && v != Indirect
    case Table(packed, _, _, bs, _, _, _) =>
      forall i {:trigger bs[i]} :: 0 <= i < |bs| ==> ClosedBucket(h, bs[i]) && (packed ==> bs[i].key.None? && bs[i].val != Indirect)
    case _ => true
  }

  predicate Closed(h: Heap) {
    forall p {:trigger h[p]} :: p in h ==> ClosedNode(h, h[p])
  }

  // ---------------------------------------------------------------- shapes

  /** What an array place means: nothing, or a key and a value. */
  datatype Cell = Hole | Cell(h: int, key: Option<string>, val: Val)

  /** What a node means, but for where its successors are. */
  datatype Shape = Text(text: string) | Cells(packed: bool, cells: seq<Cell>) | Alias(val: Val) | Opaque

  function TextAt(h: Heap, k: Option<int>): Option<string> {
    if k.Some? then (if IsStr(h, k.value) then Some(h[k.value].text) else None) else None
  }

  function CellOf(h: Heap, b: Bucket): Cell {
    if b.val == Undef then Hole else Cell(b.h, TextAt(h, b.key), b.val)
  }

  function CellsOf(h: Heap, bs: seq<Bucket>): (r: seq<Cell>)
    ensures |r| == |bs|
    ensures forall i {:trigger r[i]} {:trigger bs[i]} :: 0 <= i < |r| ==> r[i] == CellOf(h, bs[i])
  {
    seq(|bs|, i requires 0 <= i < |bs| => CellOf(h, bs[i]))
  }

  function ShapeOf(h: Heap, n: Node): Shape {
    match n
    case Str(text) => Text(text)
    case Table(packed, _, _, bs, _, _, _) => Cells(packed && bs != [], CellsOf(h, bs))
    case Ref(v) => Alias(v)
    case _ => Opaque
  }

  // ---------------------------------------------------------------- renaming

  function MapVal(v: Val, f: map<int, int>): Val {
    if v.Ptr? && v.at in f then Ptr(f[v.at]) else v
  }

  function MapCell(c: Cell, f: map<int, int>): Cell {
    if c.Hole? then Hole else c.(val := MapVal(c.val, f))
  }

  function MapCells(cs: seq<Cell>, f: map<int, int>): (r: seq<Cell>)
    ensures |r| == |cs|
    ensures forall i {:trigger r[i]} {:trigger cs[i]} :: 0 <= i < |r| ==> r[i] == MapCell(cs[i], f)
  {
    seq(|cs|, i requires 0 <= i < |cs| => MapCell(cs[i], f))
  }

  function MapShape(s: Shape, f: map<int, int>): Shape {
    match s
    case Cells(packed, cs) => Cells(packed, MapCells(cs, f))
    case Alias(v) => Alias(MapVal(v, f))
    case _ => s
  }

  /** The pointers of a node lead into `d`. */
  predicate Within(d: set<int>, n: Node) {
    match n
    case Ref(v) => v.Ptr? ==> v.at in d
    case Table(_, _, _, bs, _, _, _) => forall i {:trigger bs[i]} :: 0 <= i < |bs| && bs[i].val.Ptr? ==> bs[i].val.at in d
    case _ => true
  }

  /** The addresses a renaming leads to. */
  function Image(f: map<int, int>): set<int> {
    set a | a in f :: f[a]
  }

  predicate Injective(f: map<int, int>) {
    forall a, b {:trigger f[a], f[b]} :: a in f && b in f && a != b ==> f[a] != f[b]
  }

  predicate Extends(f: map<int, int>, g: map<int, int>) {
    forall a {:trigger a in f} {:trigger a in g} :: a in f ==> a in g && g[a] == f[a]
  }

  /** The keys of an array's places are strings of `h`. */
  predicate Keyed(h: Heap, n: Node) {
    n.Table? ==> forall i {:trigger n.buckets[i]} :: 0 <= i < |n.buckets| && n.buckets[i].val != Undef && n.buckets[i].key.Some? ==>
      IsStr(h, n.buckets[i].key.value)
  }

  /** The node `b` of `h2` is a copy of the node `a` of `h1`, successors renamed by `f`. */
  predicate Copied(h1: Heap, a: int, h2: Heap, b: int, f: map<int, int>) {
    && a in h1 && b in h2 && Within(f.Keys, h1[a]) && Keyed(h2, h2[b])
    && ShapeOf(h2, h2[b]) == MapShape(ShapeOf(h1, h1[a]), f)
  }

  /**
   `f` maps every node that can be reached from `v1` to one node of `h2`, different nodes
   to different ones, with the same keys, order, holes and values, and `v1` to `v2`.
   */
  ghost predicate Isomorphic(h1: Heap, v1: Val, h2: Heap, v2: Val, f: map<int, int>) {
    && (v1.Ptr? ==> v1.at in f) && v2 == MapVal(v1, f)
    && Injective(f)
    && forall a {:trigger a in f} :: a in f ==> Copied(h1, a, h2, f[a], f)
  }

  /** In `v2` stands what stands in `v1`, or the copy of what it points to. */
  predicate Corresponds(v1: Val, v2: Val, f: map<int, int>) {
    if v1.Ptr? then v1.at in f && v2 == Ptr(f[v1.at]) else v2 == v1
  }

  /**
   What a copy is, piece by piece: a string has the same text, a reference the value that
   corresponds, and an array as many places, packed or not, holes where there were holes,
   and elsewhere the same integer key, a string key with the same text if there was one,
   and the value that corresponds.
   */
  lemma CopiedMeans(h1: Heap, a: int, h2: Heap, b: int, f: map<int, int>)
    requires Copied(h1, a, h2, b, f)
    ensures a in h1 && b in h2
    ensures h1[a].Str? ==> h2[b] == h1[a]
    ensures h1[a].Ref? ==> h2[b].Ref? && Corresponds(h1[a].val, h2[b].val, f)
    ensures h1[a].Table? ==> h2[b].Table? && |h2[b].buckets| == |h1[a].buckets| && (h1[a].buckets != [] ==> h2[b].packed == h1[a].packed)
    ensures h1[a].Table? && (forall i {:trigger h1[a].buckets[i]} :: 0 <= i < |h1[a].buckets| ==> ClosedBucket(h1, h1[a].buckets[i])) ==>
      forall i {:trigger h1[a].buckets[i]} {:trigger h2[b].buckets[i]} :: 0 <= i < |h1[a].buckets| ==>
        PlaceCopied(h1, h1[a].buckets[i], h2, h2[b].buckets[i], f)
  {
    if h1[a].Table? {
      var bs, cs := h1[a].buckets, h2[b].buckets;
      var r := MapCells(CellsOf(h1, bs), f);
      assert CellsOf(h2, cs) == r && |cs| == |bs|;
      forall i {:trigger bs[i]} {:trigger cs[i]} | 0 <= i < |bs| && ClosedBucket(h1, bs[i])
        ensures PlaceCopied(h1, bs[i], h2, cs[i], f)
      {
        assert CellOf(h2, cs[i]) == CellsOf(h2, cs)[i] == r[i] == MapCell(CellOf(h1, bs[i]), f);
      }
    }
  }

  predicate PlaceCopied(h1: Heap, b: Bucket, h2: Heap, c: Bucket, f: map<int, int>) {
    if b.val == Undef then c.val == Undef
    else
      && c.val != Undef && c.h == b.h && Corresponds(b.val, c.val, f)
      && match b.key
         case None => c.key == None
         case Some(k) => c.key.Some? && IsStr(h1, k) && IsStr(h2, c.key.value) && h2[c.key.value].text == h1[k].text
  }

  ghost predicate StringsKept(g: Heap, h: Heap) {
    forall k {:trigger IsStr(g, k)} :: IsStr(g, k) ==> k in h && h[k] == g[k]
  }

  /** A copy stays one while more nodes are copied. */
  lemma CopiedStays(h1: Heap, a: int, h2: Heap, h3: Heap, b: int, f: map<int, int>, g: map<int, int>)
    requires Copied(h1, a, h2, b, f) && StringsKept(h2, h3) && b in h3 && h3[b] == h2[b] && Extends(f, g)
    ensures Copied(h1, a, h3, b, g)
  {
  }

  // ---------------------------------------------------------------- copies of copies

  function Compose(f: map<int, int>, g: map<int, int>): map<int, int> {
    map a | a in f && f[a] in g :: g[f[a]]
  }

  lemma CopiedTwice(h1: Heap, a: int, h2: Heap, h3: Heap, f: map<int, int>, g: map<int, int>)
    requires a in f && f[a] in g && Copied(h1, a, h2, f[a], f) && Copied(h2, f[a], h3, g[f[a]], g)
    ensures Copied(h1, a, h3, g[f[a]], Compose(f, g))
  {
  }

  /** Copying a copy gives a copy of the original. */
  lemma IsomorphicTwice(h1: Heap, v1: Val, h2: Heap, v2: Val, h3: Heap, v3: Val, f: map<int, int>, g: map<int, int>)
    requires Isomorphic(h1, v1, h2, v2, f) && Isomorphic(h2, v2, h3, v3, g)
    ensures Isomorphic(h1, v1, h3, v3, Compose(f, g))
  {
    hide Copied;
    var d := Compose(f, g);
    forall a {:trigger a in d} | a in d ensures Copied(h1, a, h3, d[a], d) {
      assert a in f && f[a] in g;
      CopiedTwice(h1, a, h2, h3, f, g);
    }
  }
}
