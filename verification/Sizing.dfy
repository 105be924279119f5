/** How many bytes a graph takes in one block: a walk over the nodes not yet counted. */
module Sizing {
  import opened Collections
  import opened Graph

  const ENTRY_SIZE: nat := 96
  const TABLE_SIZE: nat := 56
  const REFERENCE_SIZE: nat := 32
  const STRING_HEADER: nat := 24
  const BUCKET_SIZE: nat := 32
  const SLOT_SIZE: nat := 16
  const ALIGNMENT: nat := 8

  function Aligned(n: nat): (r: nat)
    ensures n <= r < n + ALIGNMENT && r % ALIGNMENT == 0
  {
    (n + ALIGNMENT - 1) / ALIGNMENT * ALIGNMENT
  }

  function StrSize(text: string): (r: nat)
    ensures r > 0
  {
    Aligned(STRING_HEADER + |text| + 1)
  }

  /** The hash part and the places of an array. */
  function UsedSize(n: Node): nat
    requires n.Table?
  {
    n.hashSize + |n.buckets| * if n.packed then SLOT_SIZE else BUCKET_SIZE
  }

  function KeySize(h: Heap, b: Bucket): nat {
    if b.val != Undef && b.key.Some? && IsStr(h, b.key.value) then StrSize(h[b.key.value].text) else 0
  }

  function KeysSize(h: Heap, bs: seq<Bucket>, i: nat): nat
    requires i <= |bs|
    decreases |bs| - i
  {
    if i == |bs| then 0 else KeySize(h, bs[i]) + KeysSize(h, bs, i + 1)
  }

  /** The bytes of one node, without its keys and successors. */
  function OwnSize(n: Node): nat {
    match n
    case Str(text) => StrSize(text)
    case Table(_, _, _, bs, _, _, _) => Aligned(TABLE_SIZE) + if bs == [] then 0 else Aligned(UsedSize(n))
    case Ref(_) => Aligned(REFERENCE_SIZE)
    case _ => 0
  }

  /** The bytes of one node with the copies of its keys. */
  function NodeSize(h: Heap, n: Node): nat {
    OwnSize(n) + if n.Table? then KeysSize(h, n.buckets, 0) else 0
  }

  // ---------------------------------------------------------------- the walk

  /** What is left to count and the bytes counted, or why the value cannot be copied as it is. */
  datatype Outcome = Ok(todo: set<int>, bytes: nat) | NeedSerialize | Refuse

  function Plus(o: Outcome, n: nat): Outcome {
    if o.Ok? then Ok(o.todo, o.bytes + n) else o
  }

  predicate Shrinks(o: Outcome, todo: set<int>) {
    o.Ok? ==> o.todo <= todo && |o.todo| <= |todo|
  }

  /** Counts what `v` leads to; `todo` has the nodes not counted before. */
  function WalkVal(h: Heap, v: Val, todo: set<int>): (o: Outcome)
    requires Closed(h) && ClosedVal(h, v) && v != Indirect
    ensures Shrinks(o, todo)
    decreases |todo|, 0
  {
    if !v.Ptr? || v.at !in todo then Ok(todo, 0)
    else
      match h[v.at]
      case Str(text) => Ok(todo - {v.at}, StrSize(text))
      case Ref(w) =>
        assert ClosedNode(h, h[v.at]);
        Plus(WalkVal(h, w, todo - {v.at}), Aligned(REFERENCE_SIZE))
      case Table(_, _, _, bs, _, _, _) =>
        assert ClosedNode(h, h[v.at]);
        Plus(WalkBuckets(h, bs, 0, todo - {v.at}), OwnSize(h[v.at]))
      case Object(_) => NeedSerialize
      case Resource(_) => Refuse
  }

  /** Counts what the places of an array from `i` on lead to, and their keys. */
  function WalkBuckets(h: Heap, bs: seq<Bucket>, i: nat, todo: set<int>): (o: Outcome)
    requires Closed(h) && i <= |bs| && forall j {:trigger bs[j]} :: 0 <= j < |bs| ==> ClosedBucket(h, bs[j])
    ensures Shrinks(o, todo)
    decreases |todo|, |bs| - i + 1
  {
    if i == |bs| then Ok(todo, 0)
    else if bs[i].val == Undef then WalkBuckets(h, bs, i + 1, todo)
    else if bs[i].val == Indirect then NeedSerialize
    else
      assert ClosedBucket(h, bs[i]);
      var o := WalkVal(h, bs[i].val, todo);
      if o.Ok? then Plus(WalkBuckets(h, bs, i + 1, o.todo), KeySize(h, bs[i]) + o.bytes) else o
  }

  /** Counts what one place of an array leads to, and its key. */
  function WalkOne(h: Heap, b: Bucket, todo: set<int>): (o: Outcome)
    requires Closed(h) && ClosedBucket(h, b)
    ensures Shrinks(o, todo)
  {
    if b.val == Undef then Ok(todo, 0)
    else if b.val == Indirect then NeedSerialize
    else Plus(WalkVal(h, b.val, todo), KeySize(h, b))
  }

  lemma WalkStep(h: Heap, bs: seq<Bucket>, i: nat, todo: set<int>)
    requires Closed(h) && i < |bs| && forall j {:trigger bs[j]} :: 0 <= j < |bs| ==> ClosedBucket(h, bs[j])
    ensures var o := WalkOne(h, bs[i], todo);
      WalkBuckets(h, bs, i, todo) == if o.Ok? then Plus(WalkBuckets(h, bs, i + 1, o.todo), o.bytes) else o
  {
  }

  // ---------------------------------------------------------------- the walk visits what can be reached

  /** A set of nodes that no pointer leaves. */
  ghost predicate Sealed(h: Heap, d: set<int>) {
    forall a {:trigger a in d} :: a in d && a in h ==> Within(d, h[a])
  }

  /** Something the copy cannot hold. */
  predicate Foreign(n: Node) {
    n.Object? || n.Resource? || (n.Table? && exists i :: 0 <= i < |n.buckets| && n.buckets[i].val == Indirect)
  }

  ghost predicate Innocent(h: Heap, d: set<int>) {
    forall a {:trigger a in d} :: a in d && a in h ==> !Foreign(h[a])
  }

  predicate BucketsWithin(d: set<int>, bs: seq<Bucket>, i: nat) {
    forall j {:trigger bs[j]} :: i <= j < |bs| && bs[j].val.Ptr? ==> bs[j].val.at in d
  }

  predicate NoIndirect(bs: seq<Bucket>, i: nat) {
    forall j {:trigger bs[j]} :: i <= j < |bs| ==> bs[j].val != Indirect
  }

  /**
   The nodes a walk counts lead to counted nodes only, and each of them is in every sealed
   set that holds the start: they are exactly the nodes that can be reached.  The walk
   fails only at something foreign among those.
   */
  lemma {:induction false} WalkValReaches(h: Heap, v: Val, todo: set<int>, d: set<int>)
    requires Closed(h) && ClosedVal(h, v) && v != Indirect && todo <= h.Keys
    requires Sealed(h, d) && (v.Ptr? ==> v.at in d)
    ensures var o := WalkVal(h, v, todo);
      if o.Ok? then
        && todo - o.todo <= d && (v.Ptr? ==> v.at !in o.todo) && Innocent(h, todo - o.todo)
        && forall a {:trigger a in o.todo} :: a in todo && a !in o.todo ==> Within(h.Keys - o.todo, h[a])
      else !Innocent(h, d * todo)
    decreases |todo|, 0
  {
    if v.Ptr? && v.at in todo {
      var n := h[v.at];
      assert ClosedNode(h, n);
      match n
      case Ref(w) =>
        WalkValReaches(h, w, todo - {v.at}, d);
        assert v.at in d;
        RefStep(h, v, todo, d);
      case Table(_, _, _, bs, _, _, _) =>
        assert v.at in d && Within(d, n);
        WalkBucketsReaches(h, bs, 0, todo - {v.at}, d);
        TableStep(h, v, todo, d);
      case _ =>
        assert v.at in d * todo;
    }
  }

  lemma RefStep(h: Heap, v: Val, todo: set<int>, d: set<int>)
    requires Closed(h) && ClosedVal(h, v) && v.Ptr? && v.at in todo && v.at in d && todo <= h.Keys && h[v.at].Ref?
    requires h[v.at].val != Indirect
    requires ClosedVal(h, h[v.at].val)
    requires var w := h[v.at].val; var o := WalkVal(h, w, todo - {v.at});
      if o.Ok? then
        && todo - {v.at} - o.todo <= d && (w.Ptr? ==> w.at !in o.todo) && Innocent(h, todo - {v.at} - o.todo)
        && forall a {:trigger a in o.todo} :: a in todo - {v.at} && a !in o.todo ==> Within(h.Keys - o.todo, h[a])
      else !Innocent(h, d * (todo - {v.at}))
    ensures var o := WalkVal(h, v, todo);
      if o.Ok? then
        && todo - o.todo <= d && (v.Ptr? ==> v.at !in o.todo) && Innocent(h, todo - o.todo)
        && forall a {:trigger a in o.todo} :: a in todo && a !in o.todo ==> Within(h.Keys - o.todo, h[a])
      else !Innocent(h, d * todo)
  {
    var o := WalkVal(h, v, todo);
    if o.Ok? {
      assert forall a :: a in todo - o.todo ==> a == v.at || a in todo - {v.at} - o.todo;
    } else {
      var a :| a in d * (todo - {v.at}) && a in h && Foreign(h[a]);
      assert a in d * todo;
    }
  }

  lemma TableStep(h: Heap, v: Val, todo: set<int>, d: set<int>)
    requires Closed(h) && ClosedVal(h, v) && v.Ptr? && v.at in todo && v.at in d && todo <= h.Keys && h[v.at].Table?
    requires ClosedNode(h, h[v.at])
    requires var bs := h[v.at].buckets; var o := WalkBuckets(h, bs, 0, todo - {v.at});
      if o.Ok? then
        && todo - {v.at} - o.todo <= d && BucketsWithin(h.Keys - o.todo, bs, 0) && NoIndirect(bs, 0) && Innocent(h, todo - {v.at} - o.todo)
        && forall a {:trigger a in o.todo} :: a in todo - {v.at} && a !in o.todo ==> Within(h.Keys - o.todo, h[a])
      else !NoIndirect(bs, 0) || !Innocent(h, d * (todo - {v.at}))
    ensures var o := WalkVal(h, v, todo);
      if o.Ok? then
        && todo - o.todo <= d && (v.Ptr? ==> v.at !in o.todo) && Innocent(h, todo - o.todo)
        && forall a {:trigger a in o.todo} :: a in todo && a !in o.todo ==> Within(h.Keys - o.todo, h[a])
      else !Innocent(h, d * todo)
  {
    var n := h[v.at];
    var o := WalkVal(h, v, todo);
    if o.Ok? {
      assert Within(h.Keys - o.todo, n);
      assert !Foreign(n);
      assert forall a :: a in todo - o.todo ==> a == v.at || a in todo - {v.at} - o.todo;
    } else if NoIndirect(n.buckets, 0) {
      var a :| a in d * (todo - {v.at}) && a in h && Foreign(h[a]);
      assert a in d * todo;
    } else {
      assert v.at in d * todo && Foreign(n);
    }
  }

  lemma {:induction false} WalkBucketsReaches(h: Heap, bs: seq<Bucket>, i: nat, todo: set<int>, d: set<int>)
    requires Closed(h) && i <= |bs| && todo <= h.Keys
    requires forall j {:trigger bs[j]} :: 0 <= j < |bs| ==> ClosedBucket(h, bs[j])
    requires Sealed(h, d) && BucketsWithin(d, bs, i)
    ensures var o := WalkBuckets(h, bs, i, todo);
      if o.Ok? then
        && todo - o.todo <= d && BucketsWithin(h.Keys - o.todo, bs, i) && NoIndirect(bs, i) && Innocent(h, todo - o.todo)
        && forall a {:trigger a in o.todo} :: a in todo && a !in o.todo ==> Within(h.Keys - o.todo, h[a])
      else !NoIndirect(bs, i) || !Innocent(h, d * todo)
    decreases |todo|, |bs| - i + 1
  {
    if i < |bs| {
      if bs[i].val == Undef {
        WalkBucketsReaches(h, bs, i + 1, todo, d);
      } else if bs[i].val != Indirect {
        WalkValReaches(h, bs[i].val, todo, d);
        var p := WalkVal(h, bs[i].val, todo);
        if p.Ok? {
          WalkBucketsReaches(h, bs, i + 1, p.todo, d);
          var o := WalkBuckets(h, bs, i + 1, p.todo);
          if o.Ok? {
            WithinMore(h, todo, p.todo, o.todo);
          } else if NoIndirect(bs, i) {
            var a :| a in d * p.todo && a in h && Foreign(h[a]);
            assert a in d * todo;
          }
        }
      }
    }
  }

  /** What was counted before stays counted. */
  lemma WithinMore(h: Heap, todo: set<int>, mid: set<int>, rest: set<int>)
    requires rest <= mid <= todo <= h.Keys && Innocent(h, todo - mid) && Innocent(h, mid - rest)
    requires forall a {:trigger a in mid} :: a in todo && a !in mid ==> Within(h.Keys - mid, h[a])
    requires forall a {:trigger a in rest} :: a in mid && a !in rest ==> Within(h.Keys - rest, h[a])
    ensures Innocent(h, todo - rest)
    ensures forall a {:trigger a in rest} :: a in todo && a !in rest ==> Within(h.Keys - rest, h[a])
  {
    forall a {:trigger a in rest} | a in todo && a !in rest ensures Within(h.Keys - rest, h[a]) && !Foreign(h[a]) {
      if a in mid {
        assert a in mid - rest;
      } else {
        assert a in todo - mid && Within(h.Keys - mid, h[a]);
      }
    }
  }

  // ---------------------------------------------------------------- the bytes are those of the nodes visited

  lemma NotEmpty(d: set<int>)
    requires d != {}
    ensures exists a :: a in d
  {
    assert (forall a :: a !in d) ==> d == {};
  }

  /** The bytes of a set of nodes, with their keys. */
  ghost function Total(h: Heap, d: set<int>): nat {
    if d == {} then 0
    else
      NotEmpty(d);
      var a :| a in d;
      (if a in h then NodeSize(h, h[a]) else 0) + Total(h, d - {a})
  }

  lemma {:induction false} TotalPick(h: Heap, d: set<int>, a: int)
    requires a in d && a in h
    ensures Total(h, d) == NodeSize(h, h[a]) + Total(h, d - {a})
    decreases |d|
  {
    var b :| b in d && Total(h, d) == (if b in h then NodeSize(h, h[b]) else 0) + Total(h, d - {b});
    if a != b {
      TotalPick(h, d - {b}, a);
      assert d - {b} - {a} == d - {a} - {b};
      if b in h {
        TotalPick(h, d - {a}, b);
      } else {
        TotalSkip(h, d - {a}, b);
      }
    }
  }

  lemma {:induction false} TotalSkip(h: Heap, d: set<int>, a: int)
    requires a in d && a !in h
    ensures Total(h, d) == Total(h, d - {a})
    decreases |d|
  {
    hide NodeSize;
    var b :| b in d && Total(h, d) == (if b in h then NodeSize(h, h[b]) else 0) + Total(h, d - {b});
    if a != b {
      TotalSkip(h, d - {b}, a);
      assert d - {b} - {a} == d - {a} - {b};
      if b in h {
        TotalPick(h, d - {a}, b);
      } else {
        TotalSkip(h, d - {a}, b);
      }
    }
  }

  lemma {:induction false} TotalJoin(h: Heap, d: set<int>, e: set<int>)
    requires d !! e && d <= h.Keys
    ensures Total(h, d + e) == Total(h, d) + Total(h, e)
    decreases |d|
  {
    if d == {} {
      assert d + e == e;
    } else {
      NotEmpty(d);
      var a :| a in d;
      TotalPick(h, d, a);
      TotalPick(h, d + e, a);
      assert d + e - {a} == (d - {a}) + e;
      TotalJoin(h, d - {a}, e);
    }
  }

  /** The bytes a walk counts are those of the nodes it visits: of everything that can be reached. */
  lemma {:induction false} WalkValCounts(h: Heap, v: Val, todo: set<int>)
    requires Closed(h) && ClosedVal(h, v) && v != Indirect && todo <= h.Keys
    ensures var o := WalkVal(h, v, todo); o.Ok? ==> o.bytes == Total(h, todo - o.todo)
    decreases |todo|, 0
  {
    var o := WalkVal(h, v, todo);
    if !v.Ptr? || v.at !in todo {
      assert todo - todo == {};
    } else {
      var n, rest := h[v.at], todo - {v.at};
      assert ClosedNode(h, n);
      if n.Ref? {
        WalkValCounts(h, n.val, rest);
      } else if n.Table? {
        WalkBucketsCounts(h, n.buckets, 0, rest);
      } else {
        assert rest - rest == {};
      }
      if o.Ok? {
        assert todo - o.todo - {v.at} == rest - o.todo;
        TotalPick(h, todo - o.todo, v.at);
      }
    }
  }

  lemma {:induction false} WalkBucketsCounts(h: Heap, bs: seq<Bucket>, i: nat, todo: set<int>)
    requires Closed(h) && i <= |bs| && todo <= h.Keys
    requires forall j {:trigger bs[j]} :: 0 <= j < |bs| ==> ClosedBucket(h, bs[j])
    ensures var o := WalkBuckets(h, bs, i, todo); o.Ok? ==> o.bytes == KeysSize(h, bs, i) + Total(h, todo - o.todo)
    decreases |todo|, |bs| - i + 1
  {
    if i == |bs| {
      assert todo - todo == {};
    } else if bs[i].val == Undef {
      WalkBucketsCounts(h, bs, i + 1, todo);
    } else if bs[i].val != Indirect {
      assert ClosedBucket(h, bs[i]);
      WalkValCounts(h, bs[i].val, todo);
      var p := WalkVal(h, bs[i].val, todo);
      if p.Ok? {
        WalkBucketsCounts(h, bs, i + 1, p.todo);
        var o := WalkBuckets(h, bs, i + 1, p.todo);
        if o.Ok? {
          assert todo - o.todo == (todo - p.todo) + (p.todo - o.todo);
          TotalJoin(h, todo - p.todo, p.todo - o.todo);
        }
      }
    }
  }
}
