/**
 The cache in memory: entries and their `next` pointers by address, and the heads of the
 lists they form.  List `s` is the chain of slot `s`; the list after the last slot is
 that of the removed entries which are still referenced.
 */
module CacheLayout {
  import opened CacheTable
  import opened Collections
  import opened SmaAllocator

  datatype View = View(heads: seq<int>, entries: map<int, Entry>, next: map<int, int>, lists: seq<seq<int>>)

  /** The `j`-th address of a list, or the null that ends it. */
  function At(c: seq<int>, j: nat): int {
    if j < |c| then c[j] else NULL
  }

  predicate Placed(v: View, p: int) {
    p != NULL && p in v.entries && p in v.next && v.entries[p].at == p
  }

  /** The `next` pointers from `head` run through the addresses `c`. */
  ghost predicate Linked(v: View, c: seq<int>, head: int) {
    && head == At(c, 0)
    && (forall j {:trigger c[j]} :: 0 <= j < |c| ==> Placed(v, c[j]))
    && (forall j {:trigger v.next[c[j]]} :: 0 <= j < |c| ==> v.next[c[j]] == At(c, j + 1))
  }

  ghost predicate Shaped(v: View) {
    && 0 < |v.lists| == |v.heads|
    && forall s {:trigger v.lists[s]} :: 0 <= s < |v.lists| ==> Linked(v, v.lists[s], v.heads[s])
  }

  predicate InList(v: View, s: int, j: int) {
    0 <= s < |v.lists| && 0 <= j < |v.lists[s]|
  }

  /** No address is linked twice. */
  ghost predicate Apart(v: View) {
    forall s, i, x, y {:trigger v.lists[s][i], v.lists[x][y]} ::
      InList(v, s, i) && InList(v, x, y) && v.lists[s][i] == v.lists[x][y] ==> s == x && i == y
  }

  ghost predicate Unlinked(v: View, p: int) {
    forall s, j {:trigger v.lists[s][j]} :: InList(v, s, j) ==> v.lists[s][j] != p
  }

  // ---------------------------------------------------------------- the table in memory

  ghost function EntriesOf(c: seq<int>, m: map<int, Entry>): (r: Chain)
    requires forall j {:trigger c[j]} :: 0 <= j < |c| ==> c[j] in m
    ensures |r| == |c|
    ensures forall j {:trigger r[j]} :: 0 <= j < |c| ==> r[j] == m[c[j]]
  {
    seq(|c|, j requires 0 <= j < |c| => m[c[j]])
  }

  /** The contents of every list. */
  ghost function Contents(v: View): (r: seq<Chain>)
    requires Shaped(v)
    ensures |r| == |v.lists|
    ensures forall s {:trigger r[s]} :: 0 <= s < |r| ==> r[s] == EntriesOf(v.lists[s], v.entries)
  {
    seq(|v.lists|, s requires 0 <= s < |v.lists| => EntriesOf(v.lists[s], v.entries))
  }

  ghost function TableOf(v: View, count: int, mem: int): (t: Table)
    requires Shaped(v)
    ensures |t.slots| == |v.lists| - 1
  {
    var n := |v.lists| - 1;
    Table(Contents(v)[..n], Contents(v)[n], count, mem)
  }

  // ---------------------------------------------------------------- steps on memory

  /** The pointer to position `j` of list `s` now holds `p`. */
  function Pointed(v: View, s: nat, j: nat, p: int): View
    requires s < |v.lists| == |v.heads| && j <= |v.lists[s]|
  {
    if j == 0 then v.(heads := v.heads[s := p]) else v.(next := v.next[v.lists[s][j - 1] := p])
  }

  /** Position `j` of list `s` is taken out of the list. */
  function Unlink(v: View, s: nat, j: nat): View
    requires |v.lists| == |v.heads| && InList(v, s, j) && v.lists[s][j] in v.next
  {
    Pointed(v, s, j, v.next[v.lists[s][j]]).(lists := v.lists[s := Drop(v.lists[s], j)])
  }

  /** The entry at `p` is linked before position `j` of list `s`. */
  function Link(v: View, s: nat, j: nat, p: int): View
    requires s < |v.lists| == |v.heads| && j <= |v.lists[s]|
  {
    var u := v.(next := v.next[p := At(v.lists[s], j)]);
    Pointed(u, s, j, p).(lists := v.lists[s := v.lists[s][..j] + [p] + v.lists[s][j..]])
  }

  /** The memory of the entry at `p` is given up. */
  function Forget(v: View, p: int): View {
    v.(entries := v.entries - {p}, next := v.next - {p})
  }

  function Put(v: View, p: int, e: Entry): View {
    v.(entries := v.entries[p := e])
  }

  // ---------------------------------------------------------------- the steps keep the shape

  /** A list whose entries and pointers are untouched is still a list. */
  lemma LinkedFrame(v: View, u: View, c: seq<int>, head: int)
    requires Linked(v, c, head) && v.entries == u.entries
    requires forall j {:trigger c[j]} :: 0 <= j < |c| ==> c[j] in u.next && u.next[c[j]] == v.next[c[j]]
    ensures Linked(u, c, head)
  {
  }

  lemma LinkedWithout(v: View, c: seq<int>, head: int, j: nat, u: View, newHead: int)
    requires Linked(v, c, head) && j < |c| && v.entries == u.entries
    requires forall y, z {:trigger c[y], c[z]} :: 0 <= y < z < |c| ==> c[y] != c[z]
    requires if j == 0 then newHead == At(c, 1) && u.next == v.next else newHead == head && u.next == v.next[c[j - 1] := At(c, j + 1)]
    ensures Linked(u, Drop(c, j), newHead)
  {
  }

  lemma LinkedWith(v: View, c: seq<int>, head: int, j: nat, p: int, u: View, newHead: int)
    requires Linked(v, c, head) && j <= |c| && v.entries == u.entries && p !in c && p != NULL && p in v.entries
    requires v.entries[p].at == p
    requires forall y, z {:trigger c[y], c[z]} :: 0 <= y < z < |c| ==> c[y] != c[z]
    requires var n := v.next[p := At(c, j)];
      if j == 0 then newHead == p && u.next == n else newHead == head && u.next == n[c[j - 1] := p]
    ensures Linked(u, c[..j] + [p] + c[j..], newHead)
  {
    var d := c[..j] + [p] + c[j..];
    forall y | 0 <= y < |d| ensures Placed(u, d[y]) && u.next[d[y]] == At(d, y + 1) {
      var z := if y > j then y - 1 else y;
      if y != j {
        assert d[y] == c[z] && v.next[c[z]] == At(c, z + 1);
      }
    }
  }

  lemma ApartWithin(v: View, s: nat)
    requires Apart(v) && s < |v.lists|
    ensures forall y, z {:trigger v.lists[s][y], v.lists[s][z]} :: 0 <= y < z < |v.lists[s]| ==> v.lists[s][y] != v.lists[s][z]
  {
  }

  lemma UnlinkShaped(v: View, s: nat, j: nat)
    requires Shaped(v) && Apart(v) && InList(v, s, j)
    ensures Placed(v, v.lists[s][j]) && Shaped(Unlink(v, s, j))
  {
    assert Linked(v, v.lists[s], v.heads[s]);
    assert v.next[v.lists[s][j]] == At(v.lists[s], j + 1);
    var u := Unlink(v, s, j);
    forall x {:trigger u.lists[x]} | 0 <= x < |u.lists| ensures Linked(u, u.lists[x], u.heads[x]) {
      assert Linked(v, v.lists[x], v.heads[x]);
      if x == s {
        ApartWithin(v, s);
        LinkedWithout(v, v.lists[s], v.heads[s], j, u, u.heads[s]);
      } else {
        forall y {:trigger v.lists[x][y]} | InList(v, x, y) ensures j > 0 ==> v.lists[x][y] != v.lists[s][j - 1] {
        }
        LinkedFrame(v, u, v.lists[x], v.heads[x]);
      }
    }
  }

  lemma UnlinkApart(v: View, s: nat, j: nat)
    requires |v.lists| == |v.heads| && Apart(v) && InList(v, s, j) && v.lists[s][j] in v.next
    ensures Apart(Unlink(v, s, j)) && Unlinked(Unlink(v, s, j), v.lists[s][j])
  {
  }

  lemma UnlinkContents(v: View, s: nat, j: nat)
    requires Shaped(v) && InList(v, s, j) && Placed(v, v.lists[s][j]) && Shaped(Unlink(v, s, j))
    ensures Contents(Unlink(v, s, j)) == Contents(v)[s := Drop(Contents(v)[s], j)]
    ensures Contents(v)[s][j] == v.entries[v.lists[s][j]]
  {
    hide Linked;
    var a, b := Contents(v), Contents(Unlink(v, s, j));
    assert Linked(v, v.lists[s], v.heads[s]);
    assert b[s] == Drop(a[s], j) by {
      SlotContents(v, s);
      SlotContents(Unlink(v, s, j), s);
    }
    forall x {:trigger b[x]} | 0 <= x < |b| ensures b[x] == a[s := Drop(a[s], j)][x] {
      assert a[x] == Contents(v)[x];
    }
    SlotContents(v, s);
  }

  lemma SlotContents(v: View, s: nat)
    requires Shaped(v) && s < |v.lists|
    ensures |Contents(v)[s]| == |v.lists[s]|
    ensures forall j {:trigger Contents(v)[s][j]} {:trigger v.lists[s][j]} :: 0 <= j < |v.lists[s]| ==>
      v.lists[s][j] in v.entries && Contents(v)[s][j] == v.entries[v.lists[s][j]]
  {
  }

  lemma LinkShaped(v: View, s: nat, j: nat, p: int)
    requires Shaped(v) && Apart(v) && s < |v.lists| && j <= |v.lists[s]|
    requires Unlinked(v, p) && p != NULL && p in v.entries && v.entries[p].at == p
    ensures Shaped(Link(v, s, j, p))
  {
    var u := Link(v, s, j, p);
    forall x {:trigger u.lists[x]} | 0 <= x < |u.lists| ensures Linked(u, u.lists[x], u.heads[x]) {
      assert Linked(v, v.lists[x], v.heads[x]);
      if x == s {
        ApartWithin(v, s);
        assert p !in v.lists[s] by { assert forall y :: 0 <= y < |v.lists[s]| ==> InList(v, s, y) && v.lists[s][y] != p; }
        LinkedWith(v, v.lists[s], v.heads[s], j, p, u, u.heads[s]);
      } else {
        forall y {:trigger v.lists[x][y]} | InList(v, x, y) ensures v.lists[x][y] != p && (j > 0 ==> v.lists[x][y] != v.lists[s][j - 1]) {
        }
        LinkedFrame(v, u, v.lists[x], v.heads[x]);
      }
    }
  }

  lemma LinkContents(v: View, s: nat, j: nat, p: int)
    requires Shaped(v) && s < |v.lists| && j <= |v.lists[s]| && p in v.entries && Shaped(Link(v, s, j, p))
    ensures Contents(Link(v, s, j, p)) == Contents(v)[s := Contents(v)[s][..j] + [v.entries[p]] + Contents(v)[s][j..]]
  {
    hide Linked;
    var u := Link(v, s, j, p);
    var a, b := Contents(v), Contents(u);
    SlotContents(v, s);
    SlotContents(u, s);
    var d := a[s][..j] + [v.entries[p]] + a[s][j..];
    forall y | 0 <= y < |d| ensures b[s][y] == d[y] {
      assert u.lists[s][y] == if y == j then p else v.lists[s][if y > j then y - 1 else y];
    }
    assert b[s] == d;
    forall x {:trigger b[x]} | 0 <= x < |b| ensures b[x] == a[s := d][x] {
      assert a[x] == Contents(v)[x];
    }
  }

  lemma ForgetShaped(v: View, p: int)
    requires Shaped(v) && Unlinked(v, p)
    ensures Shaped(Forget(v, p)) && Contents(Forget(v, p)) == Contents(v)
  {
    var u := Forget(v, p);
    forall x {:trigger u.lists[x]} | 0 <= x < |u.lists| ensures Linked(u, u.lists[x], u.heads[x]) {
      assert Linked(v, v.lists[x], v.heads[x]);
    }
    forall x {:trigger Contents(u)[x]} | 0 <= x < |u.lists| ensures Contents(u)[x] == Contents(v)[x] {
    }
  }

  lemma PutShaped(v: View, p: int, e: Entry)
    requires Shaped(v) && e.at == p
    ensures Shaped(Put(v, p, e))
    ensures forall s, j {:trigger Contents(Put(v, p, e))[s][j]} :: InList(v, s, j) ==>
      Contents(Put(v, p, e))[s][j] == if v.lists[s][j] == p then e else Contents(v)[s][j]
  {
  }

  // ---------------------------------------------------------------- addresses counted once are apart

  lemma {:induction false} CopiesPositive(a: seq<Chain>, s: nat, j: nat)
    requires s < |a| && j < |a[s]|
    ensures SlotsCopies(a, a[s][j].at) > 0
  {
    if s == 0 {
      ChainWithout(a[0], j, a[0][j].at);
    } else {
      CopiesPositive(a[1..], s - 1, j);
    }
  }

  lemma OnceApart(a: seq<Chain>, s: nat, i: nat, x: nat, y: nat)
    requires s < |a| && i < |a[s]| && x < |a| && y < |a[x]| && a[s][i].at == a[x][y].at
    requires SlotsCopies(a, a[s][i].at) <= 1
    ensures s == x && i == y
  {
    if s != x || i != y {
      var p := a[s][i].at;
      var b := a[s := Drop(a[s], i)];
      ChainWithout(a[s], i, p);
      SlotsChange(a, s, Drop(a[s], i), p);
      var z := if x == s && y > i then y - 1 else y;
      assert b[x][z] == a[x][y];
      CopiesPositive(b, x, z);
    }
  }

  lemma {:induction false} CopiesSplit(a: seq<Chain>, p: int)
    requires a != []
    ensures SlotsCopies(a, p) == SlotsCopies(a[..|a| - 1], p) + ChainCopies(a[|a| - 1], p)
  {
    if |a| > 1 {
      CopiesSplit(a[1..], p);
      assert a[1..][..|a| - 2] == a[..|a| - 1][1..];
    }
  }

  /** If every address is counted at most once, no address is linked twice. */
  lemma AllApart(v: View, count: int, mem: int)
    requires Shaped(v)
    requires forall p {:trigger Copies(TableOf(v, count, mem), p)} :: Copies(TableOf(v, count, mem), p) <= 1
    ensures Apart(v)
  {
    hide Linked, TableOf, SlotsCopies, ChainCopies;
    forall s, i, x, y {:trigger v.lists[s][i], v.lists[x][y]} |
      InList(v, s, i) && InList(v, x, y) && v.lists[s][i] == v.lists[x][y]
      ensures s == x && i == y
    {
      SameApart(v, count, mem, s, i, x, y);
    }
  }

  lemma SameApart(v: View, count: int, mem: int, s: nat, i: nat, x: nat, y: nat)
    requires Shaped(v) && InList(v, s, i) && InList(v, x, y) && v.lists[s][i] == v.lists[x][y]
    requires Copies(TableOf(v, count, mem), v.lists[s][i]) <= 1
    ensures s == x && i == y
  {
    hide SlotsCopies, ChainCopies, Linked, Contents, TableOf;
    var p := v.lists[s][i];
    ContentsPlaced(v, s, i);
    ContentsPlaced(v, x, y);
    TableCopies(v, count, mem, p);
    OnceApart(Contents(v), s, i, x, y);
  }

  lemma ContentsPlaced(v: View, s: nat, i: nat)
    requires Shaped(v) && InList(v, s, i)
    ensures s < |Contents(v)| && i < |Contents(v)[s]| && Contents(v)[s][i].at == v.lists[s][i]
  {
  }

  lemma TableCopies(v: View, count: int, mem: int, p: int)
    requires Shaped(v)
    ensures Copies(TableOf(v, count, mem), p) == SlotsCopies(Contents(v), p)
  {
    CopiesSplit(Contents(v), p);
  }

  /** An address that is not counted is not linked. */
  lemma UncountedUnlinked(v: View, count: int, mem: int, p: int)
    requires Shaped(v) && Copies(TableOf(v, count, mem), p) == 0
    ensures Unlinked(v, p)
  {
    forall s, j {:trigger v.lists[s][j]} | InList(v, s, j) ensures v.lists[s][j] != p {
      assert Placed(v, v.lists[s][j]) by { assert Linked(v, v.lists[s], v.heads[s]); }
      CopiesSplit(Contents(v), p);
      assert Contents(v)[s][j].at == v.lists[s][j];
      CopiesPositive(Contents(v), s, j);
    }
  }

  // ---------------------------------------------------------------- memory steps are table steps

  lemma {:induction false} ReplaceSlot(a: seq<Chain>, s: nat, c: Chain)
    requires s < |a|
    ensures s < |a| - 1 ==> a[s := c][..|a| - 1] == a[..|a| - 1][s := c] && a[s := c][|a| - 1] == a[|a| - 1]
    ensures s == |a| - 1 ==> a[s := c][..|a| - 1] == a[..|a| - 1] && a[s := c][|a| - 1] == c
  {
  }

  /** Unlinking an unreferenced entry and giving up its memory removes it from the table. */
  lemma RemovedFreed(v: View, count: int, mem: int, s: nat, j: nat, now: int)
    requires Shaped(v) && Apart(v) && InList(v, s, j) && s < |v.lists| - 1 && Placed(v, v.lists[s][j])
    requires v.entries[v.lists[s][j]].refs <= 0
    ensures var p := v.lists[s][j]; var u := Forget(Unlink(v, s, j), p);
      && InSlot(TableOf(v, count, mem), s, j) && TableOf(v, count, mem).slots[s][j] == v.entries[p]
      && Shaped(u)
      && TableOf(u, if count != 0 then count - 1 else 0, if mem != 0 then mem - v.entries[p].mem else 0)
           == RemoveAt(TableOf(v, count, mem), s, j, now)
  {
    hide Linked, Apart, Unlinked, Contents;
    UnlinkShaped(v, s, j);
    UnlinkApart(v, s, j);
    UnlinkContents(v, s, j);
    ForgetShaped(Unlink(v, s, j), v.lists[s][j]);
    SlotContents(v, s);
    ReplaceSlot(Contents(v), s, Drop(Contents(v)[s], j));
  }

  /** Unlinking a referenced entry and linking it into the last list moves it to the removed ones. */
  lemma RemovedKept(v: View, count: int, mem: int, s: nat, j: nat, now: int)
    requires Shaped(v) && Apart(v) && InList(v, s, j) && s < |v.lists| - 1 && Placed(v, v.lists[s][j])
    requires v.entries[v.lists[s][j]].refs > 0
    ensures var p := v.lists[s][j]; var u := Put(Unlink(v, s, j), p, v.entries[p].(dtime := now)); var w := Link(u, |v.lists| - 1, 0, p);
      && InSlot(TableOf(v, count, mem), s, j) && TableOf(v, count, mem).slots[s][j] == v.entries[p]
      && Shaped(w)
      && TableOf(w, if count != 0 then count - 1 else 0, if mem != 0 then mem - v.entries[p].mem else 0)
           == RemoveAt(TableOf(v, count, mem), s, j, now)
  {
    hide Linked, Apart, Unlinked, Contents;
    var n := |v.lists| - 1;
    var p := v.lists[s][j];
    var e := v.entries[p].(dtime := now);
    var a := Unlink(v, s, j);
    var u := Put(a, p, e);
    UnlinkShaped(v, s, j);
    UnlinkApart(v, s, j);
    UnlinkContents(v, s, j);
    PutUnlinked(a, p, e);
    LinkShaped(u, n, 0, p);
    LinkContents(u, n, 0, p);
    SlotContents(v, s);
    ReplaceSlot(Contents(v), s, Drop(Contents(v)[s], j));
    ReplaceSlot(Contents(u), n, Contents(u)[n][..0] + [e] + Contents(u)[n][0..]);
    assert Contents(u)[n][..0] + [e] + Contents(u)[n][0..] == [e] + Contents(u)[n];
  }

  /** An unlinked entry is freed, or moved to the list of the removed if somebody holds it. */
  function Dispose(v: View, p: int, now: int): View
    requires 0 < |v.lists| == |v.heads| && p in v.entries
  {
    if v.entries[p].refs <= 0 then Forget(v, p)
    else Link(Put(v, p, v.entries[p].(dtime := now)), |v.lists| - 1, 0, p)
  }

  function Removal(v: View, s: nat, j: nat, now: int): View
    requires |v.lists| == |v.heads| && InList(v, s, j) && v.lists[s][j] in v.next && v.lists[s][j] in v.entries
  {
    Dispose(Unlink(v, s, j), v.lists[s][j], now)
  }

  lemma RemovalStep(v: View, count: int, mem: int, s: nat, j: nat, now: int)
    requires Shaped(v) && Apart(v) && InList(v, s, j) && s < |v.lists| - 1 && Placed(v, v.lists[s][j])
    ensures var p := v.lists[s][j]; var u := Removal(v, s, j, now);
      && InSlot(TableOf(v, count, mem), s, j) && TableOf(v, count, mem).slots[s][j] == v.entries[p]
      && Shaped(u)
      && TableOf(u, if count != 0 then count - 1 else 0, if mem != 0 then mem - v.entries[p].mem else 0)
           == RemoveAt(TableOf(v, count, mem), s, j, now)
  {
    hide Linked, Apart, Unlinked, Contents, RemoveAt, TableOf;
    if v.entries[v.lists[s][j]].refs <= 0 {
      RemovedFreed(v, count, mem, s, j, now);
    } else {
      RemovedKept(v, count, mem, s, j, now);
    }
  }

  /** Removing one entry moves no other, and keeps the pointers before it. */
  lemma RemovalFrame(v: View, s: nat, j: nat, now: int)
    requires Shaped(v) && InList(v, s, j) && s < |v.lists| - 1 && Placed(v, v.lists[s][j])
    ensures var p := v.lists[s][j]; var u := Removal(v, s, j, now);
      && |u.lists| == |v.lists| && u.lists[s] == Drop(v.lists[s], j)
      && (forall q {:trigger q in u.entries} {:trigger Placed(v, q)} :: q != p && Placed(v, q) ==> Placed(u, q) && u.entries[q] == v.entries[q])
  {
  }

  lemma CollectedFrame(v: View, s: nat, j: nat)
    requires Shaped(v) && InList(v, s, j) && Placed(v, v.lists[s][j])
    ensures var p := v.lists[s][j]; var u := Forget(Unlink(v, s, j), p);
      && |u.lists| == |v.lists| && u.lists[s] == Drop(v.lists[s], j)
      && (forall q {:trigger q in u.entries} {:trigger Placed(v, q)} :: q != p && Placed(v, q) ==> Placed(u, q) && u.entries[q] == v.entries[q])
  {
  }

  lemma PutUnlinked(v: View, p: int, e: Entry)
    requires Shaped(v) && Unlinked(v, p) && e.at == p && Apart(v)
    ensures var u := Put(v, p, e); Shaped(u) && Contents(u) == Contents(v) && Apart(u) && Unlinked(u, p)
  {
    var u := Put(v, p, e);
    PutShaped(v, p, e);
    forall x | 0 <= x < |v.lists| ensures Contents(u)[x] == Contents(v)[x] {
      SlotContents(v, x);
      SlotContents(u, x);
      forall y | 0 <= y < |v.lists[x]| ensures Contents(u)[x][y] == Contents(v)[x][y] {
        assert v.lists[x][y] != p;
      }
    }
  }

  /** Taking an entry off the list of the removed. */
  lemma CollectedStep(v: View, count: int, mem: int, j: nat)
    requires Shaped(v) && Apart(v) && InList(v, |v.lists| - 1, j) && Placed(v, v.lists[|v.lists| - 1][j])
    ensures var n := |v.lists| - 1; var p := v.lists[n][j]; var u := Forget(Unlink(v, n, j), p); var t := TableOf(v, count, mem);
      && j < |t.gc| && t.gc[j] == v.entries[p]
      && Shaped(u) && TableOf(u, count, mem) == t.(gc := Drop(t.gc, j))
  {
    hide Linked, Apart, Unlinked, Contents;
    var n := |v.lists| - 1;
    UnlinkShaped(v, n, j);
    UnlinkApart(v, n, j);
    UnlinkContents(v, n, j);
    ForgetShaped(Unlink(v, n, j), v.lists[n][j]);
    SlotContents(v, n);
    ReplaceSlot(Contents(v), n, Drop(Contents(v)[n], j));
  }

  lemma LinkedStep(v: View, count: int, mem: int, s: nat, j: nat, p: int)
    requires Shaped(v) && Apart(v) && s < |v.lists| - 1 && j <= |v.lists[s]|
    requires Unlinked(v, p) && p != NULL && p in v.entries && v.entries[p].at == p
    ensures var t := TableOf(v, count, mem); var u := Link(v, s, j, p);
      && s < |t.slots| && j <= |t.slots[s]| && Shaped(u)
      && TableOf(u, count + 1, mem + v.entries[p].mem) == LinkAt(t, s, j, v.entries[p])
  {
    hide Linked, Apart, Unlinked, Contents;
    LinkShaped(v, s, j, p);
    LinkContents(v, s, j, p);
    SlotContents(v, s);
    ReplaceSlot(Contents(v), s, Contents(v)[s][..j] + [v.entries[p]] + Contents(v)[s][j..]);
  }

  lemma PutStep(v: View, count: int, mem: int, s: nat, j: nat, e: Entry)
    requires Shaped(v) && Apart(v) && s < |v.lists| - 1 && InList(v, s, j) && e.at == v.lists[s][j]
    ensures var t := TableOf(v, count, mem); var u := Put(v, e.at, e);
      InSlot(t, s, j) && Shaped(u) && TableOf(u, count, mem) == SetAt(t, s, j, e)
  {
    hide Linked, Apart, TableOf;
    var u := Put(v, e.at, e);
    PutShaped(v, e.at, e);
    SlotContents(v, s);
    PutContents(v, s, j, e);
    PutTable(v, count, mem, s, j, e);
  }

  lemma PutContents(v: View, s: nat, j: nat, e: Entry)
    requires Shaped(v) && Apart(v) && InList(v, s, j) && e.at == v.lists[s][j] && Shaped(Put(v, e.at, e))
    ensures j < |Contents(v)[s]| && Contents(Put(v, e.at, e)) == Contents(v)[s := Contents(v)[s][j := e]]
  {
    hide Linked;
    var u := Put(v, e.at, e);
    var a, b := Contents(v), Contents(u);
    SlotContents(v, s);
    forall x | 0 <= x < |a| ensures b[x] == a[s := a[s][j := e]][x] {
      SlotContents(v, x);
      SlotContents(u, x);
      forall y | 0 <= y < |v.lists[x]| ensures b[x][y] == a[s := a[s][j := e]][x][y] {
        assert v.lists[x][y] == e.at ==> x == s && y == j;
      }
    }
  }

  lemma PutTable(v: View, count: int, mem: int, s: nat, j: nat, e: Entry)
    requires Shaped(v) && s < |v.lists| - 1 && j < |Contents(v)[s]| && Shaped(Put(v, e.at, e))
    requires Contents(Put(v, e.at, e)) == Contents(v)[s := Contents(v)[s][j := e]]
    ensures var t := TableOf(v, count, mem);
      InSlot(t, s, j) && TableOf(Put(v, e.at, e), count, mem) == SetAt(t, s, j, e)
  {
    hide Linked, Contents;
    ReplaceSlot(Contents(v), s, Contents(v)[s][j := e]);
  }

  /** A newly persisted entry joins the memory without being linked. */
  lemma AdoptStep(v: View, count: int, mem: int, p: int, e: Entry)
    requires Shaped(v) && Unlinked(v, p) && p != NULL && e.at == p
    ensures var u := v.(entries := v.entries[p := e], next := v.next[p := NULL]);
      Shaped(u) && TableOf(u, count, mem) == TableOf(v, count, mem)
  {
    var u := v.(entries := v.entries[p := e], next := v.next[p := NULL]);
    forall x {:trigger u.lists[x]} | 0 <= x < |u.lists| ensures Linked(u, u.lists[x], u.heads[x]) {
      assert Linked(v, v.lists[x], v.heads[x]);
    }
    forall x | 0 <= x < |v.lists| ensures Contents(u)[x] == Contents(v)[x] {
      SlotContents(v, x);
      SlotContents(u, x);
    }
    assert Contents(u) == Contents(v);
  }
}
