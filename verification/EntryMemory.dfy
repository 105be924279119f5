/**
 Which entries are in memory while user code runs: those that are counted always, but the
 entry an iterator has come to is not counted, and inside `apcu_entry` no lock protects it.
 */
module EntryMemory {
  import opened Collections
  import opened EntryProtocol

  /** An iterator of the thread has come to the entry, and reads on from it when user code is over. */
  predicate Visits(th: Thread, at: int) {
    Browsing(at) in th.stack || th.doing == Walking(at)
  }

  /** The thread is counted as using the entry. */
  ghost predicate Uses(th: Thread, at: int) {
    Fetching(at) in th.stack || exists k {:trigger Restoring(k, at)} :: Restoring(k, at) in th.stack
  }

  /** The writing act that a step carries out. */
  function Performs(s: State, t: nat, c: Choice): Option<Act> {
    if t >= |s.threads| then None
    else
      match s.threads[t].doing
      case Inside(act, _) => if c.Go? && Writes(act) then Some(act) else None
      case Storing(k) => if c.Insert? then Some(Put(k, true, c.swept)) else None
      case _ => None
  }

  /** The act gives the memory of the entry back: nobody is counted, and it is removed now or was before. */
  ghost predicate Frees(h: Heap, used: set<int>, act: Act, at: int) {
    && at !in used
    && if at in h.aside then Collects(act)
       else exists k {:trigger h.linked[k]} :: k in h.linked && h.linked[k].at == at && k in Chosen(h, act)
  }

  /** User code that an iterator of thread `t` runs inside `apcu_entry` frees the entry the iterator has come to. */
  ghost predicate RemovedUnder(s: State, t: nat, c: Choice, at: int) {
    && t < |s.threads| && s.threads[t].level > 0 && Browsing(at) in s.threads[t].stack
    && Performs(s, t, c).Some? && Frees(s.heap, Used(s.threads), Performs(s, t, c).value, at)
  }

  /** It does so somewhere in the run. */
  ghost predicate RemovedIn(n: nat, run: seq<(nat, Choice)>, t: nat, at: int) {
    exists j {:trigger run[j]} :: 0 <= j < |run| && run[j].0 == t && RemovedUnder(After(n, run[..j]), t, run[j].1, at)
  }

  // ---------------------------------------------------------------- what acts do to memory

  /** Every entry is in one place, and has a number of its own. */
  ghost predicate Numbered(h: Heap) {
    && (forall k {:trigger h.linked[k]} :: k in h.linked ==> h.linked[k].at < h.unused && h.linked[k].at !in h.aside)
    && (forall at :: at in h.aside ==> at < h.unused)
    && (forall k, l {:trigger h.linked[k], h.linked[l]} ::
          k in h.linked && l in h.linked && h.linked[k].at == h.linked[l].at ==> k == l)
  }

  lemma OffNumbered(h: Heap, gone: set<string>, used: set<int>)
    requires Numbered(h)
    ensures Numbered(Off(h, gone, used))
  {
  }

  lemma EffectNumbered(h: Heap, used: set<int>, t: nat, act: Act)
    requires Numbered(h)
    ensures Numbered(Effect(h, used, t, act)) && h.unused <= Effect(h, used, t, act).unused
  {
    OffNumbered(if Collects(act) then Collected(h, used) else h, Chosen(h, act), used);
  }

  lemma AgedNumbered(h: Heap, k: string, age: Age)
    requires Numbered(h)
    ensures Numbered(Aged(h, k, age)) && Aged(h, k, age).unused == h.unused
    ensures forall at :: InMemory(Aged(h, k, age), at) <==> InMemory(h, at)
  {
    var r := Aged(h, k, age);
    forall at ensures InMemory(r, at) <==> InMemory(h, at) {
      if l :| l in h.linked && h.linked[l].at == at {
        assert r.linked[l].at == at;
      }
      if l :| l in r.linked && r.linked[l].at == at {
        assert h.linked[l].at == at;
      }
    }
  }

  lemma OffFrees(h: Heap, gone: set<string>, used: set<int>, at: int)
    requires Numbered(h)
    ensures InMemory(Off(h, gone, used), at) <==>
      && InMemory(h, at)
      && (|| at in h.aside || at in used
          || !(exists k {:trigger h.linked[k]} :: k in h.linked && h.linked[k].at == at && k in gone))
  {
    var r := Off(h, gone, used);
    if l :| l in h.linked && h.linked[l].at == at {
      assert l !in gone ==> l in r.linked && r.linked[l].at == at;
    }
    if l :| l in r.linked && r.linked[l].at == at {
      assert h.linked[l].at == at;
    }
  }

  /** An act takes from memory exactly what it frees. */
  lemma EffectFrees(h: Heap, used: set<int>, t: nat, act: Act, at: int)
    requires Numbered(h) && at < h.unused
    ensures InMemory(Effect(h, used, t, act), at) <==> InMemory(h, at) && !Frees(h, used, act, at)
  {
    hide Chosen;
    PutReplaces(h, act);
    var c := if Collects(act) then Collected(h, used) else h;
    var o := Off(c, Chosen(h, act), used);
    OffFrees(c, Chosen(h, act), used, at);
    PutAdds(h, o, Effect(h, used, t, act), act, t, at);
  }

  lemma PutReplaces(h: Heap, act: Act)
    ensures act.Put? && !(act.exclusive && Live(h, act.key)) ==> act.key in Chosen(h, act)
  {
  }

  /** What each act gives back to memory, case by case. */
  lemma ActsFree(h: Heap, used: set<int>, t: nat, k: string, exclusive: bool, swept: set<string>, gone: set<string>, at: int)
    requires Numbered(h) && at < h.unused && InMemory(h, at)
    ensures InMemory(Effect(h, used, t, Drop(k)), at) <==>
      at in used || at in h.aside || !(k in h.linked && h.linked[k].at == at)
    ensures InMemory(Effect(h, used, t, Clear), at) <==> at in used || at in h.aside
    ensures InMemory(Effect(h, used, t, Expunge(gone)), at) <==>
      at in used || exists x {:trigger h.linked[x]} :: x in h.linked && h.linked[x].at == at && x !in gone
    ensures InMemory(Effect(h, used, t, Put(k, exclusive, swept)), at) <==>
      at in used || exists x {:trigger h.linked[x]} ::
        x in h.linked && h.linked[x].at == at
        && if x == k then exclusive && h.linked[x].age != Hard else x !in swept || h.linked[x].age == Fresh
  {
    hide InMemory, Effect;
    EffectFrees(h, used, t, Drop(k), at);
    EffectFrees(h, used, t, Clear, at);
    EffectFrees(h, used, t, Expunge(gone), at);
    EffectFrees(h, used, t, Put(k, exclusive, swept), at);
    InMemoryIs(h, at);
  }

  lemma InMemoryIs(h: Heap, at: int)
    ensures InMemory(h, at) <==> at in h.aside || exists k {:trigger h.linked[k]} :: k in h.linked && h.linked[k].at == at
  {
  }

  lemma PutAdds(h: Heap, o: Heap, r: Heap, act: Act, t: nat, at: int)
    requires at < h.unused && (act.Put? && !(act.exclusive && Live(h, act.key)) ==> act.key !in o.linked)
    requires r == if act.Put? && !(act.exclusive && Live(h, act.key)) then
                    o.(linked := o.linked[act.key := Cell(h.unused, t, Fresh)], unused := h.unused + 1)
                  else o
    ensures InMemory(r, at) <==> InMemory(o, at)
  {
    if l :| l in o.linked && o.linked[l].at == at {
      assert r.linked[l].at == at;
    }
    if l :| l in r.linked && r.linked[l].at == at {
      assert o.linked[l].at == at;
    }
  }

  // ---------------------------------------------------------------- what every step keeps

  /** What is counted is in memory, and so is what an iterator has come to outside `apcu_entry`. */
  ghost predicate Present(s: State, t: nat)
    requires t < |s.threads|
  {
    var th := s.threads[t];
    && (forall at {:trigger Uses(th, at)} :: Uses(th, at) ==> InMemory(s.heap, at))
    && (forall at {:trigger Visits(th, at)} :: Visits(th, at) ==>
          at < s.heap.unused && (th.level == 0 ==> InMemory(s.heap, at)))
  }

  ghost predicate Safe(s: State) {
    && Kept(s) && Numbered(s.heap)
    && forall t {:trigger Present(s, t)} {:trigger s.threads[t]} :: 0 <= t < |s.threads| ==> Present(s, t)
  }

  lemma InMemoryIsOld(h: Heap, at: int)
    requires Numbered(h) && InMemory(h, at)
    ensures at < h.unused
  {
  }

  lemma UsedIsUses(threads: seq<Thread>, t: nat, at: int)
    requires t < |threads| && Uses(threads[t], at)
    ensures at in Used(threads)
  {
    if Fetching(at) !in threads[t].stack {
      var k :| Restoring(k, at) in threads[t].stack;
      assert Counts(Restoring(k, at));
    } else {
      assert Counts(Fetching(at));
    }
  }

  /** What a step makes of the entries. */
  lemma StepHeap(s: State, t: nat, c: Choice)
    ensures var act := Performs(s, t, c);
      Do(s, t, c).heap ==
        if act.Some? then Effect(s.heap, Used(s.threads), t, act.value)
        else if t < |s.threads| && c.Grow? then Aged(s.heap, c.key, c.age)
        else s.heap
  {
    hide Effect, Aged, Used, InMemory;
    if t < |s.threads| && s.threads[t].doing.Inside? {
      ReadsOnly(s.heap, Used(s.threads), t, s.threads[t].doing.act);
    }
  }

  /** A step takes from memory exactly what the act it carries out frees. */
  lemma StepFrees(s: State, t: nat, c: Choice, at: int)
    requires Numbered(s.heap) && at < s.heap.unused
    ensures var r, act := Do(s, t, c), Performs(s, t, c);
      && Numbered(r.heap) && s.heap.unused <= r.heap.unused
      && (InMemory(r.heap, at) <==>
           InMemory(s.heap, at) && !(act.Some? && Frees(s.heap, Used(s.threads), act.value, at)))
  {
    hide Do, Effect, Aged, Used, InMemory, Numbered, Frees, Performs;
    StepHeap(s, t, c);
    var act := Performs(s, t, c);
    if act.Some? {
      EffectNumbered(s.heap, Used(s.threads), t, act.value);
      EffectFrees(s.heap, Used(s.threads), t, act.value, at);
    } else if c.Grow? {
      AgedNumbered(s.heap, c.key, c.age);
    }
  }

  /** Whoever carries out a writing act has the write lock, and stays where it is. */
  lemma PerformsWrites(s: State, t: nat, c: Choice)
    requires Kept(s) && t < |s.threads| && Performs(s, t, c).Some?
    ensures HoldsWrite(s.threads[t]) && Do(s, t, c).threads[t].stack == s.threads[t].stack
    ensures Do(s, t, c).threads[t].level == s.threads[t].level
    ensures forall at :: s.threads[t].doing != Walking(at) && Do(s, t, c).threads[t].doing != Walking(at)
  {
    hide Effect, Used, Entries, Outer;
    KeptThread(s, t);
  }

  /** Outside `apcu_entry` an iterator has a read lock for what it has come to. */
  lemma VisitsReads(s: State, t: nat, at: int)
    requires Kept(s) && t < |s.threads| && s.threads[t].level == 0 && Visits(s.threads[t], at)
    ensures t in s.readers && s.writer == None
  {
    KeptThread(s, t);
    NotCalledYet(s.threads[t]);
  }

  /** Inside it, its thread is the writer. */
  lemma LevelWrites(s: State, t: nat)
    requires Kept(s) && t < |s.threads|
    ensures s.threads[t].level > 0 ==> s.writer == Some(t)
    ensures HoldsWrite(s.threads[t]) ==> s.writer == Some(t)
  {
    KeptThread(s, t);
  }

  /** If an entry goes that an iterator has come to, then user code which this iterator runs frees it. */
  lemma FreedUnder(s: State, t: nat, c: Choice, u: nat, at: int)
    requires Safe(s) && u < |s.threads| && Visits(s.threads[u], at)
    requires InMemory(s.heap, at) && !InMemory(Do(s, t, c).heap, at)
    ensures t == u && RemovedUnder(s, t, c, at)
  {
    hide Do, Kept, Numbered, InMemory, Frees, Performs, HoldsWrite;
    assert Present(s, u);
    StepFrees(s, t, c, at);
    BeyondPerforms(s, t, c);
    PerformsWrites(s, t, c);
    LevelWrites(s, t);
    LevelWrites(s, u);
    if s.threads[u].level == 0 {
      VisitsReads(s, u, at);
    }
  }

  lemma BeyondPerforms(s: State, t: nat, c: Choice)
    ensures Performs(s, t, c).Some? ==> t < |s.threads|
  {
  }

  /** A step leaves the frames, takes the last one away, or adds one for an entry in memory. */
  predicate Frames(h: Heap, th: Thread, rt: Thread) {
    || (rt.stack == th.stack && (rt.doing.Walking? ==> rt.doing == th.doing))
    || (th.stack != [] && rt.stack == th.stack[..|th.stack| - 1]
        && (rt.doing.Walking? ==> th.stack[|th.stack| - 1] == Browsing(rt.doing.at)))
    || (Added(th, rt) && (var f := rt.stack[|th.stack|]; f.Generating? || InMemory(h, f.at)))
  }

  predicate Added(th: Thread, rt: Thread) {
    |rt.stack| == |th.stack| + 1 && rt.stack[..|th.stack|] == th.stack && rt.doing.User?
  }

  lemma UserFrames(s: State, t: nat, c: Choice)
    requires t < |s.threads| && s.threads[t].doing.User?
    ensures Frames(s.heap, s.threads[t], OfUser(s, t, c).threads[t])
  {
  }

  lemma EntryFrames(s: State, t: nat, c: Choice)
    requires t < |s.threads| && !s.threads[t].doing.User? && !OnSection(s.threads[t].doing)
    ensures Frames(s.heap, s.threads[t], InEntry(s, t, c).threads[t])
  {
    hide Effect, Used, MayLock;
  }

  lemma SectionFrames(s: State, t: nat, c: Choice)
    requires t < |s.threads| && OnSection(s.threads[t].doing)
    requires s.threads[t].doing.Walking? || !s.threads[t].doing.next.Walking?
    ensures Frames(s.heap, s.threads[t], InSection(s, t, c).threads[t])
  {
    hide Effect, Used, MayLock;
  }

  lemma StepFrames(s: State, t: nat, c: Choice)
    requires Kept(s) && t < |s.threads|
    ensures Frames(s.heap, s.threads[t], Do(s, t, c).threads[t])
  {
    hide OfUser, InEntry, InSection, Aged, Kept, Entries, Outer;
    KeptThread(s, t);
    if c.Grow? {
    } else if s.threads[t].doing.User? {
      UserFrames(s, t, c);
    } else if OnSection(s.threads[t].doing) {
      SectionFrames(s, t, c);
    } else {
      EntryFrames(s, t, c);
    }
  }

  /** What the frames of a thread refer to, it referred to before, or it is in memory. */
  lemma FramesCome(h: Heap, th: Thread, rt: Thread, at: int)
    requires Frames(h, th, rt)
    ensures Visits(rt, at) ==> Visits(th, at) || InMemory(h, at)
    ensures Uses(rt, at) ==> Uses(th, at) || InMemory(h, at)
  {
    if Added(th, rt) {
      assert rt.stack == th.stack + [rt.stack[|th.stack|]];
    }
  }

  lemma {:induction false} RunSafe(n: nat, run: seq<(nat, Choice)>)
    ensures Safe(After(n, run))
  {
    RunKeeps(n, run);
    if run != [] {
      var m := |run| - 1;
      RunSafe(n, run[..m]);
      StepSafe(After(n, run[..m]), run[m].0, run[m].1);
    }
  }

  lemma StepSafe(s: State, t: nat, c: Choice)
    requires Safe(s)
    ensures Safe(Do(s, t, c))
  {
    hide Do, Kept, Numbered, Present;
    StepKeeps(s, t, c);
    StepFrees(s, t, c, s.heap.unused - 1);
    forall u | 0 <= u < |s.threads| ensures Present(Do(s, t, c), u) {
      StepPresent(s, t, c, u);
    }
  }

  lemma StepPresent(s: State, t: nat, c: Choice, u: nat)
    requires Safe(s) && u < |s.threads|
    ensures Present(Do(s, t, c), u)
  {
    hide Do, Kept, Numbered, InMemory, Visits, Uses;
    var r := Do(s, t, c);
    assert Present(s, u);
    StepKeeps(s, t, c);
    forall at | Uses(r.threads[u], at) ensures InMemory(r.heap, at) {
      UsesStay(s, t, c, u, at);
    }
    forall at | Visits(r.threads[u], at) ensures at < r.heap.unused && (r.threads[u].level == 0 ==> InMemory(r.heap, at)) {
      VisitsStay(s, t, c, u, at);
    }
  }

  /** What a thread refers to after a step, it referred to before, or it is in memory. */
  lemma StepComes(s: State, t: nat, c: Choice, u: nat, at: int)
    requires Safe(s) && u < |s.threads|
    ensures var r := Do(s, t, c);
      && (Visits(r.threads[u], at) ==> Visits(s.threads[u], at) || InMemory(s.heap, at))
      && (Uses(r.threads[u], at) ==> Uses(s.threads[u], at) || InMemory(s.heap, at))
  {
    hide Do, Kept, Numbered, InMemory, Visits, Uses, Frames, Fits;
    if t >= |s.threads| {
      BeyondStill(s, t, c);
    } else if u == t {
      StepFrames(s, t, c);
      FramesCome(s.heap, s.threads[t], Do(s, t, c).threads[t], at);
    } else {
      StepOthers(s, t, c, u);
    }
  }

  /** What is counted is not freed. */
  lemma UsesStay(s: State, t: nat, c: Choice, u: nat, at: int)
    requires Safe(s) && u < |s.threads| && Uses(Do(s, t, c).threads[u], at)
    ensures InMemory(Do(s, t, c).heap, at)
  {
    hide Do, Kept, Numbered, InMemory, Visits, Uses, Performs;
    assert Present(s, u);
    StepComes(s, t, c, u, at);
    InMemoryIsOld(s.heap, at);
    StepFrees(s, t, c, at);
    if Performs(s, t, c).Some? {
      BeyondPerforms(s, t, c);
      PerformsUses(s, t, c, u, at);
      UsedIsUses(s.threads, u, at);
    }
  }

  /** A writing act starts no use of an entry. */
  lemma PerformsUses(s: State, t: nat, c: Choice, u: nat, at: int)
    requires Safe(s) && t < |s.threads| && u < |s.threads| && Performs(s, t, c).Some?
    ensures Uses(Do(s, t, c).threads[u], at) <==> Uses(s.threads[u], at)
  {
    hide Do, Kept, Numbered, InMemory, Performs, Fits;
    if u == t {
      PerformsWrites(s, t, c);
    } else {
      StepOthers(s, t, c, u);
    }
  }

  /** Where `apcu_entry` ends, every iterator called from inside it has ended. */
  lemma LeavesNoIterator(s: State, t: nat, c: Choice, at: int)
    requires Kept(s) && t < |s.threads| && s.threads[t].level > 0 && Do(s, t, c).threads[t].level == 0
    ensures !Visits(s.threads[t], at)
  {
    hide Effect, Used, MayLock, Entries, Outer, OfUser, InSection;
    KeptThread(s, t);
    LevelFalls(s, t, c);
    NoOuter(s.threads[t].stack);
  }

  lemma LevelFalls(s: State, t: nat, c: Choice)
    requires t < |s.threads| && Do(s, t, c).threads[t].level < s.threads[t].level
    ensures s.threads[t].doing.Lowering? && Do(s, t, c).threads[t].level + 1 == s.threads[t].level
  {
    hide Effect, Used, MayLock, Aged, InMemory;
  }

  /** A writing act comes to no entry. */
  lemma PerformsVisits(s: State, t: nat, c: Choice, u: nat, at: int)
    requires Safe(s) && t < |s.threads| && u < |s.threads| && Performs(s, t, c).Some?
    ensures Visits(Do(s, t, c).threads[u], at) <==> Visits(s.threads[u], at)
    ensures Do(s, t, c).threads[u].level == s.threads[u].level
  {
    hide Do, Kept, Numbered, InMemory, Performs, Fits;
    if u == t {
      PerformsWrites(s, t, c);
    } else {
      StepOthers(s, t, c, u);
    }
  }

  lemma VisitsStay(s: State, t: nat, c: Choice, u: nat, at: int)
    requires Safe(s) && u < |s.threads| && Visits(Do(s, t, c).threads[u], at)
    ensures at < Do(s, t, c).heap.unused
    ensures Do(s, t, c).threads[u].level == 0 ==> InMemory(Do(s, t, c).heap, at)
  {
    hide Do, Kept, Numbered, InMemory, Visits, Uses, Performs, Frees, Fits;
    var r := Do(s, t, c);
    assert Present(s, u);
    StepComes(s, t, c, u, at);
    if InMemory(s.heap, at) {
      InMemoryIsOld(s.heap, at);
      StepFrees(s, t, c, at);
      if !InMemory(r.heap, at) {
        BeyondPerforms(s, t, c);
        PerformsVisits(s, t, c, u, at);
        FreedUnder(s, t, c, u, at);
      }
    } else {
      StepFrees(s, t, c, at);
      if r.threads[u].level == 0 {
        NotLeft(s, t, c, u, at);
      }
    }
  }

  lemma NotLeft(s: State, t: nat, c: Choice, u: nat, at: int)
    requires Safe(s) && u < |s.threads| && Visits(s.threads[u], at) && s.threads[u].level > 0
    ensures Do(s, t, c).threads[u].level > 0
  {
    hide Do, Kept, Numbered, InMemory, Visits, Fits;
    if t >= |s.threads| {
      BeyondStill(s, t, c);
    } else if u != t {
      StepOthers(s, t, c, u);
    } else if Do(s, t, c).threads[t].level == 0 {
      LeavesNoIterator(s, t, c, at);
    }
  }

  // ---------------------------------------------------------------- whole runs

  lemma RemovedStep(n: nat, run: seq<(nat, Choice)>, t: nat, at: int)
    requires run != []
    ensures var m := |run| - 1;
      RemovedIn(n, run, t, at) <==>
        RemovedIn(n, run[..m], t, at) || (run[m].0 == t && RemovedUnder(After(n, run[..m]), t, run[m].1, at))
  {
    hide RemovedUnder, After;
    var m := |run| - 1;
    var init := run[..m];
    forall i {:trigger run[i]} {:trigger init[i]} | 0 <= i < m ensures init[..i] == run[..i] && init[i] == run[i] {
    }
    if RemovedIn(n, init, t, at) {
      var j :| 0 <= j < m && init[j].0 == t && RemovedUnder(After(n, init[..j]), t, init[j].1, at);
      assert run[j].0 == t && RemovedUnder(After(n, run[..j]), t, run[j].1, at);
    }
    if j :| 0 <= j < m && run[j].0 == t && RemovedUnder(After(n, run[..j]), t, run[j].1, at) {
      assert init[j].0 == t && RemovedUnder(After(n, init[..j]), t, init[j].1, at);
    }
  }

  lemma RemovedFrees(s: State, t: nat, c: Choice, at: int)
    requires Safe(s) && RemovedUnder(s, t, c, at)
    ensures at < Do(s, t, c).heap.unused && !InMemory(Do(s, t, c).heap, at) && Visits(Do(s, t, c).threads[t], at)
  {
    hide Do, Kept, Numbered, InMemory, Performs, Frees;
    assert Visits(s.threads[t], at) && Present(s, t);
    StepFrees(s, t, c, at);
    PerformsWrites(s, t, c);
  }

  /** What was freed is gone for good. */
  lemma {:induction false} RemovedIsGone(n: nat, run: seq<(nat, Choice)>, t: nat, at: int)
    requires RemovedIn(n, run, t, at)
    ensures at < After(n, run).heap.unused && !InMemory(After(n, run).heap, at)
  {
    hide Do, Kept, RemovedIn, RemovedUnder, InMemory, Frees, Performs;
    if run == [] {
      NothingRemoved(n, t, at);
    } else {
      var m := |run| - 1;
      var s := After(n, run[..m]);
      RunSafe(n, run[..m]);
      RemovedStep(n, run, t, at);
      if RemovedIn(n, run[..m], t, at) {
        RemovedIsGone(n, run[..m], t, at);
        StepFrees(s, run[m].0, run[m].1, at);
      } else {
        RemovedFrees(s, t, run[m].1, at);
      }
    }
  }

  lemma NothingRemoved(n: nat, t: nat, at: int)
    ensures !RemovedIn(n, [], t, at)
  {
  }

  /**
   An entry that an iterator has come to is gone exactly if user code that this iterator
   ran inside `apcu_entry` freed it: deleted, replaced, expunged or cleared it, or inserted
   something and came by it expired, while nobody was counted as using it.
   */
  lemma {:induction false} GoneIffRemoved(n: nat, run: seq<(nat, Choice)>, t: nat, at: int)
    requires t < n && Visits(After(n, run).threads[t], at)
    ensures !InMemory(After(n, run).heap, at) <==> RemovedIn(n, run, t, at)
  {
    hide Do, Kept, RemovedIn, RemovedUnder, InMemory, Visits, Start, Frees, Performs;
    if RemovedIn(n, run, t, at) {
      RemovedIsGone(n, run, t, at);
    } else if run == [] {
      NobodyVisits(n, t, at);
    } else {
      var m := |run| - 1;
      var s := After(n, run[..m]);
      RunSafe(n, run[..m]);
      RemovedStep(n, run, t, at);
      StepComes(s, run[m].0, run[m].1, t, at);
      if Visits(s.threads[t], at) {
        GoneIffRemoved(n, run[..m], t, at);
        if !InMemory(After(n, run).heap, at) {
          FreedUnder(s, run[m].0, run[m].1, t, at);
        }
      } else if !InMemory(After(n, run).heap, at) {
        NotFreedYet(s, run[m].0, run[m].1, t, at);
      }
    }
  }

  lemma NobodyVisits(n: nat, t: nat, at: int)
    requires t < n
    ensures !Visits(After(n, []).threads[t], at)
  {
  }

  /** The step that comes to an entry does not free it. */
  lemma NotFreedYet(s: State, t: nat, c: Choice, u: nat, at: int)
    requires Safe(s) && u < |s.threads| && !Visits(s.threads[u], at) && Visits(Do(s, t, c).threads[u], at)
    ensures InMemory(Do(s, t, c).heap, at)
  {
    hide Do, Kept, Numbered, InMemory, Visits, Uses, Performs, Frees;
    StepComes(s, t, c, u, at);
    InMemoryIsOld(s.heap, at);
    StepFrees(s, t, c, at);
    BeyondPerforms(s, t, c);
    if Performs(s, t, c).Some? {
      PerformsVisits(s, t, c, u, at);
    }
  }

  /** What is counted as used, by `apcu_fetch` or `apcu_entry`, is in memory in every run, whatever user code does. */
  lemma CountedStays(n: nat, run: seq<(nat, Choice)>, t: nat, at: int)
    requires t < n && Uses(After(n, run).threads[t], at)
    ensures InMemory(After(n, run).heap, at)
  {
    RunSafe(n, run);
    assert Present(After(n, run), t);
  }

  /** And so is what an iterator has come to that was not called from inside `apcu_entry`. */
  lemma OutsideStays(n: nat, run: seq<(nat, Choice)>, t: nat, at: int)
    requires t < n && After(n, run).threads[t].level == 0 && Visits(After(n, run).threads[t], at)
    ensures InMemory(After(n, run).heap, at)
  {
    RunSafe(n, run);
    assert Present(After(n, run), t);
  }

  // ---------------------------------------------------------------- a run in which an entry goes

  /** A polite run of thread 0 alone leads to this state. */
  ghost predicate Reaches(n: nat, run: seq<(nat, Choice)>, s: State) {
    After(n, run) == s && Polite(n, run)
  }

  lemma OneMore(n: nat, run: seq<(nat, Choice)>, s: State, c: Choice, r: State)
    requires Reaches(n, run, s) && !Rude(s, 0, c) && Do(s, 0, c) == r
    ensures Reaches(n, run + [(0, c)], r)
  {
    hide Do, After, Polite, Rude;
    Snoc(n, run, 0, c);
    PoliteStep(n, run + [(0, c)]);
    assert (run + [(0, c)])[..|run|] == run;
  }

  lemma StoresPolitely(n: nat, k: string)
    requires 0 < n
    ensures Reaches(n, Stores(k), Alone(n, Thread(0, [], User), None, Holding(k)))
  {
    hide Do, After, Polite, Holding;
    var none: seq<(nat, Choice)> := [];
    var put := Put(k, false, {});
    var s, t := Alone(n, Thread(0, [], Asking(put, User)), None, Heap(map[], {}, 0)),
                Alone(n, Thread(0, [], Inside(put, User)), Some(0), Heap(map[], {}, 0));
    NobodyWaits(n);
    StoresSteps(n, k);
    StoresLast(n, k);
    assert After(n, none) == Start(n) by { NoSteps(n); }
    OneMore(n, none, Start(n), Call(put), s);
    OneMore(n, none + [(0, Call(put))], s, Go, t);
    OneMore(n, none + [(0, Call(put))] + [(0, Go)], t, Go, Alone(n, Thread(0, [], User), None, Holding(k)));
    assert none + [(0, Call(put))] == [(0, Call(put))];
  }

  lemma NoSteps(n: nat)
    ensures After(n, []) == Start(n)
  {
  }

  /** `apcu_entry` runs a generator, which runs an iterator, which restores a value; its wake-up deletes the entry. */
  function Deletion(k: string, g: string): (cs: seq<Choice>)
    ensures |cs| == 10
  {
    [CallEntry(g), Go, Go, Call(Browse), Go, Visit(0), Call(Drop(k)), Go, Go, Return(true)]
  }

  /** The state after so many steps of it. */
  function Scene(n: nat, k: string, g: string, i: nat): State
    requires 0 < n
  {
    var h, gen := Holding(k), [Generating(g)];
    match i
    case 0 => Alone(n, Thread(0, [], User), None, h)
    case 1 => Alone(n, Thread(0, [], Entering(g)), None, h)
    case 2 => Alone(n, Thread(1, [], Looking(g)), Some(0), h)
    case 3 => Alone(n, Thread(1, gen, User), Some(0), h)
    case 4 => Alone(n, Thread(1, gen, Asking(Browse, User)), Some(0), h)
    case 5 => Alone(n, Thread(1, gen, Inside(Browse, User)), Some(0), h)
    case 6 => Alone(n, Thread(1, gen + [Browsing(0)], User), Some(0), h)
    case 7 => Alone(n, Thread(1, gen + [Browsing(0)], Asking(Drop(k), User)), Some(0), h)
    case 8 => Alone(n, Thread(1, gen + [Browsing(0)], Inside(Drop(k), User)), Some(0), h)
    case 9 => Alone(n, Thread(1, gen + [Browsing(0)], User), Some(0), Heap(map[], {}, 1))
    case _ => Alone(n, Thread(1, gen, Walking(0)), Some(0), Heap(map[], {}, 1))
  }

  lemma EnterScene(n: nat, k: string, g: string, i: nat)
    requires 0 < n && k != g && i < 3
    ensures Do(Scene(n, k, g, i), 0, Deletion(k, g)[i]) == Scene(n, k, g, i + 1)
  {
    hide InSection, Effect, Used;
    assert [] + [Generating(g)] == [Generating(g)];
  }

  lemma BrowseScene(n: nat, k: string, g: string, i: nat)
    requires 0 < n && 3 <= i < 6
    ensures Do(Scene(n, k, g, i), 0, Deletion(k, g)[i]) == Scene(n, k, g, i + 1)
  {
    hide InEntry, Effect, Used;
    assert Holding(k).linked[k].at == 0;
  }

  lemma DropScene(n: nat, k: string, g: string)
    requires 0 < n
    ensures Do(Scene(n, k, g, 6), 0, Call(Drop(k))) == Scene(n, k, g, 7)
    ensures Do(Scene(n, k, g, 7), 0, Go) == Scene(n, k, g, 8)
  {
    hide InEntry, Effect, Used;
  }

  lemma GoneScene(n: nat, k: string, g: string)
    requires 0 < n
    ensures Do(Scene(n, k, g, 8), 0, Go) == Scene(n, k, g, 9)
  {
    var s := Scene(n, k, g, 8);
    forall t, f | 0 <= t < n && f in s.threads[t].stack ensures !Counts(f) {
      assert s.threads[t].stack == if t == 0 then [Generating(g), Browsing(0)] else [];
    }
    assert Used(s.threads) == {};
    assert Effect(s.heap, {}, 0, Drop(k)) == Heap(map[], {}, 1);
  }

  lemma ReturnScene(n: nat, k: string, g: string)
    requires 0 < n
    ensures Do(Scene(n, k, g, 9), 0, Return(true)) == Scene(n, k, g, 10)
  {
    assert ([Generating(g)] + [Browsing(0)])[..1] == [Generating(g)];
  }

  lemma SceneStep(n: nat, k: string, g: string, i: nat)
    requires 0 < n && k != g && i < 10
    ensures Do(Scene(n, k, g, i), 0, Deletion(k, g)[i]) == Scene(n, k, g, i + 1)
    ensures !Rude(Scene(n, k, g, i), 0, Deletion(k, g)[i])
  {
    hide Do, Holding;
    if i < 3 {
      EnterScene(n, k, g, i);
    } else if i < 6 {
      BrowseScene(n, k, g, i);
    } else if i < 8 {
      DropScene(n, k, g);
    } else if i == 8 {
      GoneScene(n, k, g);
    } else {
      ReturnScene(n, k, g);
    }
  }

  /** The first steps of that run, all by thread 0. */
  function Steps(cs: seq<Choice>, i: nat): seq<(nat, Choice)>
    requires i <= |cs|
  {
    if i == 0 then [] else Steps(cs, i - 1) + [(0, cs[i - 1])]
  }

  lemma {:induction false} SceneRuns(n: nat, k: string, g: string, i: nat)
    requires 0 < n && k != g && i <= 10
    ensures Reaches(n, Stores(k) + Steps(Deletion(k, g), i), Scene(n, k, g, i))
  {
    hide Do, Reaches, Rude, Stores, Deletion;
    if i == 0 {
      StoresPolitely(n, k);
      assert Stores(k) + [] == Stores(k);
    } else {
      SceneRuns(n, k, g, i - 1);
      SceneStep(n, k, g, i - 1);
      OneMore(n, Stores(k) + Steps(Deletion(k, g), i - 1), Scene(n, k, g, i - 1), Deletion(k, g)[i - 1], Scene(n, k, g, i));
      assert Stores(k) + Steps(Deletion(k, g), i) == Stores(k) + Steps(Deletion(k, g), i - 1) + [(0, Deletion(k, g)[i - 1])];
    }
  }

  lemma LastScene(n: nat, k: string, g: string)
    requires 0 < n
    ensures Scene(n, k, g, 10).threads[0].doing == Walking(0) && !InMemory(Scene(n, k, g, 10).heap, 0)
  {
  }

  /** One thread is enough, and nobody waits for anything: the iterator is back at an entry that is gone. */
  lemma WakeUpDeletes(n: nat, k: string, g: string)
    requires 0 < n && k != g
    ensures var run := Stores(k) + Steps(Deletion(k, g), 10);
      && Polite(n, run) && After(n, run).threads[0].doing == Walking(0) && !InMemory(After(n, run).heap, 0)
      && RemovedIn(n, run, 0, 0)
  {
    hide After, Polite, Stores, Steps, Deletion, RemovedIn, Scene;
    SceneRuns(n, k, g, 10);
    LastScene(n, k, g);
    GoneIffRemoved(n, Stores(k) + Steps(Deletion(k, g), 10), 0, 0);
  }
}
