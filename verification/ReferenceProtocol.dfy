/**
 Many threads on one cache, step by step: readers use entries under the lock, count the
 ones they use beyond it and give them back outside any lock, while a writer unlinks
 entries, reads their counts, frees them, or sets them aside for the collector.  No user
 code runs under the lock here; what it can do there is the subject of `EntryMemory`.
 */
module ReferenceProtocol {

  datatype Lock = Free | Read | Write

  /** What a thread is in the middle of. */
  datatype Doing =
    | Nothing
    | Found(at: int)                                   // uses an entry of a chain, has not counted itself yet
    | Unlinked(at: int)                                // took an entry out of its chain
    | Freeing(at: int)                                 // saw no references to it
    | Collecting(todo: set<int>, now: int)             // walks the removed entries
    | Reaping(at: int, todo: set<int>, now: int)       // decided against one of them

  datatype Thread = Thread(lock: Lock, doing: Doing, held: multiset<int>)

  /** `refs` has the counts of all entries in memory; `gc` when each removed one was removed. */
  datatype State = State(threads: seq<Thread>, refs: map<int, int>, linked: set<int>, gc: map<int, int>, clock: int)

  datatype Step =
    | RLock | WLock | Unlock
    | Lookup(at: int) | Count | Leave | Release(at: int)
    | Insert(at: int) | Unlink(at: int) | Judge | FreeIt
    | StartGc | JudgeRemoved(at: int) | Reap | EndGc
    | Tick

  /** Whether the collector gives up an entry by its age. */
  predicate TooOld(gcTtl: int, dtime: int, now: int) {
    gcTtl != 0 && now - dtime > gcTtl
  }

  predicate Enabled(s: State, t: nat, step: Step)
    requires t < |s.threads|
  {
    var th := s.threads[t];
    match step
    case RLock => th.lock == Free && th.doing == Nothing && forall u :: 0 <= u < |s.threads| ==> s.threads[u].lock != Write
    case WLock => th.lock == Free && th.doing == Nothing && forall u :: 0 <= u < |s.threads| ==> s.threads[u].lock == Free
    case Unlock => th.lock != Free && th.doing == Nothing
    case Lookup(p) => th.lock != Free && th.doing == Nothing && p in s.linked
    case Count => th.doing.Found? && th.doing.at in s.refs
    case Leave => th.doing.Found?
    case Release(p) => p in th.held && p in s.refs
    case Insert(p) => th.lock == Write && th.doing == Nothing && p !in s.refs
    case Unlink(p) => th.lock == Write && th.doing == Nothing && p in s.linked
    case Judge => th.doing.Unlinked? && th.doing.at in s.refs
    case FreeIt => th.doing.Freeing?
    case StartGc => th.lock == Write && th.doing == Nothing
    case JudgeRemoved(p) => th.doing.Collecting? && p in th.doing.todo && p in s.refs && p in s.gc
    case Reap => th.doing.Reaping?
    case EndGc => th.doing.Collecting? && th.doing.todo == {}
    case Tick => true
  }

  function With(s: State, t: nat, th: Thread): State
    requires t < |s.threads|
  {
    s.(threads := s.threads[t := th])
  }

  /** One step of thread `t`; a step that is not enabled waits. */
  function Do(gcTtl: int, s: State, t: nat, step: Step): (r: State)
    ensures |r.threads| == |s.threads|
  {
    if t >= |s.threads| || !Enabled(s, t, step) then s
    else
      var th := s.threads[t];
      match step
      case RLock => With(s, t, th.(lock := Read))
      case WLock => With(s, t, th.(lock := Write))
      case Unlock => With(s, t, th.(lock := Free))
      case Lookup(p) => With(s, t, th.(doing := Found(p)))
      case Count =>
        var p := th.doing.at;
        With(s, t, th.(doing := Nothing, held := th.held + multiset{p})).(refs := s.refs[p := s.refs[p] + 1])
      case Leave => With(s, t, th.(doing := Nothing))
      case Release(p) =>
        With(s, t, th.(held := th.held - multiset{p})).(refs := s.refs[p := s.refs[p] - 1])
      case Insert(p) => s.(refs := s.refs[p := 0], linked := s.linked + {p})
      case Unlink(p) => With(s, t, th.(doing := Unlinked(p))).(linked := s.linked - {p})
      case Judge =>
        var p := th.doing.at;
        if s.refs[p] <= 0 then With(s, t, th.(doing := Freeing(p)))
        else With(s, t, th.(doing := Nothing)).(gc := s.gc[p := s.clock])
      case FreeIt => With(s, t, th.(doing := Nothing)).(refs := s.refs - {th.doing.at})
      case StartGc => With(s, t, th.(doing := Collecting(s.gc.Keys, s.clock)))
      case JudgeRemoved(p) =>
        var rest := th.doing.todo - {p};
        if s.refs[p] == 0 || TooOld(gcTtl, s.gc[p], th.doing.now) then With(s, t, th.(doing := Reaping(p, rest, th.doing.now)))
        else With(s, t, th.(doing := Collecting(rest, th.doing.now)))
      case Reap =>
        With(s, t, th.(doing := Collecting(th.doing.todo, th.doing.now))).(refs := s.refs - {th.doing.at}, gc := s.gc - {th.doing.at})
      case EndGc => With(s, t, th.(doing := Nothing))
      case Tick => s.(clock := s.clock + 1)
  }

  function Start(n: nat): State {
    State(seq(n, i => Thread(Free, Nothing, multiset{})), map[], {}, map[], 0)
  }

  /** The state after a run of `n` threads: which thread moves at each point, and how. */
  function After(gcTtl: int, n: nat, run: seq<(nat, Step)>): (s: State)
    ensures |s.threads| == n
  {
    if run == [] then Start(n)
    else
      var last := run[|run| - 1];
      Do(gcTtl, After(gcTtl, n, run[..|run| - 1]), last.0, last.1)
  }

  // ---------------------------------------------------------------- what is kept

  /** How many references the threads hold on the entry at `p`. */
  function Held(threads: seq<Thread>, p: int): nat {
    if threads == [] then 0 else threads[0].held[p] + Held(threads[1..], p)
  }

  /** Every entry a thread holds a reference on, or uses under the lock, is in memory. */
  predicate Safe(s: State) {
    forall t {:trigger s.threads[t]} :: 0 <= t < |s.threads| ==>
      && (forall p :: p in s.threads[t].held ==> p in s.refs)
      && (s.threads[t].doing.Found? ==> s.threads[t].doing.at in s.refs)
  }

  /** No thread uses an entry for longer than `gcTtl` after it was removed. */
  predicate Prompt(gcTtl: int, s: State) {
    forall t {:trigger s.threads[t]} :: 0 <= t < |s.threads| ==>
      forall p :: p in s.threads[t].held && p in s.gc ==> s.clock - s.gc[p] <= gcTtl
  }

  ghost predicate Excluded(s: State) {
    && (forall t, u {:trigger s.threads[t], s.threads[u]} :: 0 <= t < |s.threads| && 0 <= u < |s.threads| && t != u && s.threads[t].lock == Write ==>
          s.threads[u].lock == Free)
    && (forall t {:trigger s.threads[t]} :: 0 <= t < |s.threads| ==> match s.threads[t].doing
          case Nothing => true
          case Found(_) => s.threads[t].lock != Free
          case _ => s.threads[t].lock == Write)
  }

  /** What a thread in the middle of something relies on. */
  ghost predicate Relies(s: State, d: Doing) {
    match d
    case Nothing => true
    case Found(p) => p in s.linked
    case Unlinked(p) => p in s.refs && p !in s.linked && p !in s.gc
    case Freeing(p) => p in s.refs && p !in s.linked && p !in s.gc && Held(s.threads, p) == 0
    case Collecting(todo, now) => todo <= s.gc.Keys && now <= s.clock
    case Reaping(p, todo, now) => p in s.gc && todo <= s.gc.Keys - {p} && now <= s.clock && Held(s.threads, p) == 0
  }

  ghost predicate Placed(s: State) {
    s.linked <= s.refs.Keys && s.gc.Keys <= s.refs.Keys && s.linked !! s.gc.Keys
  }

  /** Every count is exact. */
  ghost predicate Counted(s: State) {
    forall p {:trigger Held(s.threads, p)} :: Held(s.threads, p) == if p in s.refs then s.refs[p] else 0
  }

  ghost predicate Kept(s: State) {
    && Excluded(s) && Placed(s) && Counted(s)
    && forall t {:trigger s.threads[t]} :: 0 <= t < |s.threads| ==> Relies(s, s.threads[t].doing)
  }

  lemma {:induction false} HeldChanges(threads: seq<Thread>, t: nat, th: Thread, p: int)
    requires t < |threads|
    ensures Held(threads[t := th], p) == Held(threads, p) - threads[t].held[p] + th.held[p]
    ensures threads[t].held[p] <= Held(threads, p)
  {
    if t == 0 {
      assert threads[t := th][1..] == threads[1..];
    } else {
      assert threads[t := th][1..] == threads[1..][t - 1 := th];
      HeldChanges(threads[1..], t - 1, th, p);
    }
  }

  lemma KeptIsSafe(s: State)
    requires Kept(s)
    ensures Safe(s)
  {
    forall t | 0 <= t < |s.threads| ensures forall p :: p in s.threads[t].held ==> p in s.refs {
      forall p | p in s.threads[t].held ensures p in s.refs {
        HeldChanges(s.threads, t, s.threads[t], p);
      }
    }
    forall t {:trigger s.threads[t]} | 0 <= t < |s.threads| && s.threads[t].doing.Found? ensures s.threads[t].doing.at in s.refs {
      assert Relies(s, s.threads[t].doing);
    }
  }

  // ---------------------------------------------------------------- every step keeps it

  lemma StepExcluded(gcTtl: int, s: State, t: nat, step: Step)
    requires Excluded(s)
    ensures Excluded(Do(gcTtl, s, t, step))
  {
  }

  lemma StepPlaced(gcTtl: int, s: State, t: nat, step: Step)
    requires Placed(s) && forall u {:trigger s.threads[u]} :: 0 <= u < |s.threads| ==> Relies(s, s.threads[u].doing)
    ensures Placed(Do(gcTtl, s, t, step))
  {
  }

  lemma StepCounted(gcTtl: int, s: State, t: nat, step: Step)
    requires Placed(s) && Counted(s)
    requires forall u {:trigger s.threads[u]} :: 0 <= u < |s.threads| ==> Relies(s, s.threads[u].doing)
    ensures Counted(Do(gcTtl, s, t, step))
  {
    hide Do, Held, Relies, Placed;
    var r := Do(gcTtl, s, t, step);
    if t < |s.threads| {
      assert Relies(s, s.threads[t].doing);
      forall p ensures Held(r.threads, p) == CountOf(r, p) {
        StepCountedAt(gcTtl, s, t, step, p);
      }
    } else {
      BeyondStill(gcTtl, s, t, step);
    }
  }

  function CountOf(s: State, p: int): int {
    if p in s.refs then s.refs[p] else 0
  }

  lemma StepCountedAt(gcTtl: int, s: State, t: nat, step: Step, p: int)
    requires Placed(s) && t < |s.threads| && Relies(s, s.threads[t].doing) && Held(s.threads, p) == CountOf(s, p)
    ensures var r := Do(gcTtl, s, t, step); Held(r.threads, p) == CountOf(r, p)
  {
    hide Held;
    var r := Do(gcTtl, s, t, step);
    assert r.threads == s.threads[t := r.threads[t]];
    HeldChanges(s.threads, t, r.threads[t], p);
  }

  lemma BeyondStill(gcTtl: int, s: State, t: nat, step: Step)
    requires t >= |s.threads|
    ensures Do(gcTtl, s, t, step) == s
  {
  }

  /** A decision of the collector against an entry is one against an entry nobody holds. */
  lemma JudgedUnheld(gcTtl: int, s: State, p: int, now: int)
    requires Counted(s) && Placed(s) && p in s.gc && now <= s.clock && (gcTtl == 0 || Prompt(gcTtl, s))
    requires s.refs[p] == 0 || TooOld(gcTtl, s.gc[p], now)
    ensures Held(s.threads, p) == 0
  {
    if Held(s.threads, p) > 0 {
      var _ := Holder(s.threads, p);
    }
  }

  lemma {:induction false} Holder(threads: seq<Thread>, p: int) returns (u: nat)
    requires Held(threads, p) > 0
    ensures u < |threads| && p in threads[u].held
  {
    if threads[0].held[p] > 0 {
      u := 0;
    } else {
      u := Holder(threads[1..], p);
      u := u + 1;
    }
  }

  /** What other threads rely on survives a step of thread `t`. */
  lemma StepOthers(gcTtl: int, s: State, t: nat, step: Step, u: nat)
    requires Kept(s) && t < |s.threads| && u < |s.threads| && u != t
    ensures Relies(Do(gcTtl, s, t, step), s.threads[u].doing)
  {
    var r := Do(gcTtl, s, t, step);
    var d := s.threads[u].doing;
    assert Relies(s, d) && Relies(s, s.threads[t].doing);
    if d.Freeing? || d.Reaping? {
      HeldChanges(s.threads, t, r.threads[t], d.at);
      assert r.threads == s.threads[t := r.threads[t]];
    }
  }

  lemma StepOwn(gcTtl: int, s: State, t: nat, step: Step)
    requires Kept(s) && t < |s.threads| && (gcTtl == 0 || Prompt(gcTtl, s))
    ensures Relies(Do(gcTtl, s, t, step), Do(gcTtl, s, t, step).threads[t].doing)
  {
    var r := Do(gcTtl, s, t, step);
    var th := s.threads[t];
    assert Relies(s, th.doing);
    assert r.threads == s.threads[t := r.threads[t]];
    if step.JudgeRemoved? && Enabled(s, t, step) && r.threads[t].doing.Reaping? {
      JudgedUnheld(gcTtl, s, step.at, th.doing.now);
      HeldChanges(s.threads, t, r.threads[t], step.at);
    } else if r.threads[t].doing.Freeing? || r.threads[t].doing.Reaping? {
      HeldChanges(s.threads, t, r.threads[t], r.threads[t].doing.at);
    }
  }

  lemma StepKeeps(gcTtl: int, s: State, t: nat, step: Step)
    requires Kept(s) && (gcTtl == 0 || Prompt(gcTtl, s))
    ensures Kept(Do(gcTtl, s, t, step))
  {
    var r := Do(gcTtl, s, t, step);
    if t < |s.threads| {
      hide Relies, Held, Enabled;
      StepExcluded(gcTtl, s, t, step);
      StepPlaced(gcTtl, s, t, step);
      StepCounted(gcTtl, s, t, step);
      forall u {:trigger r.threads[u]} | 0 <= u < |r.threads| ensures Relies(r, r.threads[u].doing) {
        if u == t {
          StepOwn(gcTtl, s, t, step);
        } else {
          StepOthers(gcTtl, s, t, step, u);
        }
      }
    }
  }

  // ---------------------------------------------------------------- what is freed

  /** An entry taken out of its chain is freed if nobody holds it, and else set aside with the time. */
  lemma RemovalFrees(gcTtl: int, s: State, t: nat)
    requires t < |s.threads| && s.threads[t].doing.Unlinked? && s.threads[t].doing.at in s.refs
    ensures var p, r := s.threads[t].doing.at, Do(gcTtl, Do(gcTtl, s, t, Judge), t, FreeIt);
      if s.refs[p] <= 0 then r.refs == s.refs - {p} && r.gc == s.gc
      else r.refs == s.refs && r.gc == s.gc[p := s.clock]
  {
  }

  /** The collector frees a removed entry exactly if nobody holds it, or it was removed for longer than the limit. */
  lemma CollectorFrees(gcTtl: int, s: State, t: nat, p: int)
    requires t < |s.threads| && s.threads[t].doing.Collecting? && p in s.threads[t].doing.todo && p in s.refs
    requires p in s.gc
    ensures var r := Do(gcTtl, Do(gcTtl, s, t, JudgeRemoved(p)), t, Reap);
      if s.refs[p] == 0 || (gcTtl != 0 && s.threads[t].doing.now - s.gc[p] > gcTtl) then r.refs == s.refs - {p} && r.gc == s.gc - {p}
      else r.refs == s.refs && r.gc == s.gc
  {
  }

  // ---------------------------------------------------------------- whole runs

  lemma StartKept(n: nat)
    ensures Kept(Start(n))
  {
    forall p ensures Held(Start(n).threads, p) == 0 {
      NoneHeld(Start(n).threads, p);
    }
  }

  lemma {:induction false} NoneHeld(threads: seq<Thread>, p: int)
    requires forall t :: 0 <= t < |threads| ==> threads[t].held == multiset{}
    ensures Held(threads, p) == 0
  {
    if threads != [] {
      NoneHeld(threads[1..], p);
    }
  }

  /** On every prefix of the run no thread overstays. */
  ghost predicate AllPrompt(gcTtl: int, n: nat, run: seq<(nat, Step)>) {
    forall k {:trigger run[..k]} :: 0 <= k < |run| ==> Prompt(gcTtl, After(gcTtl, n, run[..k]))
  }

  lemma {:induction false} RunKeeps(gcTtl: int, n: nat, run: seq<(nat, Step)>)
    requires gcTtl == 0 || AllPrompt(gcTtl, n, run)
    ensures Kept(After(gcTtl, n, run))
  {
    if run == [] {
      StartKept(n);
    } else {
      var init := run[..|run| - 1];
      assert forall k :: 0 <= k < |init| ==> init[..k] == run[..k];
      if gcTtl != 0 {
        forall k {:trigger init[..k]} | 0 <= k < |init| ensures Prompt(gcTtl, After(gcTtl, n, init[..k])) {
          assert run[..k] == init[..k];
        }
      }
      RunKeeps(gcTtl, n, init);
      StepKeeps(gcTtl, After(gcTtl, n, init), run[|run| - 1].0, run[|run| - 1].1);
    }
  }

  /**
   No use after free of what is counted, or used under the lock by code that does not call
   back: in every interleaving, when the collector has no time limit or no thread overstays
   it, such entries are in memory, and the counts are exact.
   */
  lemma NoUseAfterFree(gcTtl: int, n: nat, run: seq<(nat, Step)>, p: int)
    requires gcTtl == 0 || AllPrompt(gcTtl, n, run)
    ensures var s := After(gcTtl, n, run);
      && Safe(s)
      && Held(s.threads, p) == if p in s.refs then s.refs[p] else 0
  {
    RunKeeps(gcTtl, n, run);
    KeptIsSafe(After(gcTtl, n, run));
  }

  // ---------------------------------------------------------------- a holder that overstays

  function Ticks(k: nat): (r: seq<(nat, Step)>)
    ensures |r| == k
    ensures forall i :: 0 <= i < k ==> r[i] == (0, Tick)
  {
    seq(k, i => (0, Tick))
  }

  lemma Snoc(gcTtl: int, n: nat, run: seq<(nat, Step)>, t: nat, step: Step)
    ensures After(gcTtl, n, run + [(t, step)]) == Do(gcTtl, After(gcTtl, n, run), t, step)
  {
  }

  lemma TickPasses(gcTtl: int, s: State)
    requires 0 < |s.threads|
    ensures Do(gcTtl, s, 0, Tick) == s.(clock := s.clock + 1)
  {
  }

  lemma {:induction false} TicksPass(gcTtl: int, n: nat, run: seq<(nat, Step)>, k: nat)
    requires 0 < n
    ensures After(gcTtl, n, run + Ticks(k)) == After(gcTtl, n, run).(clock := After(gcTtl, n, run).clock + k)
  {
    hide After, Do;
    if k == 0 {
      assert run + Ticks(0) == run;
    } else {
      TicksPass(gcTtl, n, run, k - 1);
      assert run + Ticks(k) == run + Ticks(k - 1) + [(0, Tick)];
      Snoc(gcTtl, n, run + Ticks(k - 1), 0, Tick);
      TickPasses(gcTtl, After(gcTtl, n, run + Ticks(k - 1)));
    }
  }

  /** Thread 1 holds an entry which thread 0 removes. */
  function Opening(): (r: seq<(nat, Step)>)
    ensures |r| == 10
  {
    [(0, WLock), (0, Insert(1)), (0, Unlock), (1, RLock), (1, Lookup(1)), (1, Count), (1, Unlock),
     (0, WLock), (0, Unlink(1)), (0, Judge)]
  }

  function Two(lock: Lock, doing: Doing, lock1: Lock, doing1: Doing, held1: multiset<int>): seq<Thread> {
    [Thread(lock, doing, multiset{}), Thread(lock1, doing1, held1)]
  }

  /** The state after `k` steps of the opening. */
  function Scene(k: nat): State {
    var none: multiset<int> := multiset{};
    match k
    case 0 => State(Two(Free, Nothing, Free, Nothing, none), map[], {}, map[], 0)
    case 1 => State(Two(Write, Nothing, Free, Nothing, none), map[], {}, map[], 0)
    case 2 => State(Two(Write, Nothing, Free, Nothing, none), map[1 := 0], {1}, map[], 0)
    case 3 => State(Two(Free, Nothing, Free, Nothing, none), map[1 := 0], {1}, map[], 0)
    case 4 => State(Two(Free, Nothing, Read, Nothing, none), map[1 := 0], {1}, map[], 0)
    case 5 => State(Two(Free, Nothing, Read, Found(1), none), map[1 := 0], {1}, map[], 0)
    case 6 => State(Two(Free, Nothing, Read, Nothing, multiset{1}), map[1 := 1], {1}, map[], 0)
    case 7 => State(Two(Free, Nothing, Free, Nothing, multiset{1}), map[1 := 1], {1}, map[], 0)
    case 8 => State(Two(Write, Nothing, Free, Nothing, multiset{1}), map[1 := 1], {1}, map[], 0)
    case 9 => State(Two(Write, Unlinked(1), Free, Nothing, multiset{1}), map[1 := 1], {}, map[], 0)
    case _ => State(Two(Write, Nothing, Free, Nothing, multiset{1}), map[1 := 1], {}, map[1 := 0], 0)
  }

  lemma InsertScene(gcTtl: int, k: nat)
    requires k < 3
    ensures Do(gcTtl, Scene(k), Opening()[k].0, Opening()[k].1) == Scene(k + 1)
  {
  }

  lemma ReadScene(gcTtl: int, k: nat)
    requires 3 <= k < 6
    ensures Do(gcTtl, Scene(k), Opening()[k].0, Opening()[k].1) == Scene(k + 1)
  {
    var s, u, o := Scene(k), Scene(k + 1), Opening()[k];
    assert Enabled(s, o.0, o.1);
    assert s.threads[1].held + multiset{1} == multiset{1};
    assert Do(gcTtl, s, o.0, o.1).threads == u.threads;
  }

  lemma LeaveScene(gcTtl: int)
    ensures Do(gcTtl, Scene(6), 1, Unlock) == Scene(7)
    ensures Do(gcTtl, Scene(7), 0, WLock) == Scene(8)
  {
  }

  lemma RemoveScene(gcTtl: int, k: nat)
    requires 8 <= k < 10
    ensures Do(gcTtl, Scene(k), Opening()[k].0, Opening()[k].1) == Scene(k + 1)
  {
    var s, u, o := Scene(k), Scene(k + 1), Opening()[k];
    assert Enabled(s, o.0, o.1);
    assert Do(gcTtl, s, o.0, o.1).threads == u.threads;
  }

  lemma SceneStep(gcTtl: int, k: nat)
    requires k < 10
    ensures Do(gcTtl, Scene(k), Opening()[k].0, Opening()[k].1) == Scene(k + 1)
  {
    hide Do, Scene;
    if k < 3 {
      InsertScene(gcTtl, k);
    } else if k < 6 {
      ReadScene(gcTtl, k);
    } else if k < 8 {
      LeaveScene(gcTtl);
    } else {
      RemoveScene(gcTtl, k);
    }
  }

  lemma {:induction false} OpeningRuns(gcTtl: int, k: nat)
    requires k <= 10
    ensures After(gcTtl, 2, Opening()[..k]) == Scene(k)
  {
    hide Do, Opening;
    if k == 0 {
      assert Start(2).threads == Scene(0).threads;
    } else {
      OpeningRuns(gcTtl, k - 1);
      SceneStep(gcTtl, k - 1);
      assert Opening()[..k] == Opening()[..k - 1] + [Opening()[k - 1]];
      Snoc(gcTtl, 2, Opening()[..k - 1], Opening()[k - 1].0, Opening()[k - 1].1);
    }
  }

  function Overstay(gcTtl: int): seq<(nat, Step)> {
    Opening() + Ticks(if gcTtl < 0 then 0 else gcTtl + 1) + [(0, StartGc)] + [(0, JudgeRemoved(1))] + [(0, Reap)]
  }

  /** With a time limit, the entry is freed under a holder that overstays it. */
  lemma OverstayIsUnsafe(gcTtl: int)
    requires gcTtl != 0
    ensures !Safe(After(gcTtl, 2, Overstay(gcTtl)))
  {
    hide Do, Scene, After, Opening;
    var k := if gcTtl < 0 then 0 else gcTtl + 1;
    var run := Opening() + Ticks(k);
    assert Opening()[..10] == Opening();
    OpeningRuns(gcTtl, 10);
    TicksPass(gcTtl, 2, Opening(), k);
    Snoc(gcTtl, 2, run, 0, StartGc);
    Snoc(gcTtl, 2, run + [(0, StartGc)], 0, JudgeRemoved(1));
    Snoc(gcTtl, 2, run + [(0, StartGc)] + [(0, JudgeRemoved(1))], 0, Reap);
    SceneClock();
    OverstayedReap(gcTtl, Scene(10).(clock := k));
  }

  lemma SceneClock()
    ensures Scene(10).clock == 0
  {
  }

  lemma OverstayedReap(gcTtl: int, s: State)
    requires s == Scene(10).(clock := s.clock) && TooOld(gcTtl, 0, s.clock)
    ensures !Safe(Do(gcTtl, Do(gcTtl, Do(gcTtl, s, 0, StartGc), 0, JudgeRemoved(1)), 0, Reap))
  {
    var a := Do(gcTtl, s, 0, StartGc);
    assert a == s.(threads := Two(Write, Collecting({1}, s.clock), Free, Nothing, multiset{1})) by {
      assert s.gc.Keys == {1};
      assert a.threads == Two(Write, Collecting({1}, s.clock), Free, Nothing, multiset{1});
    }
    OverstayedJudge(gcTtl, a);
  }

  lemma OverstayedJudge(gcTtl: int, a: State)
    requires a == Scene(10).(clock := a.clock, threads := Two(Write, Collecting({1}, a.clock), Free, Nothing, multiset{1}))
    requires TooOld(gcTtl, 0, a.clock)
    ensures !Safe(Do(gcTtl, Do(gcTtl, a, 0, JudgeRemoved(1)), 0, Reap))
  {
    var b := Do(gcTtl, a, 0, JudgeRemoved(1));
    assert b.threads[0].doing.Reaping? && b.threads[0].doing.at == 1;
    var c := Do(gcTtl, b, 0, Reap);
    assert 1 in c.threads[1].held && 1 !in c.refs;
  }

  /** For counted references every interleaving is safe, whatever the holders do, exactly when the collector has no time limit. */
  lemma SafeWithoutTimeLimitOnly(gcTtl: int)
    ensures (forall n: nat, run {:trigger After(gcTtl, n, run)} :: Safe(After(gcTtl, n, run))) <==> gcTtl == 0
  {
    if gcTtl == 0 {
      forall n: nat, run ensures Safe(After(gcTtl, n, run)) {
        NoUseAfterFree(gcTtl, n, run, 0);
      }
    } else {
      OverstayIsUnsafe(gcTtl);
    }
  }
}
