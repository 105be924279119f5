/**
 `apcu_entry`, `apcu_fetch` and iterators among other cache operations, step by step.  User
 code runs under the write lock of `apcu_entry`, under the read lock of an iterator that
 restores values, and under no lock while a fetched value is restored; it may call back into
 the cache, and the lock wrappers look at the thread's entry level.
 */
module EntryProtocol {
  import opened Collections

  /**
   User code that the cache runs.  Restoring an entry that was found counts it as used; an
   iterator does not count the entry it restores.
   */
  datatype Frame =
    | Generating(key: string)                          // the generator of apcu_entry
    | Restoring(key: string, at: int)                  // apcu_entry restores the entry it found
    | Fetching(at: int)                                // apcu_fetch restores the entry it found
    | Browsing(at: int)                                // an iterator restores the entry it has come to

  /** What a short section does once it has the lock; `swept` are the expired entries an insertion comes by. */
  datatype Act =
    | Peek | Fetch(key: string) | Browse
    | Put(key: string, exclusive: bool, swept: set<string>) | Drop(key: string) | Expunge(gone: set<string>) | Clear

  datatype Doing =
    | User                                             // user code, at the top or in the innermost frame
    | Entering(key: string)                            // at the lock of apcu_entry
    | Looking(key: string)                             // entry level raised, looks the key up
    | Storing(key: string)                             // the generator is over, its value is to be stored
    | Lowering                                         // the entry level is to be lowered
    | Leaving                                          // at the unlock of apcu_entry
    | Asking(act: Act, next: Doing)                    // at the lock of a short section
    | Inside(act: Act, next: Doing)                    // in it
    | Walking(at: int)                                 // back in an iterator, which reads on from an entry

  datatype Thread = Thread(level: nat, stack: seq<Frame>, doing: Doing)

  /** Lookups miss an entry whose own time is over; insertions remove one whose idle time is over, too. */
  datatype Age = Fresh | Soft | Hard

  /** An entry in a chain, and the thread that stored it. */
  datatype Cell = Cell(at: int, owner: nat, age: Age)

  /** The entries in the chains, those removed while in use, and a number no entry has had yet. */
  datatype Heap = Heap(linked: map<string, Cell>, aside: set<int>, unused: int)

  datatype State = State(threads: seq<Thread>, writer: Option<nat>, readers: multiset<nat>, heap: Heap)

  datatype Choice =
    | CallEntry(key: string) | Call(act: Act)          // user code calls the cache
    | Visit(at: int)                                   // an iterator restores the value of an entry
    | Return(ok: bool)                                 // user code of the innermost frame is over
    | NeedRoom(gone: set<string>)                      // the allocator expunges before a value is stored
    | NoRoom                                           // and still finds none
    | Insert(swept: set<string>)                       // it is stored
    | Grow(key: string, age: Age)                      // time passes, or somebody reads an entry
    | Go

  predicate Writes(act: Act) {
    !act.Peek? && !act.Fetch? && !act.Browse?
  }

  // ---------------------------------------------------------------- the entries

  predicate Live(h: Heap, k: string) {
    k in h.linked && h.linked[k].age != Hard
  }

  predicate Counts(f: Frame) {
    f.Restoring? || f.Fetching?
  }

  /** The entries somebody is counted as using. */
  ghost function Used(threads: seq<Thread>): set<int> {
    set t, f | 0 <= t < |threads| && f in threads[t].stack && Counts(f) :: f.at
  }

  /** The collector frees the removed entries nobody uses. */
  ghost function Collected(h: Heap, used: set<int>): Heap {
    h.(aside := h.aside * used)
  }

  /** Takes entries out of their chains: those in use are set aside, the others freed. */
  ghost function Off(h: Heap, gone: set<string>, used: set<int>): Heap {
    h.(linked := h.linked - gone,
       aside := h.aside + (set k | k in h.linked && k in gone && h.linked[k].at in used :: h.linked[k].at))
  }

  /** The entries that an act takes out of their chains. */
  ghost function Chosen(h: Heap, act: Act): set<string> {
    match act
    case Put(k, exclusive, swept) =>
      (set x | x in swept && x in h.linked && x != k && h.linked[x].age != Fresh) + if exclusive && Live(h, k) then {} else {k}
    case Drop(k) => {k}
    case Expunge(gone) => gone
    case Clear => h.linked.Keys
    case _ => {}
  }

  /** Insertions and the allocator's call-back run the collector first. */
  predicate Collects(act: Act) {
    act.Put? || act.Expunge?
  }

  /** What an act makes of the entries. */
  ghost function Effect(h: Heap, used: set<int>, t: nat, act: Act): Heap {
    var r := Off(if Collects(act) then Collected(h, used) else h, Chosen(h, act), used);
    if act.Put? && !(act.exclusive && Live(h, act.key)) then
      r.(linked := r.linked[act.key := Cell(h.unused, t, Fresh)], unused := h.unused + 1)
    else r
  }

  predicate InMemory(h: Heap, at: int) {
    at in h.aside || exists k {:trigger h.linked[k]} :: k in h.linked && h.linked[k].at == at
  }

  /** An entry whose own time is over stays so. */
  function Aged(h: Heap, k: string, age: Age): Heap {
    if Live(h, k) then h.(linked := h.linked[k := h.linked[k].(age := age)]) else h
  }

  // ---------------------------------------------------------------- the lock wrappers

  /** Whether the wrapper lets thread `t` in now: inside `apcu_entry` it does not touch the lock. */
  predicate MayLock(s: State, t: nat, write: bool)
    requires t < |s.threads|
  {
    s.threads[t].level > 0 || (s.writer.None? && (write ==> s.readers == multiset{}))
  }

  function Lock(s: State, t: nat, write: bool): (r: State)
    requires t < |s.threads|
    ensures r.threads == s.threads && r.heap == s.heap
  {
    if s.threads[t].level > 0 then s
    else if write then s.(writer := Some(t))
    else s.(readers := s.readers[t := s.readers[t] + 1])
  }

  function Unlock(s: State, t: nat, write: bool): (r: State)
    requires t < |s.threads|
    ensures r.threads == s.threads && r.heap == s.heap
  {
    if s.threads[t].level > 0 then s
    else if write then s.(writer := None)
    else s.(readers := s.readers - multiset{t})
  }

  function With(s: State, t: nat, th: Thread): (r: State)
    requires t < |s.threads|
    ensures |r.threads| == |s.threads|
  {
    s.(threads := s.threads[t := th])
  }

  /** User code starts to run in a new frame. */
  function Pushed(th: Thread, f: Frame): Thread {
    th.(stack := th.stack + [f], doing := User)
  }

  /** What a thread does when the user code of a frame is over. */
  function AfterReturn(f: Frame, ok: bool): Doing {
    match f
    case Generating(k) => if ok then Storing(k) else Lowering
    case Restoring(_, _) => Lowering
    case Fetching(_) => User
    case Browsing(at) => Walking(at)
  }

  /** User code calls the cache, or is over. */
  function OfUser(s: State, t: nat, c: Choice): (r: State)
    requires t < |s.threads|
    ensures |r.threads| == |s.threads|
  {
    var th := s.threads[t];
    if c.CallEntry? then With(s, t, th.(doing := Entering(c.key)))
    else if c.Call? then With(s, t, th.(doing := Asking(c.act, User)))
    else if c.Return? && th.stack != [] then
      With(s, t, th.(stack := th.stack[..|th.stack| - 1], doing := AfterReturn(th.stack[|th.stack| - 1], c.ok)))
    else s
  }

  /** `apcu_entry` goes on. */
  ghost function InEntry(s: State, t: nat, c: Choice): (r: State)
    requires t < |s.threads|
    ensures |r.threads| == |s.threads|
  {
    var th := s.threads[t];
    match th.doing
    case Entering(k) =>
      if c.Go? && MayLock(s, t, true) then With(Lock(s, t, true), t, th.(level := th.level + 1, doing := Looking(k))) else s
    case Looking(k) =>
      if !c.Go? then s
      else With(s, t, Pushed(th, if Live(s.heap, k) then Restoring(k, s.heap.linked[k].at) else Generating(k)))
    case Storing(k) =>
      if c.NeedRoom? then With(s, t, th.(doing := Asking(Expunge(c.gone), Storing(k))))
      else if c.NoRoom? then With(s, t, th.(doing := Lowering))
      else if c.Insert? then
        With(s, t, th.(doing := Lowering)).(heap := Effect(s.heap, Used(s.threads), t, Put(k, true, c.swept)))
      else s
    case Lowering => if c.Go? && th.level > 0 then With(s, t, th.(level := th.level - 1, doing := Leaving)) else s
    case Leaving => if c.Go? then With(Unlock(s, t, true), t, th.(doing := User)) else s
    case _ => s
  }

  /**
   A short section goes on.  An iterator goes along a chain, or along the removed entries if
   the one it has come to is among them by now.
   */
  ghost function InSection(s: State, t: nat, c: Choice): (r: State)
    requires t < |s.threads|
    ensures |r.threads| == |s.threads|
  {
    var th := s.threads[t];
    match th.doing
    case Asking(act, next) =>
      if c.Go? && MayLock(s, t, Writes(act)) then With(Lock(s, t, Writes(act)), t, th.(doing := Inside(act, next))) else s
    case Inside(act, next) =>
      if act.Browse? && c.Visit? && InMemory(s.heap, c.at) then With(s, t, Pushed(th, Browsing(c.at)))
      else if !c.Go? then s
      else if act.Fetch? && Live(s.heap, act.key) then
        With(Unlock(s, t, false), t, Pushed(th, Fetching(s.heap.linked[act.key].at)))
      else
        With(Unlock(s, t, Writes(act)), t, th.(doing := next)).(heap := Effect(s.heap, Used(s.threads), t, act))
    case Walking(_) =>
      if c.Visit? && InMemory(s.heap, c.at) then With(s, t, Pushed(th, Browsing(c.at)))
      else if c.Go? then With(Unlock(s, t, false), t, th.(doing := User))
      else s
    case _ => s
  }

  predicate OnSection(d: Doing) {
    d.Asking? || d.Inside? || d.Walking?
  }

  /** One step of thread `t`; a choice that does not apply, or a lock it cannot have, makes it wait. */
  ghost function Do(s: State, t: nat, c: Choice): (r: State)
    ensures |r.threads| == |s.threads|
  {
    if t >= |s.threads| then s
    else if c.Grow? then s.(heap := Aged(s.heap, c.key, c.age))
    else if s.threads[t].doing.User? then OfUser(s, t, c)
    else if OnSection(s.threads[t].doing) then InSection(s, t, c)
    else InEntry(s, t, c)
  }

  function Start(n: nat): State {
    State(seq(n, i => Thread(0, [], User)), None, multiset{}, Heap(map[], {}, 0))
  }

  ghost function After(n: nat, run: seq<(nat, Choice)>): (s: State)
    ensures |s.threads| == n
  {
    if run == [] then Start(n)
    else
      var last := run[|run| - 1];
      Do(After(n, run[..|run| - 1]), last.0, last.1)
  }

  // ---------------------------------------------------------------- what is kept

  /** Whether the thread is inside an `apcu_entry` whose user code is not running. */
  function Extra(d: Doing): nat {
    match d
    case Looking(_) => 1
    case Storing(_) => 1
    case Lowering => 1
    case Asking(_, next) => if next.Storing? then 1 else 0
    case Inside(_, next) => if next.Storing? then 1 else 0
    case _ => 0
  }

  predicate OfEntry(f: Frame) {
    f.Generating? || f.Restoring?
  }

  /** How many frames belong to `apcu_entry`. */
  function Entries(stack: seq<Frame>): nat {
    if stack == [] then 0 else Entries(stack[..|stack| - 1]) + (if OfEntry(stack[|stack| - 1]) then 1 else 0)
  }

  /** How many frames belong to iterators that were not called from inside `apcu_entry`. */
  function Outer(stack: seq<Frame>): nat {
    if stack == [] then 0
    else
      var rest := stack[..|stack| - 1];
      Outer(rest) + if stack[|stack| - 1].Browsing? && Entries(rest) == 0 then 1 else 0
  }

  predicate InRead(d: Doing) {
    d.Walking? || (d.Inside? && !Writes(d.act))
  }

  predicate HoldsWrite(th: Thread) {
    th.level > 0 || th.doing.Leaving? || (th.doing.Inside? && Writes(th.doing.act))
  }

  /** How many read locks a thread has: inside `apcu_entry` the wrappers take none. */
  function Reads(th: Thread): nat {
    Outer(th.stack) + if th.level == 0 && InRead(th.doing) then 1 else 0
  }

  /** The entry level counts the calls of `apcu_entry`, the first of which was not made under a read lock. */
  ghost predicate Balanced(th: Thread) {
    && th.level == Entries(th.stack) + Extra(th.doing)
    && (th.level > 0 ==> Outer(th.stack) == 0)
    && (th.doing.Asking? || th.doing.Inside? ==>
          th.doing.next.User? || (th.doing.next.Storing? && Writes(th.doing.act)))
  }

  /** The locks thread `t` has are those its place and level call for. */
  ghost predicate Fits(s: State, t: nat)
    requires t < |s.threads|
  {
    && Balanced(s.threads[t])
    && (s.writer == Some(t) <==> HoldsWrite(s.threads[t]))
    && s.readers[t] == Reads(s.threads[t])
  }

  ghost predicate Kept(s: State) {
    && (forall t {:trigger Fits(s, t)} {:trigger s.threads[t]} :: 0 <= t < |s.threads| ==> Fits(s, t))
    && (s.writer.Some? ==> s.readers == multiset{} && s.writer.value < |s.threads|)
    && (forall u :: u in s.readers ==> u < |s.threads|)
    && (forall t, k {:trigger Generating(k) in s.threads[t].stack} ::
          0 <= t < |s.threads| && Generating(k) in s.threads[t].stack && Live(s.heap, k) ==> s.heap.linked[k].owner == t)
  }

  lemma {:induction false} NoEntries(stack: seq<Frame>)
    ensures Entries(stack) == 0 <==> forall i {:trigger stack[i]} :: 0 <= i < |stack| ==> !OfEntry(stack[i])
  {
    if stack != [] {
      NoEntries(stack[..|stack| - 1]);
    }
  }

  lemma {:induction false} NoOuter(stack: seq<Frame>)
    requires Entries(stack) == 0
    ensures Outer(stack) == 0 <==> forall i {:trigger stack[i]} :: 0 <= i < |stack| ==> !stack[i].Browsing?
  {
    if stack != [] {
      NoOuter(stack[..|stack| - 1]);
    }
  }

  lemma BrowsersRead(stack: seq<Frame>)
    requires Entries(stack) == 0
    ensures Outer(stack) > 0 <==> exists f :: f in stack && f.Browsing?
  {
    NoOuter(stack);
    if Outer(stack) > 0 {
      var i :| 0 <= i < |stack| && stack[i].Browsing?;
      assert stack[i] in stack;
    }
  }

  /** What one frame more adds. */
  lemma FrameMore(stack: seq<Frame>, f: Frame)
    ensures Entries(stack + [f]) == Entries(stack) + if OfEntry(f) then 1 else 0
    ensures Outer(stack + [f]) == Outer(stack) + if f.Browsing? && Entries(stack) == 0 then 1 else 0
  {
    assert (stack + [f])[..|stack|] == stack;
  }

  /** What one frame less takes away. */
  lemma FrameLess(stack: seq<Frame>)
    requires stack != []
    ensures var rest, f := stack[..|stack| - 1], stack[|stack| - 1];
      && Entries(stack) == Entries(rest) + (if OfEntry(f) then 1 else 0)
      && Outer(stack) == Outer(rest) + if f.Browsing? && Entries(rest) == 0 then 1 else 0
  {
  }

  lemma StepOfUser(s: State, t: nat, c: Choice)
    requires Kept(s) && t < |s.threads| && s.threads[t].doing.User?
    ensures Fits(Do(s, t, c), t)
  {
    hide InEntry, InSection, Entries, Outer, Kept, Effect, Aged;
    var th := s.threads[t];
    KeptThread(s, t);
    if th.stack != [] {
      FrameLess(th.stack);
    }
  }

  lemma StepOfLooking(s: State, t: nat, c: Choice)
    requires Kept(s) && t < |s.threads| && s.threads[t].doing.Looking?
    ensures Fits(Do(s, t, c), t)
  {
    hide OfUser, InSection, Entries, Outer, Kept, Effect, Aged;
    var k := s.threads[t].doing.key;
    KeptThread(s, t);
    FrameMore(s.threads[t].stack, if Live(s.heap, k) then Restoring(k, s.heap.linked[k].at) else Generating(k));
  }

  /** A reader's frame keeps the locks what its place calls for, and so does its way out. */
  lemma ReaderPushes(s: State, t: nat, at: int)
    requires t < |s.threads| && Fits(s, t) && InRead(s.threads[t].doing)
    requires (s.threads[t].doing.Inside? ==> s.threads[t].doing.next.User?)
    ensures Fits(With(s, t, Pushed(s.threads[t], Browsing(at))), t)
  {
    hide Entries, Outer;
    FrameMore(s.threads[t].stack, Browsing(at));
  }

  lemma ReaderLeaves(s: State, t: nat)
    requires t < |s.threads| && Fits(s, t) && InRead(s.threads[t].doing)
    requires (s.threads[t].doing.Inside? ==> s.threads[t].doing.next.User?)
    requires s.writer.Some? ==> s.readers == multiset{}
    ensures Fits(With(Unlock(s, t, false), t, s.threads[t].(doing := User)), t)
    ensures forall at :: Fits(With(Unlock(s, t, false), t, Pushed(s.threads[t], Fetching(at))), t)
  {
    hide Entries, Outer;
    forall at ensures Fits(With(Unlock(s, t, false), t, Pushed(s.threads[t], Fetching(at))), t) {
      FrameMore(s.threads[t].stack, Fetching(at));
    }
  }

  lemma StepOfReader(s: State, t: nat, c: Choice)
    requires Kept(s) && t < |s.threads| && (s.threads[t].doing.Inside? || s.threads[t].doing.Walking?)
    requires InRead(s.threads[t].doing)
    ensures Fits(Do(s, t, c), t)
  {
    hide OfUser, InEntry, Kept, Effect, Aged, InMemory, With, Unlock, Pushed, Reads, HoldsWrite, Used;
    KeptThread(s, t);
    ReaderLeaves(s, t);
    if c.Grow? {
      FitsAnyHeap(s, t, Aged(s.heap, c.key, c.age));
    } else if c.Visit? {
      ReaderPushes(s, t, c.at);
    } else if s.threads[t].doing.Inside? {
      FitsAnyHeap(With(Unlock(s, t, false), t, s.threads[t].(doing := User)), t,
        Effect(s.heap, Used(s.threads), t, s.threads[t].doing.act));
    }
  }

  lemma FitsAnyHeap(s: State, t: nat, heap: Heap)
    requires t < |s.threads| && Fits(s, t)
    ensures Fits(s.(heap := heap), t)
  {
  }

  lemma StepOfWriter(s: State, t: nat, c: Choice)
    requires Kept(s) && t < |s.threads| && (s.threads[t].doing.Asking? || s.threads[t].doing.Inside?)
    requires !InRead(s.threads[t].doing)
    ensures Fits(Do(s, t, c), t)
  {
    hide OfUser, InEntry, Entries, Outer, Kept, Effect, Aged, InMemory, Live;
    KeptThread(s, t);
  }

  lemma StepOfEntry(s: State, t: nat, c: Choice)
    requires Kept(s) && t < |s.threads| && !s.threads[t].doing.User? && !OnSection(s.threads[t].doing)
    ensures Fits(Do(s, t, c), t)
  {
    hide OfUser, InSection, Entries, Outer, Kept, Effect, Aged;
    if s.threads[t].doing.Looking? {
      StepOfLooking(s, t, c);
    } else {
      KeptThread(s, t);
    }
  }

  lemma StepThread(s: State, t: nat, c: Choice)
    requires Kept(s) && t < |s.threads|
    ensures Fits(Do(s, t, c), t)
  {
    hide Do, Kept, Fits;
    var th := s.threads[t];
    if th.doing.User? {
      StepOfUser(s, t, c);
    } else if !OnSection(th.doing) {
      StepOfEntry(s, t, c);
    } else if InRead(th.doing) {
      StepOfReader(s, t, c);
    } else {
      StepOfWriter(s, t, c);
    }
  }

  lemma KeptThread(s: State, t: nat)
    requires Kept(s) && t < |s.threads|
    ensures Fits(s, t) && (s.writer.Some? ==> s.readers == multiset{})
  {
  }

  /** Thread `t` changes no other one, and takes or gives back no lock but its own. */
  predicate Passes(s: State, t: nat, r: State)
    requires t < |s.threads|
  {
    && |r.threads| == |s.threads|
    && (forall u {:trigger r.threads[u]} :: 0 <= u < |s.threads| && u != t ==> r.threads[u] == s.threads[u])
    && (|| (r.writer == s.writer && r.readers == s.readers)
        || (s.writer.None? && s.readers == multiset{} && r.writer == Some(t) && r.readers == s.readers)
        || (s.writer.None? && r.writer.None? && r.readers == s.readers[t := s.readers[t] + 1])
        || (HoldsWrite(s.threads[t]) && r.writer.None? && r.readers == s.readers)
        || (r.writer == s.writer && r.readers == s.readers - multiset{t}))
  }

  lemma SamePasses(s: State, t: nat, r: State)
    requires t < |s.threads| && r.threads == s.threads && r.writer == s.writer && r.readers == s.readers
    ensures Passes(s, t, r)
  {
  }

  lemma WithPasses(s: State, t: nat, th: Thread)
    requires t < |s.threads|
    ensures Passes(s, t, With(s, t, th)) && With(s, t, th).threads[t] == th
  {
  }

  lemma LockPasses(s: State, t: nat, write: bool, th: Thread)
    requires t < |s.threads| && MayLock(s, t, write)
    ensures Passes(s, t, With(Lock(s, t, write), t, th))
  {
  }

  lemma UnlockPasses(s: State, t: nat, write: bool, th: Thread, heap: Heap)
    requires t < |s.threads| && (write ==> HoldsWrite(s.threads[t]))
    ensures Passes(s, t, With(Unlock(s, t, write), t, th))
    ensures Passes(s, t, With(Unlock(s, t, write), t, th).(heap := heap))
  {
  }

  lemma UserPasses(s: State, t: nat, c: Choice)
    requires t < |s.threads|
    ensures Passes(s, t, OfUser(s, t, c))
  {
  }

  lemma EntryPasses(s: State, t: nat, c: Choice)
    requires t < |s.threads|
    ensures Passes(s, t, InEntry(s, t, c))
  {
    hide Effect, Live, Used, Pushed;
  }

  lemma SectionPasses(s: State, t: nat, c: Choice)
    requires t < |s.threads|
    ensures Passes(s, t, InSection(s, t, c))
  {
    hide Effect, InMemory, Used, Pushed, Writes, Passes, Lock, Unlock, With, MayLock;
    var th := s.threads[t];
    SamePasses(s, t, s);
    match th.doing
    case Asking(act, next) =>
      if MayLock(s, t, Writes(act)) {
        LockPasses(s, t, Writes(act), th.(doing := Inside(act, next)));
      }
    case Inside(act, next) =>
      if act.Browse? && c.Visit? {
        WithPasses(s, t, Pushed(th, Browsing(c.at)));
      } else if act.Fetch? && Live(s.heap, act.key) {
        UnlockPasses(s, t, false, Pushed(th, Fetching(s.heap.linked[act.key].at)), s.heap);
      } else {
        UnlockPasses(s, t, Writes(act), th.(doing := next), Effect(s.heap, Used(s.threads), t, act));
      }
    case Walking(_) =>
      if c.Visit? {
        WithPasses(s, t, Pushed(th, Browsing(c.at)));
      } else {
        UnlockPasses(s, t, false, th.(doing := User), s.heap);
      }
    case _ =>
  }

  lemma StepPasses(s: State, t: nat, c: Choice)
    requires t < |s.threads|
    ensures Passes(s, t, Do(s, t, c))
  {
    hide Aged, OfUser, InEntry, InSection, Passes;
    UserPasses(s, t, c);
    EntryPasses(s, t, c);
    SectionPasses(s, t, c);
    if c.Grow? {
      SamePasses(s, t, Do(s, t, c));
    }
  }

  lemma StepOthers(s: State, t: nat, c: Choice, u: nat)
    requires Kept(s) && t < |s.threads| && u < |s.threads| && u != t
    ensures var r := Do(s, t, c);
      && r.threads[u] == s.threads[u] && r.readers[u] == s.readers[u] && (r.writer == Some(u) <==> s.writer == Some(u))
      && Fits(r, u)
  {
    hide Do, Kept, Balanced, Reads;
    KeptThread(s, t);
    KeptThread(s, u);
    StepPasses(s, t, c);
  }

  lemma StepLocks(s: State, t: nat, c: Choice)
    requires Kept(s)
    ensures Do(s, t, c).writer.Some? ==> Do(s, t, c).readers == multiset{} && Do(s, t, c).writer.value < |s.threads|
    ensures forall u :: u in Do(s, t, c).readers ==> u < |s.threads|
  {
    hide Do, Balanced, Reads;
    if t < |s.threads| {
      StepPasses(s, t, c);
      KeptThread(s, t);
    } else {
      BeyondStill(s, t, c);
    }
  }

  lemma GeneratesInside(th: Thread, k: string)
    requires Balanced(th) && Generating(k) in th.stack
    ensures th.level > 0
  {
    NoEntries(th.stack);
  }

  lemma EffectLive(h: Heap, used: set<int>, t: nat, act: Act, k: string)
    requires Live(Effect(h, used, t, act), k)
    ensures Effect(h, used, t, act).linked[k].owner == t || (Live(h, k) && Effect(h, used, t, act).linked[k] == h.linked[k])
  {
  }

  /** A step of thread `t` makes entries of its own live only, and that with the write lock. */
  lemma StepLive(s: State, t: nat, c: Choice, k: string)
    requires Kept(s) && t < |s.threads| && Live(Do(s, t, c).heap, k)
    ensures var r := Do(s, t, c);
      || (Live(s.heap, k) && r.heap.linked[k].owner == s.heap.linked[k].owner)
      || (r.heap.linked[k].owner == t && HoldsWrite(s.threads[t]))
  {
    hide Entries, Outer, Kept, Effect, InMemory, Used;
    KeptThread(s, t);
    var th := s.threads[t];
    if th.doing.Inside? {
      ReadsOnly(s.heap, Used(s.threads), t, th.doing.act);
    }
    forall act | Live(Effect(s.heap, Used(s.threads), t, act), k)
      ensures Effect(s.heap, Used(s.threads), t, act).linked[k].owner == t
           || (Live(s.heap, k) && Effect(s.heap, Used(s.threads), t, act).linked[k] == s.heap.linked[k])
    {
      EffectLive(s.heap, Used(s.threads), t, act, k);
    }
  }

  lemma ReadsOnly(h: Heap, used: set<int>, t: nat, act: Act)
    ensures !Writes(act) ==> Effect(h, used, t, act) == h
  {
    if !Writes(act) {
      assert h.linked - {} == h.linked;
    }
  }

  lemma StepGenerates(s: State, t: nat, c: Choice, u: nat, k: string)
    requires Kept(s) && t < |s.threads| && u < |s.threads|
    requires Generating(k) in Do(s, t, c).threads[u].stack && Live(Do(s, t, c).heap, k)
    ensures Do(s, t, c).heap.linked[k].owner == u
  {
    hide Do, Entries, Outer, HoldsWrite;
    StepLive(s, t, c, k);
    if u != t {
      StepOthers(s, t, c, u);
      WriterAlone(s, t, u, k);
    } else if !(Generating(k) in s.threads[t].stack) {
      StartsGenerating(s, t, c, k);
    }
  }

  /** While a generator runs, no other thread has the write lock. */
  lemma WriterAlone(s: State, t: nat, u: nat, k: string)
    requires Kept(s) && t < |s.threads| && u < |s.threads| && u != t && Generating(k) in s.threads[u].stack
    ensures !HoldsWrite(s.threads[t])
  {
    hide Entries, Outer;
    KeptThread(s, t);
    KeptThread(s, u);
    GeneratesInside(s.threads[u], k);
  }

  /** A generator starts to run only if there is no live entry. */
  lemma StartsGenerating(s: State, t: nat, c: Choice, k: string)
    requires Kept(s) && t < |s.threads| && Generating(k) !in s.threads[t].stack
    requires Generating(k) in Do(s, t, c).threads[t].stack
    ensures !Live(Do(s, t, c).heap, k)
  {
    hide Entries, Outer, Kept, Effect, InMemory, Used, MayLock, Lock, Unlock, Writes;
    PoppedFrames(s.threads[t].stack);
  }

  lemma PoppedFrames(stack: seq<Frame>)
    ensures stack != [] ==> forall f :: f in stack[..|stack| - 1] ==> f in stack
  {
  }

  lemma StepKeeps(s: State, t: nat, c: Choice)
    requires Kept(s)
    ensures Kept(Do(s, t, c))
  {
    hide Do, Entries, Outer;
    var r := Do(s, t, c);
    StepLocks(s, t, c);
    if t < |s.threads| {
      forall u {:trigger r.threads[u]} | 0 <= u < |r.threads|
        ensures Fits(r, u)
      {
        if u == t {
          StepThread(s, t, c);
        } else {
          StepOthers(s, t, c, u);
        }
      }
      forall u, k {:trigger Generating(k) in r.threads[u].stack} |
        0 <= u < |r.threads| && Generating(k) in r.threads[u].stack && Live(r.heap, k)
        ensures k in r.heap.linked && r.heap.linked[k].owner == u
      {
        StepGenerates(s, t, c, u, k);
      }
    } else {
      BeyondStill(s, t, c);
    }
  }

  lemma BeyondStill(s: State, t: nat, c: Choice)
    requires t >= |s.threads|
    ensures Do(s, t, c) == s
  {
  }

  // ---------------------------------------------------------------- whole runs

  lemma {:induction false} RunKeeps(n: nat, run: seq<(nat, Choice)>)
    ensures Kept(After(n, run))
  {
    if run == [] {
      forall t | 0 <= t < n ensures Fits(Start(n), t) {
        assert Start(n).threads[t] == Thread(0, [], User);
      }
    } else {
      RunKeeps(n, run[..|run| - 1]);
      StepKeeps(After(n, run[..|run| - 1]), run[|run| - 1].0, run[|run| - 1].1);
    }
  }

  /**
   While user code runs, its thread has the write lock exactly when its entry level is
   positive, that is when `apcu_entry` is among its callers.  Else it has a read lock for
   each iterator among them.
   */
  lemma LevelIsTheLock(n: nat, run: seq<(nat, Choice)>, t: nat)
    requires t < n && After(n, run).threads[t].doing.User?
    ensures var s := After(n, run); var th := s.threads[t];
      && (s.writer == Some(t) <==> th.level > 0)
      && (th.level > 0 <==> exists f :: f in th.stack && OfEntry(f))
      && (th.level > 0 ==> t !in s.readers)
      && (th.level == 0 ==> s.readers[t] == Outer(th.stack) && (t in s.readers <==> exists f :: f in th.stack && f.Browsing?))
  {
    RunKeeps(n, run);
    var th := After(n, run).threads[t];
    KeptThread(After(n, run), t);
    NoEntries(th.stack);
    if th.level > 0 {
      var i :| 0 <= i < |th.stack| && OfEntry(th.stack[i]);
      assert th.stack[i] in th.stack;
    } else {
      BrowsersRead(th.stack);
    }
  }

  /** `apcu_entry` runs in one thread at a time, user code and all, and nobody reads meanwhile. */
  lemma Serialised(n: nat, run: seq<(nat, Choice)>, t: nat, u: nat)
    requires t < n && u < n
    ensures var s := After(n, run);
      s.threads[t].level > 0 ==> s.readers == multiset{} && (s.threads[u].level > 0 ==> u == t)
  {
    RunKeeps(n, run);
    assert Balanced(After(n, run).threads[t]) && Balanced(After(n, run).threads[u]);
  }

  /** While an entry of `k` is live, no thread but the one that stored it runs the generator for `k`. */
  lemma GeneratedOnce(n: nat, run: seq<(nat, Choice)>, t: nat, k: string)
    requires t < n && Live(After(n, run).heap, k) && After(n, run).heap.linked[k].owner != t
    ensures Generating(k) !in After(n, run).threads[t].stack
  {
    RunKeeps(n, run);
  }

  /**
   Which user code comes to run: `apcu_entry` restores the entry of its key if there is one whose
   own time is not over, and else calls the generator; `apcu_fetch` restores such an entry, or
   none; an iterator restores the entry it visits.
   */
  lemma WhatRuns(s: State, t: nat, at: int)
    requires t < |s.threads|
    ensures var th, h := s.threads[t], s.heap;
      && (th.doing.Looking? ==> var k := th.doing.key;
            var f := if k in h.linked && h.linked[k].age != Hard then Restoring(k, h.linked[k].at) else Generating(k);
            Do(s, t, Go).threads[t] == th.(stack := th.stack + [f], doing := User))
      && (th.doing.Inside? && th.doing.act.Fetch? && th.doing.next.User? ==> var k := th.doing.act.key;
            var fs := if k in h.linked && h.linked[k].age != Hard then [Fetching(h.linked[k].at)] else [];
            Do(s, t, Go).threads[t] == th.(stack := th.stack + fs, doing := User))
      && (th.doing.Walking? && InMemory(h, at) ==>
            Do(s, t, Visit(at)).threads[t] == th.(stack := th.stack + [Browsing(at)], doing := User))
  {
    hide Effect, Used, InMemory, MayLock;
    assert s.threads[t].stack + [] == s.threads[t].stack;
  }

  /** What a generator returns is stored, unless its key has got a live entry meanwhile; without a value nothing is. */
  lemma GeneratorStores(s: State, t: nat, k: string, swept: set<string>)
    requires Kept(s) && t < |s.threads| && s.threads[t].doing.User? && s.threads[t].stack != []
    requires s.threads[t].stack[|s.threads[t].stack| - 1] == Generating(k)
    ensures var h := Do(Do(s, t, Return(true)), t, Insert(swept)).heap;
      k in h.linked && h.linked[k].age != Hard && h.linked[k].owner == t
    ensures Do(s, t, Return(false)).threads[t].doing == Lowering && Do(s, t, Return(false)).heap == s.heap
  {
    hide Entries, Outer, Used, InSection;
    var r := Do(s, t, Return(true));
    assert r.threads[t].doing == Storing(k) && r.heap == s.heap;
    assert Generating(k) in s.threads[t].stack;
  }

  // ---------------------------------------------------------------- waiting

  /** Thread `t` is at a lock it cannot have now. */
  predicate Waits(s: State, t: nat)
    requires t < |s.threads|
  {
    var d := s.threads[t].doing;
    || (d.Entering? && !MayLock(s, t, true))
    || (d.Asking? && !MayLock(s, t, Writes(d.act)))
  }

  /**
   Locks are granted whenever they can be: a thread that is at one goes on exactly unless it is
   outside `apcu_entry` and a writer has the lock, or it wants to write and anybody reads.
   */
  lemma LocksGranted(s: State, t: nat)
    requires t < |s.threads| && (s.threads[t].doing.Entering? || s.threads[t].doing.Asking?)
    ensures var th := s.threads[t];
      var write := th.doing.Entering? || th.doing.act.Put? || th.doing.act.Drop? || th.doing.act.Expunge? || th.doing.act.Clear?;
      && (Waits(s, t) <==> th.level == 0 && (s.writer.Some? || (write && s.readers != multiset{})))
      && (Do(s, t, Go).threads[t] == th <==> Waits(s, t))
  {
    hide Entries, Outer, Effect, Used;
  }

  /** Thread `t` waits for the write lock while it has a read lock itself. */
  predicate SelfWaits(s: State, t: nat) {
    t < |s.threads| && t in s.readers && Waits(s, t) && (s.threads[t].doing.Asking? ==> Writes(s.threads[t].doing.act))
  }

  /** User code that an iterator runs outside `apcu_entry` calls something that needs the write lock. */
  predicate Rude(s: State, t: nat, c: Choice) {
    && t < |s.threads| && s.threads[t].doing.User? && s.threads[t].level == 0 && Outer(s.threads[t].stack) > 0
    && (c.CallEntry? || (c.Call? && (c.act.Put? || c.act.Drop? || c.act.Expunge? || c.act.Clear?)))
  }

  /** No user code does so in the run. */
  ghost predicate Polite(n: nat, run: seq<(nat, Choice)>) {
    forall i {:trigger run[i]} :: 0 <= i < |run| ==> !Rude(After(n, run[..i]), run[i].0, run[i].1)
  }

  /** A thread starts to wait for itself by such a call only, and never stops. */
  lemma SelfWaitsStep(s: State, t: nat, c: Choice, u: nat)
    requires Kept(s)
    ensures SelfWaits(Do(s, t, c), u) <==> SelfWaits(s, u) || (u == t && Rude(s, t, c))
  {
    hide Do, Kept, Fits, Rude;
    if t >= |s.threads| {
      BeyondStill(s, t, c);
      assert !Rude(s, t, c) by { NotRude(s, t, c); }
    } else if u < |s.threads| && u != t {
      KeptThread(s, u);
      KeptThread(s, t);
      OtherSelfWaits(s, t, c, u);
    } else if u == t {
      OwnSelfWaits(s, t, c);
    }
  }

  lemma NotRude(s: State, t: nat, c: Choice)
    requires t >= |s.threads|
    ensures !Rude(s, t, c)
  {
  }

  lemma OtherSelfWaits(s: State, t: nat, c: Choice, u: nat)
    requires Kept(s) && t < |s.threads| && u < |s.threads| && u != t
    ensures SelfWaits(Do(s, t, c), u) <==> SelfWaits(s, u)
  {
    hide Do, Kept, Balanced, Reads;
    StepOthers(s, t, c, u);
    StepLocks(s, t, c);
    KeptThread(s, u);
  }

  lemma OwnSelfWaits(s: State, t: nat, c: Choice)
    requires Kept(s) && t < |s.threads|
    ensures SelfWaits(Do(s, t, c), t) <==> SelfWaits(s, t) || Rude(s, t, c)
  {
    hide Do, Kept, Fits, SelfWaits;
    if s.threads[t].doing.User? {
      UserSelfWaits(s, t, c);
    } else {
      NoUserSelfWaits(s, t, c);
    }
  }

  lemma UserSelfWaits(s: State, t: nat, c: Choice)
    requires Kept(s) && t < |s.threads| && s.threads[t].doing.User?
    ensures SelfWaits(Do(s, t, c), t) <==> SelfWaits(s, t) || Rude(s, t, c)
  {
    hide InEntry, InSection, Entries, Outer, Kept, Aged;
    KeptThread(s, t);
  }

  lemma NoUserSelfWaits(s: State, t: nat, c: Choice)
    requires Kept(s) && t < |s.threads| && !s.threads[t].doing.User?
    ensures SelfWaits(Do(s, t, c), t) <==> SelfWaits(s, t)
  {
    hide OfUser, Entries, Outer, Kept, Effect, Aged, InMemory, Live, Used;
    KeptThread(s, t);
    assert s.readers[t] > 0 ==> s.writer == None;
  }

  lemma PoliteStep(n: nat, run: seq<(nat, Choice)>)
    requires run != []
    ensures var m := |run| - 1;
      Polite(n, run) <==> Polite(n, run[..m]) && !Rude(After(n, run[..m]), run[m].0, run[m].1)
  {
    var m := |run| - 1;
    forall i | 0 <= i < m ensures run[..m][..i] == run[..i] && run[..m][i] == run[i] {
    }
    if Polite(n, run[..m]) && !Rude(After(n, run[..m]), run[m].0, run[m].1) {
      forall i {:trigger run[i]} | 0 <= i < |run| ensures !Rude(After(n, run[..i]), run[i].0, run[i].1) {
        assert i < m ==> !Rude(After(n, run[..m][..i]), run[..m][i].0, run[..m][i].1);
      }
    }
  }

  lemma NobodyWaits(n: nat)
    ensures Polite(n, []) && forall t :: !SelfWaits(After(n, []), t)
  {
  }

  /** Some thread waits for itself exactly if user code that an iterator runs has asked for it. */
  lemma {:induction false} SelfWaitsIffRude(n: nat, run: seq<(nat, Choice)>)
    ensures (exists t :: SelfWaits(After(n, run), t)) <==> !Polite(n, run)
  {
    hide Do, Rude, SelfWaits, Polite, Kept;
    if run == [] {
      NobodyWaits(n);
    } else {
      var m := |run| - 1;
      var s := After(n, run[..m]);
      assert After(n, run) == Do(s, run[m].0, run[m].1);
      RunKeeps(n, run[..m]);
      SelfWaitsIffRude(n, run[..m]);
      PoliteStep(n, run);
      forall u ensures SelfWaits(After(n, run), u) <==> SelfWaits(s, u) || (u == run[m].0 && Rude(s, run[m].0, run[m].1)) {
        SelfWaitsStep(s, run[m].0, run[m].1, u);
      }
      if Rude(s, run[m].0, run[m].1) {
        assert SelfWaits(After(n, run), run[m].0);
      } else if u :| SelfWaits(s, u) {
        assert SelfWaits(After(n, run), u);
      }
    }
  }

  lemma NeverSelfWaits(n: nat, run: seq<(nat, Choice)>, t: nat)
    requires Polite(n, run)
    ensures !SelfWaits(After(n, run), t)
  {
    hide SelfWaits;
    SelfWaitsIffRude(n, run);
  }

  lemma SelfWaitsBlocks(s: State, t: nat)
    requires Kept(s) && SelfWaits(s, t)
    ensures s.writer == None
  {
  }

  /** And then it waits for ever, and nobody gets the write lock any more. */
  lemma {:induction false} SelfWaitsForever(n: nat, run: seq<(nat, Choice)>, more: seq<(nat, Choice)>, t: nat)
    requires SelfWaits(After(n, run), t)
    ensures SelfWaits(After(n, run + more), t) && After(n, run + more).writer == None
  {
    hide Do, After, Kept, Rude;
    RunKeeps(n, run + more);
    if more != [] {
      var m := |more| - 1;
      assert run + more == run + more[..m] + [more[m]];
      SelfWaitsForever(n, run, more[..m], t);
      RunKeeps(n, run + more[..m]);
      Snoc(n, run + more[..m], more[m].0, more[m].1);
      SelfWaitsStep(After(n, run + more[..m]), more[m].0, more[m].1, t);
    } else {
      assert run + more == run;
    }
    SelfWaitsBlocks(After(n, run + more), t);
  }

  lemma Snoc(n: nat, run: seq<(nat, Choice)>, t: nat, c: Choice)
    ensures After(n, run + [(t, c)]) == Do(After(n, run), t, c)
  {
    assert (run + [(t, c)])[..|run|] == run;
  }

  /** Thread 0 stores something under `k`. */
  function Stores(k: string): seq<(nat, Choice)> {
    [(0, Call(Put(k, false, {})))] + [(0, Go)] + [(0, Go)]
  }

  /** All threads are idle but for the first. */
  function Alone(n: nat, th: Thread, writer: Option<nat>, heap: Heap): (s: State)
    requires 0 < n
    ensures |s.threads| == n && s.threads[0] == th
  {
    State(Start(n).threads[0 := th], writer, multiset{}, heap)
  }

  function Holding(k: string): Heap {
    Heap(map[k := Cell(0, 0, Fresh)], {}, 1)
  }

  lemma StoresSteps(n: nat, k: string)
    requires 0 < n
    ensures var none := Heap(map[], {}, 0); var put := Put(k, false, {});
      && Do(Start(n), 0, Call(put)) == Alone(n, Thread(0, [], Asking(put, User)), None, none)
      && Do(Alone(n, Thread(0, [], Asking(put, User)), None, none), 0, Go)
         == Alone(n, Thread(0, [], Inside(put, User)), Some(0), none)
  {
  }

  lemma StoresLast(n: nat, k: string)
    requires 0 < n
    ensures Do(Alone(n, Thread(0, [], Inside(Put(k, false, {}), User)), Some(0), Heap(map[], {}, 0)), 0, Go)
         == Alone(n, Thread(0, [], User), None, Holding(k))
  {
    var s := Alone(n, Thread(0, [], Inside(Put(k, false, {}), User)), Some(0), Heap(map[], {}, 0));
    assert Effect(s.heap, Used(s.threads), 0, Put(k, false, {})) == Holding(k);
    assert s.threads[0 := Thread(0, [], User)] == Alone(n, Thread(0, [], User), None, Holding(k)).threads;
  }

  lemma StoresRun(n: nat, k: string)
    requires 0 < n
    ensures After(n, Stores(k)) == Alone(n, Thread(0, [], User), None, Holding(k))
  {
    hide Do, Alone, Holding;
    var none: seq<(nat, Choice)> := [];
    var put := Call(Put(k, false, {}));
    assert none + [(0, put)] == [(0, put)];
    Snoc(n, none, 0, put);
    Snoc(n, [(0, put)], 0, Go);
    Snoc(n, [(0, put)] + [(0, Go)], 0, Go);
    StoresSteps(n, k);
    StoresLast(n, k);
  }

  /** The shortest run of this kind: an iterator restores a value whose wake-up stores something. */
  lemma WakeUpStores(n: nat, k: string)
    requires 0 < n
    ensures SelfWaits(After(n, Stores(k) + [(0, Call(Browse))] + [(0, Go)] + [(0, Visit(0))] + [(0, Call(Put(k, false, {})))]), 0)
  {
    hide Do, After, Stores, Holding;
    var run := Stores(k);
    StoresRun(n, k);
    Snoc(n, run, 0, Call(Browse));
    Snoc(n, run + [(0, Call(Browse))], 0, Go);
    Snoc(n, run + [(0, Call(Browse))] + [(0, Go)], 0, Visit(0));
    Snoc(n, run + [(0, Call(Browse))] + [(0, Go)] + [(0, Visit(0))], 0, Call(Put(k, false, {})));
    FourSteps(n, k);
  }

  lemma FourSteps(n: nat, k: string)
    requires 0 < n
    ensures var s := Alone(n, Thread(0, [], User), None, Holding(k));
      SelfWaits(Do(Do(Do(Do(s, 0, Call(Browse)), 0, Go), 0, Visit(0)), 0, Call(Put(k, false, {}))), 0)
  {
    var s := Alone(n, Thread(0, [], User), None, Holding(k));
    assert s.heap.linked[k].at == 0;
  }

  lemma NotCalledYet(th: Thread)
    requires Balanced(th)
    ensures th.level == 0 ==> (Outer(th.stack) > 0 <==> exists f :: f in th.stack && f.Browsing?)
  {
    if th.level == 0 {
      BrowsersRead(th.stack);
    }
  }

  /**
   Whoever is at a lock and would really take it does not have the write lock, nested calls
   and expunges included, and has a read lock exactly if an iterator called it; in a polite
   run it then asks for a read lock only.
   */
  lemma NeverReacquired(n: nat, run: seq<(nat, Choice)>, t: nat)
    requires t < n
    ensures var s := After(n, run); var th := s.threads[t];
      (th.doing.Entering? || th.doing.Asking?) && th.level == 0 ==>
        && s.writer != Some(t) && (t in s.readers <==> exists f :: f in th.stack && f.Browsing?)
        && (Polite(n, run) && t in s.readers ==> th.doing.Asking? && !Writes(th.doing.act))
  {
    hide Polite, After, Kept, Entries, Outer;
    RunKeeps(n, run);
    var s := After(n, run);
    KeptThread(s, t);
    if s.threads[t].doing.Entering? || s.threads[t].doing.Asking? {
      NotCalledYet(s.threads[t]);
    }
    if Polite(n, run) {
      NeverSelfWaits(n, run, t);
    }
  }

  /**
   Whoever waits waits for a thread that has the lock, and that one does not wait, unless
   it waits for itself.  In a polite run it never does, so there is no deadlock.
   */
  lemma NoDeadlock(n: nat, run: seq<(nat, Choice)>, t: nat) returns (u: nat)
    requires t < n && Waits(After(n, run), t)
    ensures u < n && (After(n, run).writer == Some(u) || u in After(n, run).readers)
    ensures SelfWaits(After(n, run), u) || (u != t && !Waits(After(n, run), u))
    ensures Polite(n, run) ==> u != t && !Waits(After(n, run), u)
  {
    RunKeeps(n, run);
    SelfWaitsIffRude(n, run);
    var s := After(n, run);
    assert Balanced(s.threads[t]);
    if s.writer.Some? {
      u := s.writer.value;
    } else {
      u :| u in s.readers;
    }
    assert Balanced(s.threads[u]);
  }
}
