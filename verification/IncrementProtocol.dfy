/**
 Many threads counting on one key: `apcu_inc`, `apcu_dec` and `apcu_cas`, step by step.
 The key's entry is neither removed nor expired meanwhile, and every allocation succeeds.
 */
module IncrementProtocol {

  // ---------------------------------------------------------------- 64-bit integers

  const TWO_63 := 0x8000_0000_0000_0000
  const TWO_64 := 0x1_0000_0000_0000_0000

  /** The integer a 64-bit word holds after overflow wraps around. */
  function Wrap(x: int): (r: int)
    ensures -0x8000_0000_0000_0000 <= r < 0x8000_0000_0000_0000
    ensures (x - r) % 0x1_0000_0000_0000_0000 == 0
  {
    (x + TWO_63) % TWO_64 - TWO_63
  }

  lemma WrapWraps(x: int, y: int)
    ensures Wrap(Wrap(x) + y) == Wrap(x + y)
  {
  }

  // ---------------------------------------------------------------- the machine

  datatype Op = Add(step: int) | Cas(expected: int, desired: int)

  datatype Answer = Number(n: int) | Flag(ok: bool)

  datatype Cell = Missing | Present(value: int)

  /** Where a thread is in the update; `again` on the second attempt. */
  datatype Phase =
    | Begin(again: bool)
    | Looking(again: bool)       // read lock
    | Found                      // read lock
    | NotFound(again: bool)      // read lock
    | Ran(a: Answer)             // read lock
    | Storing                    // a zero is persisted
    | Inserting                  // write lock
    | Judged(absent: bool)       // write lock
    | Stored                     // write lock
    | Done(a: Answer)

  /** What took effect: the insertion of the zero, or the operation of a thread. */
  datatype Event = Zero | Effect(t: nat)

  datatype State = State(cell: Cell, phases: seq<Phase>, history: seq<Event>)

  predicate Reading(p: Phase) {
    p.Looking? || p.Found? || p.NotFound? || p.Ran?
  }

  predicate Writing(p: Phase) {
    p.Inserting? || p.Judged? || p.Stored?
  }

  predicate NoWriter(s: State) {
    forall u :: 0 <= u < |s.phases| ==> !Writing(s.phases[u])
  }

  predicate NoReader(s: State) {
    forall u :: 0 <= u < |s.phases| ==> !Reading(s.phases[u])
  }

  function Perform(v: int, op: Op): (int, Answer) {
    match op
    case Add(d) => (Wrap(v + d), Number(Wrap(v + d)))
    case Cas(old_, new_) => if v == old_ then (new_, Flag(true)) else (v, Flag(false))
  }

  /** The next step of thread `t`, which has `op` to do; a thread that needs a lock it cannot have waits. */
  function Move(s: State, t: nat, op: Op): (r: State)
    requires t < |s.phases|
    ensures |r.phases| == |s.phases|
  {
    match s.phases[t]
    case Begin(again) => if NoWriter(s) then s.(phases := s.phases[t := Looking(again)]) else s
    case Looking(again) =>
      if s.cell.Present? then s.(phases := s.phases[t := Found])
      else if op.Add? then s.(phases := s.phases[t := NotFound(again)])
      else s.(phases := s.phases[t := Ran(Flag(false))], history := s.history + [Effect(t)])
    case Found =>
      if s.cell.Missing? then s
      else
        var (v, a) := Perform(s.cell.value, op);
        State(Present(v), s.phases[t := Ran(a)], s.history + [Effect(t)])
    case NotFound(again) => s.(phases := s.phases[t := if again then Done(Flag(false)) else Storing])
    case Ran(a) => s.(phases := s.phases[t := Done(a)])
    case Storing => if NoWriter(s) && NoReader(s) then s.(phases := s.phases[t := Inserting]) else s
    case Inserting => s.(phases := s.phases[t := Judged(s.cell.Missing?)])
    case Judged(absent) =>
      if absent then State(Present(0), s.phases[t := Stored], s.history + [Zero])
      else s.(phases := s.phases[t := Stored])
    case Stored => s.(phases := s.phases[t := Begin(true)])
    case Done(_) => s
  }

  /** The state after a run: which thread moves at each point. */
  function After(start: Cell, ops: seq<Op>, run: seq<nat>): (s: State)
    ensures |s.phases| == |ops|
  {
    if run == [] then State(start, seq(|ops|, i => Begin(false)), [])
    else
      var s := After(start, ops, run[..|run| - 1]);
      var t := run[|run| - 1];
      if t < |ops| then Move(s, t, ops[t]) else s
  }

  // ---------------------------------------------------------------- one operation after another

  /** The cell after the events of a history, one at a time. */
  function Replay(start: Cell, ops: seq<Op>, h: seq<Event>): Cell {
    if h == [] then start
    else
      var c := Replay(start, ops, h[..|h| - 1]);
      match h[|h| - 1]
      case Zero => if c.Missing? then Present(0) else c
      case Effect(t) => if c.Present? && t < |ops| then Present(Perform(c.value, ops[t]).0) else c
  }

  /** What the operation of the event at position `i` answers, run after those before it. */
  function AnswerAt(start: Cell, ops: seq<Op>, h: seq<Event>, i: nat): Answer
    requires i < |h| && h[i].Effect? && h[i].t < |ops|
  {
    var c := Replay(start, ops, h[..i]);
    if c.Present? then Perform(c.value, ops[h[i].t]).1 else Flag(false)
  }

  function StepOf(op: Op): int {
    if op.Add? then op.step else 0
  }

  predicate Acted(p: Phase) {
    p.Ran? || p.Done?
  }

  /** The steps of all threads whose addition has taken effect. */
  function Total(ops: seq<Op>, phases: seq<Phase>): int
    requires |ops| == |phases|
  {
    if ops == [] then 0 else (if Acted(phases[0]) then StepOf(ops[0]) else 0) + Total(ops[1..], phases[1..])
  }

  function Sum(ops: seq<Op>): int {
    if ops == [] then 0 else StepOf(ops[0]) + Sum(ops[1..])
  }

  // ---------------------------------------------------------------- what is kept

  ghost predicate Excluded(s: State) {
    forall t, u {:trigger s.phases[t], s.phases[u]} :: 0 <= t < |s.phases| && 0 <= u < |s.phases| && t != u && Writing(s.phases[t]) ==>
      !Writing(s.phases[u]) && !Reading(s.phases[u])
  }

  /** What a phase tells about the cell. */
  ghost predicate Tells(s: State, p: Phase) {
    && (p.Found? || p.Stored? || (p.Begin? && p.again) || (p.Looking? && p.again) ==> s.cell.Present?)
    && (p.NotFound? ==> !p.again)
    && (p.Judged? ==> p.absent == s.cell.Missing?)
  }

  function Zeros(h: seq<Event>): nat {
    if h == [] then 0 else Zeros(h[..|h| - 1]) + if h[|h| - 1] == Zero then 1 else 0
  }

  /** The history explains what happened: who acted, once each, with which answer, and what is in the cell. */
  ghost predicate Explains(start: Cell, ops: seq<Op>, s: State)
    requires |s.phases| == |ops|
  {
    var h := s.history;
    && s.cell == Replay(start, ops, h)
    && Zeros(h) == (if start.Missing? && s.cell.Present? then 1 else 0)
    && (forall i {:trigger h[i]} :: 0 <= i < |h| && h[i].Effect? ==> h[i].t < |ops| && Acted(s.phases[h[i].t]))
    && (forall i {:trigger AnswerAt(start, ops, h, i)} :: 0 <= i < |h| && h[i].Effect? ==>
          AnswerAt(start, ops, h, i) == s.phases[h[i].t].a)
    && (forall i, j {:trigger h[i], h[j]} :: 0 <= i < j < |h| && h[i].Effect? ==> h[i] != h[j])
    && (forall t {:trigger s.phases[t]} :: 0 <= t < |ops| && Acted(s.phases[t]) ==>
          Effect(t) in h && (ops[t].Add? ==> s.phases[t].a.Number? && s.cell.Present?))
  }

  ghost predicate Kept(start: Cell, ops: seq<Op>, s: State) {
    && |s.phases| == |ops| && Excluded(s)
    && (forall t {:trigger s.phases[t]} :: 0 <= t < |s.phases| ==> Tells(s, s.phases[t]))
    && Explains(start, ops, s)
  }

  // ---------------------------------------------------------------- every step keeps it

  lemma MoveExcluded(s: State, t: nat, op: Op)
    requires t < |s.phases| && Excluded(s)
    ensures Excluded(Move(s, t, op))
  {
  }

  lemma MoveTells(s: State, t: nat, op: Op, u: nat)
    requires t < |s.phases| && u < |s.phases| && Excluded(s)
    requires Tells(s, s.phases[u]) && Tells(s, s.phases[t])
    ensures Tells(Move(s, t, op), Move(s, t, op).phases[u])
  {
  }

  /** A history that grows by one event. */
  lemma Grow(start: Cell, ops: seq<Op>, h: seq<Event>, e: Event)
    ensures var g := h + [e]; var c := Replay(start, ops, h);
      && Zeros(g) == Zeros(h) + (if e == Zero then 1 else 0)
      && Replay(start, ops, g) == (match e
           case Zero => if c.Missing? then Present(0) else c
           case Effect(t) => if c.Present? && t < |ops| then Present(Perform(c.value, ops[t]).0) else c)
      && (e.Effect? && e.t < |ops| ==> AnswerAt(start, ops, g, |h|) == if c.Present? then Perform(c.value, ops[e.t]).1 else Flag(false))
      && (forall i {:trigger g[i]} :: 0 <= i < |h| ==> g[i] == h[i])
      && (forall i {:trigger AnswerAt(start, ops, g, i)} :: 0 <= i < |h| && h[i].Effect? && h[i].t < |ops| ==>
            AnswerAt(start, ops, g, i) == AnswerAt(start, ops, h, i))
  {
    var g := h + [e];
    assert g[..|h|] == h;
    forall i | 0 <= i < |h| ensures g[..i] == h[..i] {
    }
  }

  /** A step without an event. */
  lemma QuietExplains(start: Cell, ops: seq<Op>, s: State, t: nat, p: Phase)
    requires t < |s.phases| == |ops| && Explains(start, ops, s)
    requires Acted(p) == Acted(s.phases[t]) && (Acted(p) ==> p.a == s.phases[t].a)
    ensures Explains(start, ops, s.(phases := s.phases[t := p]))
  {
  }

  lemma ZeroExplains(start: Cell, ops: seq<Op>, s: State, t: nat)
    requires t < |s.phases| == |ops| && Explains(start, ops, s) && s.phases[t] == Judged(true) && s.cell.Missing?
    ensures Explains(start, ops, State(Present(0), s.phases[t := Stored], s.history + [Zero]))
  {
    hide Replay, AnswerAt, Zeros;
    Grow(start, ops, s.history, Zero);
    NeverMissing(start, ops, s.history);
  }

  lemma {:induction false} NeverMissing(start: Cell, ops: seq<Op>, h: seq<Event>)
    ensures start.Present? ==> Replay(start, ops, h).Present?
  {
    if h != [] {
      NeverMissing(start, ops, h[..|h| - 1]);
    }
  }

  lemma EffectExplains(start: Cell, ops: seq<Op>, s: State, t: nat)
    requires t < |s.phases| == |ops| && Explains(start, ops, s) && !Acted(s.phases[t])
    requires (s.cell.Missing? ==> ops[t].Cas?)
    ensures var a := if s.cell.Present? then Perform(s.cell.value, ops[t]).1 else Flag(false);
      var c := if s.cell.Present? then Present(Perform(s.cell.value, ops[t]).0) else s.cell;
      Explains(start, ops, State(c, s.phases[t := Ran(a)], s.history + [Effect(t)]))
  {
    hide Replay, AnswerAt, Zeros;
    Grow(start, ops, s.history, Effect(t));
    assert Effect(t) !in s.history;
    var g := s.history + [Effect(t)];
    assert g[|s.history|] == Effect(t);
  }

  lemma MoveExplains(start: Cell, ops: seq<Op>, s: State, t: nat)
    requires t < |s.phases| == |ops| && Explains(start, ops, s) && Tells(s, s.phases[t])
    ensures Explains(start, ops, Move(s, t, ops[t]))
  {
    hide Explains;
    match s.phases[t]
    case Begin(again) => QuietExplains(start, ops, s, t, Looking(again));
    case Looking(again) =>
      if s.cell.Present? {
        QuietExplains(start, ops, s, t, Found);
      } else if ops[t].Add? {
        QuietExplains(start, ops, s, t, NotFound(again));
      } else {
        EffectExplains(start, ops, s, t);
      }
    case Found => EffectExplains(start, ops, s, t);
    case NotFound(again) => QuietExplains(start, ops, s, t, Storing);
    case Ran(a) => QuietExplains(start, ops, s, t, Done(a));
    case Storing => QuietExplains(start, ops, s, t, Inserting);
    case Inserting => QuietExplains(start, ops, s, t, Judged(s.cell.Missing?));
    case Judged(absent) =>
      if absent {
        ZeroExplains(start, ops, s, t);
      } else {
        QuietExplains(start, ops, s, t, Stored);
      }
    case Stored => QuietExplains(start, ops, s, t, Begin(true));
    case Done(_) =>
  }

  lemma {:induction false} RunKeeps(start: Cell, ops: seq<Op>, run: seq<nat>)
    ensures Kept(start, ops, After(start, ops, run))
  {
    if run != [] {
      RunKeeps(start, ops, run[..|run| - 1]);
      var s := After(start, ops, run[..|run| - 1]);
      var t := run[|run| - 1];
      if t < |ops| {
        MoveKept(start, ops, s, t);
      }
    }
  }

  lemma MoveKept(start: Cell, ops: seq<Op>, s: State, t: nat)
    requires t < |ops| && Kept(start, ops, s)
    ensures Kept(start, ops, Move(s, t, ops[t]))
  {
    hide Explains, Tells, Excluded;
    var r := Move(s, t, ops[t]);
    assert Tells(s, s.phases[t]);
    MoveExcluded(s, t, ops[t]);
    MoveExplains(start, ops, s, t);
    forall u {:trigger r.phases[u]} | 0 <= u < |r.phases| ensures Tells(r, r.phases[u]) {
      assert Tells(s, s.phases[u]);
      MoveTells(s, t, ops[t], u);
    }
  }

  // ---------------------------------------------------------------- the results

  function Base(start: Cell): int {
    if start.Present? then start.value else 0
  }

  lemma {:induction false} TotalChanges(ops: seq<Op>, phases: seq<Phase>, t: nat, p: Phase)
    requires t < |ops| == |phases|
    ensures Total(ops, phases[t := p]) == Total(ops, phases)
      - (if Acted(phases[t]) then StepOf(ops[t]) else 0) + (if Acted(p) then StepOf(ops[t]) else 0)
  {
    if t == 0 {
      assert phases[t := p][1..] == phases[1..];
    } else {
      assert phases[t := p][1..] == phases[1..][t - 1 := p];
      TotalChanges(ops[1..], phases[1..], t - 1, p);
    }
  }

  lemma {:induction false} NothingYet(ops: seq<Op>, phases: seq<Phase>)
    requires |ops| == |phases| && forall t :: 0 <= t < |phases| ==> !Acted(phases[t])
    ensures Total(ops, phases) == 0
  {
    if ops != [] {
      NothingYet(ops[1..], phases[1..]);
    }
  }

  lemma {:induction false} AllActed(ops: seq<Op>, phases: seq<Phase>)
    requires |ops| == |phases| && forall t :: 0 <= t < |phases| ==> Acted(phases[t])
    ensures Total(ops, phases) == Sum(ops)
  {
    if ops != [] {
      AllActed(ops[1..], phases[1..]);
    }
  }

  /** At any time the cell holds the sum of the steps that have taken effect. */
  ghost predicate Adds(start: Cell, ops: seq<Op>, s: State)
    requires |s.phases| == |ops|
  {
    if s.cell.Present? then s.cell.value == Wrap(Base(start) + Total(ops, s.phases)) else Total(ops, s.phases) == 0 && start.Missing?
  }

  lemma MoveAdds(start: Cell, ops: seq<Op>, s: State, t: nat)
    requires t < |ops| && Kept(start, ops, s) && Adds(start, ops, s) && ops[t].Add?
    ensures Adds(start, ops, Move(s, t, ops[t]))
  {
    hide Excluded, Explains;
    var r := Move(s, t, ops[t]);
    assert Tells(s, s.phases[t]);
    assert r.phases == s.phases[t := r.phases[t]];
    TotalChanges(ops, s.phases, t, r.phases[t]);
    if s.phases[t].Found? {
      WrapWraps(Base(start) + Total(ops, s.phases), ops[t].step);
    }
  }

  lemma {:induction false} RunAdds(start: Cell, ops: seq<Op>, run: seq<nat>)
    requires forall t :: 0 <= t < |ops| ==> ops[t].Add?
    requires start.Present? ==> Wrap(start.value) == start.value
    ensures Adds(start, ops, After(start, ops, run))
  {
    if run == [] {
      NothingYet(ops, After(start, ops, run).phases);
    } else {
      var init, t := run[..|run| - 1], run[|run| - 1];
      RunAdds(start, ops, init);
      RunKeeps(start, ops, init);
      if t < |ops| {
        MoveAdds(start, ops, After(start, ops, init), t);
      }
    }
  }

  /**
   No lost increments: in every interleaving the zero is inserted at most once, and only
   if the key was missing; what took effect is one history, which gives every caller its
   answer; and once all are done the value is the sum of all steps.
   */
  lemma NoLostIncrements(start: Cell, ops: seq<Op>, run: seq<nat>)
    requires forall t :: 0 <= t < |ops| ==> ops[t].Add?
    requires start.Present? ==> Wrap(start.value) == start.value
    ensures var s := After(start, ops, run);
      && Explains(start, ops, s)
      && Zeros(s.history) == (if start.Missing? && s.cell.Present? then 1 else 0)
      && (ops != [] && (forall t :: 0 <= t < |ops| ==> s.phases[t].Done?) ==>
            s.cell == Present(Wrap(Base(start) + Sum(ops))) && forall t :: 0 <= t < |ops| ==> s.phases[t].a.Number?)
  {
    hide Replay, After, Zeros, Excluded;
    var s := After(start, ops, run);
    RunKeeps(start, ops, run);
    RunAdds(start, ops, run);
    if ops != [] && forall t :: 0 <= t < |ops| ==> s.phases[t].Done? {
      AllActed(ops, s.phases);
      assert s.phases[0].Done?;
    }
  }

  /**
   What event `i` of a history found in the cell and left there: an addition answers the new
   value; a compare-and-swap writes, and answers yes, exactly if it found what it expects.
   */
  ghost predicate Follows(start: Cell, ops: seq<Op>, s: State, i: nat)
    requires |s.phases| == |ops| && i < |s.history|
  {
    var h := s.history;
    var found, left := Replay(start, ops, h[..i]), Replay(start, ops, h[..i + 1]);
    match h[i]
    case Zero => left == if found.Missing? then Present(0) else found
    case Effect(t) =>
      && t < |ops| && Acted(s.phases[t])
      && match ops[t]
         case Add(d) => found.Present? && left == Present(Wrap(found.value + d)) && s.phases[t].a == Number(Wrap(found.value + d))
         case Cas(expected, desired) =>
           && s.phases[t].a == Flag(found == Present(expected))
           && left == if found == Present(expected) then Present(desired) else found
  }

  /**
   Mixed with `apcu_cas` too, one history explains all answers and the final value: it
   starts with the first cell, ends with the last, and every event follows from the one before.
   */
  lemma OneHistory(start: Cell, ops: seq<Op>, run: seq<nat>)
    ensures Explains(start, ops, After(start, ops, run))
    ensures var s := After(start, ops, run); var h := s.history;
      Replay(start, ops, h[..0]) == start && Replay(start, ops, h[..|h|]) == s.cell
    ensures var s := After(start, ops, run);
      forall i {:trigger Follows(start, ops, s, i)} :: 0 <= i < |s.history| ==> Follows(start, ops, s, i)
  {
    hide After, Replay, AnswerAt, Zeros, Excluded, Tells;
    RunKeeps(start, ops, run);
    var s := After(start, ops, run);
    HistoryEnds(start, ops, s);
    assert s.history[..|s.history|] == s.history && s.history[..0] == [];
    forall i {:trigger Follows(start, ops, s, i)} | 0 <= i < |s.history| ensures Follows(start, ops, s, i) {
      EventFollows(start, ops, s, i);
    }
  }

  lemma HistoryEnds(start: Cell, ops: seq<Op>, s: State)
    requires |s.phases| == |ops| && Explains(start, ops, s)
    ensures Replay(start, ops, []) == start && Replay(start, ops, s.history) == s.cell
  {
  }

  lemma EventFollows(start: Cell, ops: seq<Op>, s: State, i: nat)
    requires |s.phases| == |ops| && Explains(start, ops, s) && i < |s.history|
    ensures Follows(start, ops, s, i)
  {
    var h := s.history;
    assert h[..i + 1] == h[..i] + [h[i]];
    Grow(start, ops, h[..i], h[i]);
    if h[i].Effect? {
      assert AnswerAt(start, ops, h, i) == s.phases[h[i].t].a;
    }
  }

  function Rank(p: Phase): nat {
    match p
    case Begin(again) => if again then 4 else 11
    case Looking(again) => if again then 3 else 10
    case NotFound(again) => if again then 2 else 9
    case Storing => 8
    case Inserting => 7
    case Judged(_) => 6
    case Stored => 5
    case Found => 2
    case Ran(_) => 1
    case Done(_) => 0
  }

  /** Until all are done some thread can go on, and every step that changes anything takes its thread closer to the end. */
  lemma NoDeadlock(start: Cell, ops: seq<Op>, s: State)
    requires Kept(start, ops, s) && exists t :: 0 <= t < |ops| && !s.phases[t].Done?
    ensures exists t: nat :: t < |ops| && Move(s, t, ops[t]) != s
    ensures forall t: nat :: t < |ops| && Move(s, t, ops[t]) != s ==> Rank(Move(s, t, ops[t]).phases[t]) < Rank(s.phases[t])
  {
    hide Explains, Move, Rank;
    SomeoneMoves(start, ops, s);
    forall t: nat | t < |ops| && Move(s, t, ops[t]) != s ensures Rank(Move(s, t, ops[t]).phases[t]) < Rank(s.phases[t]) {
      assert Tells(s, s.phases[t]);
      MoveProgresses(s, t, ops[t]);
    }
  }

  lemma MoveProgresses(s: State, t: nat, op: Op)
    requires t < |s.phases| && Tells(s, s.phases[t])
    ensures Move(s, t, op) == s || Rank(Move(s, t, op).phases[t]) < Rank(s.phases[t])
  {
  }

  lemma SomeoneMoves(start: Cell, ops: seq<Op>, s: State)
    requires Kept(start, ops, s) && exists t :: 0 <= t < |ops| && !s.phases[t].Done?
    ensures exists t: nat :: t < |ops| && Move(s, t, ops[t]) != s
  {
    hide Explains, Rank;
    if t: nat :| t < |ops| && Writing(s.phases[t]) {
      assert Move(s, t, ops[t]).phases[t] != s.phases[t];
    } else if t: nat :| t < |ops| && Reading(s.phases[t]) {
      assert Tells(s, s.phases[t]);
      assert Move(s, t, ops[t]).phases[t] != s.phases[t];
    } else {
      var t: nat :| t < |ops| && !s.phases[t].Done?;
      assert Move(s, t, ops[t]).phases[t] != s.phases[t];
    }
  }
}
