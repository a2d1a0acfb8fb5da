/**
 The one-shot barrier: an atomic counter and a semaphore.  The last thread to arrive puts
 one unit into the semaphore; each thread that gets it passes it on.
 */
module Barrier {
  import opened Totals
  import S = Semaphores

  /** How far a thread is in `sync`: not in it yet, about to call `down`, in `down`, about to call
      `up`, in `up` with a waiter to schedule, or through. */
  datatype Stage = Before | Downing | Waiting | Upping | Waking | Done

  datatype State = State(count: int, sem: S.State, stages: seq<Stage>, panicked: bool)

  datatype Step = Arrive(t: nat) | InSemaphore(step: S.Step)

  /** Any number of threads around a barrier for `n`. */
  function Init(threads: nat, n: nat): State {
    State(n, S.Init(threads, 0), seq(threads, _ => Before), false)
  }

  function Apply(s: State, step: Step): State {
    if s.panicked || |s.stages| != |s.sem.pcs| then s
    else
      match step
      case Arrive(t) => if t < |s.stages| && s.stages[t] == Before then Arrived(s, t) else s
      case InSemaphore(CallDown(t)) => if t < |s.stages| && s.stages[t] == Downing then CalledDown(s, t) else s
      case InSemaphore(Publish(t)) => s.(sem := S.Apply(s.sem, S.Publish(t)))
      case InSemaphore(CallUp(t)) => if t < |s.stages| && s.stages[t] == Upping then CalledUp(s, t) else s
      case InSemaphore(Schedule(t)) => if t < |s.stages| && s.stages[t] == Waking then Woken(s, t) else s
  }

  function Arrived(s: State, t: nat): State
    requires t < |s.stages|
  {
    var x := s.count - 1;
    if x < 0 then s.(count := x, panicked := true)
    else s.(count := x, stages := s.stages[t := if x == 0 then Upping else Downing])
  }

  function CalledDown(s: State, t: nat): State
    requires t < |s.stages| == |s.sem.pcs|
  {
    var sem := S.DownCalled(s.sem, t);
    if sem == s.sem then s
    else s.(sem := sem, stages := s.stages[t := if sem.grants > s.sem.grants then Upping else Waiting])
  }

  function CalledUp(s: State, t: nat): State
    requires t < |s.stages| == |s.sem.pcs|
  {
    var sem := S.UpCalled(s.sem, t);
    if sem == s.sem then s
    else s.(sem := sem, stages := s.stages[t := if sem.grants > s.sem.grants then Waking else Done])
  }

  function Woken(s: State, t: nat): State
    requires t < |s.stages| == |s.sem.pcs|
  {
    var sem := S.Scheduled(s.sem, t);
    if sem == s.sem || !s.sem.pcs[t].Scheduling? || s.sem.pcs[t].waiter >= |s.stages| then s
    else s.(sem := sem, stages := s.stages[s.sem.pcs[t].waiter := Upping][t := Done])
  }

  function Run(s: State, steps: seq<Step>): State
    decreases steps
  {
    if steps == [] then s else Run(Apply(s, steps[0]), steps[1..])
  }

  // ---------- the invariant ----------

  function Entered(st: Stage): int {
    if st == Before then 0 else 1
  }

  /** The unit is in a thread's hands when it is about to pass it on, and while it is being handed over. */
  function Passing(st: Stage): int {
    if st == Upping then 1 else 0
  }

  predicate MatchesAt(st: Stage, pc: S.Pc) {
    match st
    case Waiting => pc == S.Switching || pc == S.Queued || pc.Handed?
    case Waking => pc.Scheduling?
    case _ => pc == S.Outside
  }

  ghost predicate Matches(s: State) {
    && |s.stages| == |s.sem.pcs|
    && forall t :: 0 <= t < |s.stages| ==> MatchesAt(s.stages[t], s.sem.pcs[t])
  }

  ghost predicate Counted(s: State, n: nat) {
    s.count == n - Total(s.stages, Entered) && s.count >= 0
  }

  /** Before the release there is no unit; from then on there is exactly one. */
  ghost predicate OneToken(s: State) {
    s.sem.sem.count + Total(s.stages, Passing) + Total(s.sem.pcs, S.HandedOver) == if s.count == 0 then 1 else 0
  }

  ghost predicate NoneLeft(s: State) {
    s.count > 0 ==> forall t :: 0 <= t < |s.stages| ==> s.stages[t] != Waking && s.stages[t] != Done
  }

  ghost predicate Inv(s: State, n: nat) {
    !s.panicked ==> S.Inv(s.sem, 0) && Matches(s) && Counted(s, n) && OneToken(s) && NoneLeft(s)
  }

  lemma Target(s: S.State, t: nat)
    requires S.Inv(s, 0) && t < |s.pcs| && s.pcs[t].Scheduling?
    ensures s.pcs[t].waiter < |s.pcs| && s.pcs[s.pcs[t].waiter] == S.Handed(t)
  {
  }

  lemma ArriveKeepsInv(s: State, n: nat, t: nat)
    requires Inv(s, n) && !s.panicked && t < |s.stages| && s.stages[t] == Before
    ensures Inv(Arrived(s, t), n)
  {
    hide S.Inv;
    var v := if s.count - 1 == 0 then Upping else Downing;
    TotalUpdate(s.stages, t, v, Entered);
    TotalUpdate(s.stages, t, v, Passing);
  }

  lemma DownEnters(s: State, n: nat, t: nat)
    requires Inv(s, n) && !s.panicked && t < |s.stages| && s.stages[t] == Downing
    requires s.sem.sem.count > 0
    ensures Inv(CalledDown(s, t), n)
  {
    hide S.Inv;
    S.DownKeepsInv(s.sem, 0, t);
    TotalUpdate(s.stages, t, Upping, Entered);
    TotalUpdate(s.stages, t, Upping, Passing);
    assert s.sem.pcs[t] == S.Outside;
  }

  lemma DownWaits(s: State, n: nat, t: nat)
    requires Inv(s, n) && !s.panicked && t < |s.stages| && s.stages[t] == Downing
    requires s.sem.sem.count <= 0
    ensures Inv(CalledDown(s, t), n)
  {
    hide S.Inv;
    S.DownKeepsInv(s.sem, 0, t);
    TotalUpdate(s.stages, t, Waiting, Entered);
    TotalUpdate(s.stages, t, Waiting, Passing);
    TotalUpdate(s.sem.pcs, t, S.Switching, S.HandedOver);
    assert s.sem.pcs[t] == S.Outside;
  }

  lemma PublishKeepsInv(s: State, n: nat, t: nat)
    requires Inv(s, n) && !s.panicked
    ensures Inv(s.(sem := S.Apply(s.sem, S.Publish(t))), n)
  {
    hide S.Inv;
    S.StepKeepsInv(s.sem, S.Publish(t), 0);
    if t < |s.sem.pcs| {
      TotalUpdate(s.sem.pcs, t, S.Queued, S.HandedOver);
    }
  }

  /** Who is about to call `up` holds the unit, so everyone has arrived. */
  lemma UpperReleased(s: State, n: nat, t: nat)
    requires Inv(s, n) && !s.panicked && t < |s.stages| && s.stages[t] == Upping && s.sem.sem.count >= 0
    ensures s.count == 0
  {
    hide S.Inv;
    TotalAtLeast(s.stages, t, Passing);
    TotalNonNegative(s.sem.pcs, S.HandedOver);
  }

  lemma UpAlone(s: State, n: nat, t: nat)
    requires Inv(s, n) && !s.panicked && t < |s.stages| && s.stages[t] == Upping && s.sem.sem.waiting == []
    ensures Inv(CalledUp(s, t), n)
  {
    hide S.Inv;
    UpperReleased(s, n, t);
    S.UpKeepsInv(s.sem, 0, t);
    TotalUpdate(s.stages, t, Done, Entered);
    TotalUpdate(s.stages, t, Done, Passing);
  }

  lemma UpHandsOver(s: State, n: nat, t: nat)
    requires Inv(s, n) && !s.panicked && t < |s.stages| && s.stages[t] == Upping && s.sem.sem.waiting != []
    ensures Inv(CalledUp(s, t), n)
  {
    hide S.Inv;
    UpperReleased(s, n, t);
    S.UpKeepsInv(s.sem, 0, t);
    S.FirstWaiter(s.sem, 0);
    var w := s.sem.sem.waiting[0];
    assert MatchesAt(s.stages[w], s.sem.pcs[w]) && MatchesAt(s.stages[t], s.sem.pcs[t]);
    UpMatches(s, t);
    hide Matches;
    TotalUpdate(s.stages, t, Waking, Entered);
    TotalUpdate(s.stages, t, Waking, Passing);
    TotalUpdateTwo(s.sem.pcs, w, S.Handed(t), t, S.Scheduling(w), S.HandedOver);
  }

  lemma UpMatches(s: State, t: nat)
    requires S.Inv(s.sem, 0) && Matches(s) && t < |s.stages| && s.stages[t] == Upping
    ensures Matches(CalledUp(s, t))
  {
    hide S.Inv;
    if s.sem.sem.waiting != [] {
      S.FirstWaiter(s.sem, 0);
    }
  }

  lemma WakeKeepsInv(s: State, n: nat, t: nat)
    requires Inv(s, n) && !s.panicked && t < |s.stages| && s.stages[t] == Waking
    ensures Inv(Woken(s, t), n)
  {
    hide S.Inv;
    S.ScheduleKeepsInv(s.sem, 0, t);
    Target(s.sem, t);
    var w := s.sem.pcs[t].waiter;
    assert MatchesAt(s.stages[w], s.sem.pcs[w]);
    WakeMatches(s, t);
    hide Matches;
    TotalUpdateTwo(s.stages, w, Upping, t, Done, Entered);
    TotalUpdateTwo(s.stages, w, Upping, t, Done, Passing);
    TotalUpdateTwo(s.sem.pcs, w, S.Outside, t, S.Outside, S.HandedOver);
  }

  lemma WakeMatches(s: State, t: nat)
    requires S.Inv(s.sem, 0) && Matches(s) && t < |s.stages| && s.stages[t] == Waking
    ensures Matches(Woken(s, t))
  {
    hide S.Inv;
    Target(s.sem, t);
  }

  lemma StepKeepsInv(s: State, n: nat, step: Step)
    requires Inv(s, n)
    ensures Inv(Apply(s, step), n)
  {
    hide Inv, Arrived, CalledDown, CalledUp, Woken;
    if !s.panicked {
      match step
      case Arrive(t) => if t < |s.stages| && s.stages[t] == Before { ArriveKeepsInv(s, n, t); }
      case InSemaphore(CallDown(t)) =>
        if t < |s.stages| && s.stages[t] == Downing {
          if s.sem.sem.count > 0 { DownEnters(s, n, t); } else { DownWaits(s, n, t); }
        }
      case InSemaphore(Publish(t)) => PublishKeepsInv(s, n, t);
      case InSemaphore(CallUp(t)) =>
        if t < |s.stages| && s.stages[t] == Upping {
          if s.sem.sem.waiting == [] { UpAlone(s, n, t); } else { UpHandsOver(s, n, t); }
        }
      case InSemaphore(Schedule(t)) => if t < |s.stages| && s.stages[t] == Waking { WakeKeepsInv(s, n, t); }
    }
  }

  lemma InitInv(threads: nat, n: nat)
    requires n > 0
    ensures Inv(Init(threads, n), n)
  {
    var s := Init(threads, n);
    S.InitInv(threads, 0);
    hide S.Inv;
    TotalConstant(s.stages, 0, Entered);
    TotalConstant(s.stages, 0, Passing);
    TotalConstant(s.sem.pcs, 0, S.HandedOver);
  }

  lemma {:induction false} RunKeepsInv(s: State, n: nat, steps: seq<Step>)
    requires Inv(s, n)
    ensures Inv(Run(s, steps), n)
    decreases steps
  {
    hide Inv, Apply;
    if steps != [] {
      StepKeepsInv(s, n, steps[0]);
      RunKeepsInv(Apply(s, steps[0]), n, steps[1..]);
    }
  }

  /** Whoever is past its `down`, or through, is so only once `n` threads have arrived. */
  lemma NobodyLeavesEarly(threads: nat, n: nat, steps: seq<Step>, t: nat)
    requires n > 0 && t < |Run(Init(threads, n), steps).stages| && !Run(Init(threads, n), steps).panicked
    requires var st := Run(Init(threads, n), steps).stages[t]; st == Upping || st == Waking || st == Done
    ensures Total(Run(Init(threads, n), steps).stages, Entered) == n
  {
    InitInv(threads, n);
    RunKeepsInv(Init(threads, n), n, steps);
    var s := Run(Init(threads, n), steps);
    hide Run, Init, S.Inv;
    if s.stages[t] == Upping {
      UpperReleased(s, n, t);
    }
  }

  /** The unit that is passed on is the only one, and it exists from the last arrival on. */
  lemma ExactlyOneUnit(threads: nat, n: nat, steps: seq<Step>)
    requires n > 0 && !Run(Init(threads, n), steps).panicked
    ensures
      var s := Run(Init(threads, n), steps);
      s.sem.sem.count + Total(s.stages, Passing) + Total(s.sem.pcs, S.HandedOver) ==
        if Total(s.stages, Entered) == n then 1 else 0
  {
    InitInv(threads, n);
    RunKeepsInv(Init(threads, n), n, steps);
  }

  // ---------- everybody gets through ----------

  function StageWork(st: Stage): int {
    match st
    case Before => 8
    case Downing => 7
    case Waiting => 3
    case Upping => 2
    case Waking => 1
    case Done => 0
  }

  function PcWork(pc: S.Pc): int {
    match pc
    case Switching => 3
    case Queued => 2
    case Handed(_) => 1
    case _ => 0
  }

  /** How much is left to do. */
  function Work(s: State): int {
    Total(s.stages, StageWork) + Total(s.sem.pcs, PcWork)
  }

  lemma WorkNonNegative(s: State)
    ensures Work(s) >= 0
  {
    TotalNonNegative(s.stages, StageWork);
    TotalNonNegative(s.sem.pcs, PcWork);
  }

  /** Every step that does anything leaves less to do. */
  lemma StepWorks(s: State, n: nat, step: Step)
    requires Inv(s, n) && !s.panicked && !Apply(s, step).panicked
    ensures Apply(s, step) == s || Work(Apply(s, step)) < Work(s)
  {
    hide S.Inv, Counted, OneToken, NoneLeft;
    var s' := Apply(s, step);
    if s' != s {
      match step
      case Arrive(t) => TotalUpdate(s.stages, t, s'.stages[t], StageWork);
      case InSemaphore(CallDown(t)) =>
        TotalUpdate(s.stages, t, s'.stages[t], StageWork);
        TotalUpdate(s.sem.pcs, t, s'.sem.pcs[t], PcWork);
      case InSemaphore(Publish(t)) => TotalUpdate(s.sem.pcs, t, S.Queued, PcWork);
      case InSemaphore(CallUp(t)) => UpWorks(s, n, t);
      case InSemaphore(Schedule(t)) => WakeWorks(s, n, t);
    }
  }

  lemma UpWorks(s: State, n: nat, t: nat)
    requires Inv(s, n) && !s.panicked && t < |s.stages| && s.stages[t] == Upping && CalledUp(s, t) != s
    ensures Work(CalledUp(s, t)) < Work(s)
  {
    hide S.Inv, Counted, OneToken, NoneLeft;
    TotalUpdate(s.stages, t, CalledUp(s, t).stages[t], StageWork);
    if s.sem.sem.waiting != [] {
      S.FirstWaiter(s.sem, 0);
      var w := s.sem.sem.waiting[0];
      TotalUpdateTwo(s.sem.pcs, w, S.Handed(t), t, S.Scheduling(w), PcWork);
    }
  }

  lemma WakeWorks(s: State, n: nat, t: nat)
    requires Inv(s, n) && !s.panicked && t < |s.stages| && s.stages[t] == Waking
    ensures Work(Woken(s, t)) < Work(s)
  {
    hide S.Inv, Counted, OneToken, NoneLeft;
    Target(s.sem, t);
    var w := s.sem.pcs[t].waiter;
    assert MatchesAt(s.stages[w], S.Handed(t));
    TotalUpdateTwo(s.stages, w, Upping, t, Done, StageWork);
    TotalUpdateTwo(s.sem.pcs, w, S.Outside, t, S.Outside, PcWork);
  }

  predicate AllThrough(s: State) {
    forall t :: 0 <= t < |s.stages| ==> s.stages[t] == Done
  }

  /** While not everybody is through, some step does something, and does not panic. */
  lemma SomeStepWorks(s: State, n: nat) returns (step: Step)
    requires Inv(s, n) && !s.panicked && |s.stages| == n && !AllThrough(s)
    ensures Apply(s, step) != s && !Apply(s, step).panicked
  {
    if t :| 0 <= t < |s.stages| && s.stages[t] == Before {
      step := Arrive(t);
      ArrivalIsInTime(s, n, t);
    } else {
      step := SemaphoreStepWorks(s, n);
    }
  }

  lemma ArrivalIsInTime(s: State, n: nat, t: nat)
    requires Inv(s, n) && !s.panicked && |s.stages| <= n && t < |s.stages| && s.stages[t] == Before
    ensures s.count > 0
  {
    TotalUpdate(s.stages, t, Downing, Entered);
    TotalAtMost(s.stages[t := Downing], Entered);
  }

  lemma SemaphoreStepWorks(s: State, n: nat) returns (step: Step)
    requires Inv(s, n) && !s.panicked && |s.stages| == n && !AllThrough(s)
    requires forall t :: 0 <= t < |s.stages| ==> s.stages[t] != Before
    ensures Apply(s, step) != s && !Apply(s, step).panicked
  {
    if s.sem.sem.locked {
      var u := Holder(s.sem);
      step := InSemaphore(S.Publish(u));
      assert Apply(s, step).sem.pcs[u] == S.Queued;
    } else {
      var t := Mover(s, n);
      hide Counted, OneToken, NoneLeft, S.Inv;
      assert MatchesAt(s.stages[t], s.sem.pcs[t]);
      if s.stages[t] == Downing {
        step := InSemaphore(S.CallDown(t));
      } else if s.stages[t] == Upping {
        if s.sem.sem.waiting != [] { S.FirstWaiter(s.sem, 0); }
        step := InSemaphore(S.CallUp(t));
      } else {
        Target(s.sem, t);
        step := InSemaphore(S.Schedule(t));
      }
    }
  }

  lemma Holder(s: S.State) returns (t: nat)
    requires S.Inv(s, 0) && s.sem.locked
    ensures t < |s.pcs| && s.pcs[t] == S.Switching
  {
    t := TotalPositive(s.pcs, S.Blocking);
  }

  /** The unit is somewhere: with a thread about to pass it on, with one being woken, or free for one to take. */
  lemma Mover(s: State, n: nat) returns (t: nat)
    requires Inv(s, n) && !s.panicked && |s.stages| == n && !AllThrough(s) && !s.sem.sem.locked
    requires forall t :: 0 <= t < |s.stages| ==> s.stages[t] != Before
    ensures t < |s.stages| && s.stages[t] != Before && s.stages[t] != Waiting && s.stages[t] != Done
  {
    hide S.Inv;
    TotalConstant(s.stages, 1, Entered);
    if Total(s.stages, Passing) > 0 {
      t := TotalPositive(s.stages, Passing);
    } else if Total(s.sem.pcs, S.HandedOver) > 0 {
      var w := TotalPositive(s.sem.pcs, S.HandedOver);
      t := Waker(s.sem, w);
      assert MatchesAt(s.stages[t], s.sem.pcs[t]);
    } else {
      t :| 0 <= t < |s.stages| && s.stages[t] != Done;
      TotalNonNegative(s.stages, Passing);
      TotalNonNegative(s.sem.pcs, S.HandedOver);
      TotalAtLeast(s.sem.pcs, t, S.HandedOver);
      NotWaiting(s.sem, t);
      assert MatchesAt(s.stages[t], s.sem.pcs[t]);
    }
  }

  lemma Waker(s: S.State, w: nat) returns (t: nat)
    requires S.Inv(s, 0) && w < |s.pcs| && s.pcs[w].Handed?
    ensures t < |s.pcs| && s.pcs[t] == S.Scheduling(w)
  {
    t := s.pcs[w].waker;
  }

  /** With a unit free, no thread is in the queue or on its way into it. */
  lemma NotWaiting(s: S.State, t: nat)
    requires S.Inv(s, 0) && t < |s.pcs| && s.sem.count > 0
    ensures s.pcs[t] != S.Queued && s.pcs[t] != S.Switching
  {
    TotalAtLeast(s.pcs, t, S.Blocking);
    assert t in s.sem.waiting <==> s.pcs[t] == S.Queued;
  }

  /** From every state `n` threads can reach, they can all get through; and however they are scheduled,
      each step that does anything brings that closer (StepWorks). */
  lemma {:induction false} EverybodyGetsThrough(s: State, n: nat) returns (steps: seq<Step>)
    requires Inv(s, n) && !s.panicked && |s.stages| == n
    ensures AllThrough(Run(s, steps)) && !Run(s, steps).panicked
    decreases Work(s)
  {
    if AllThrough(s) {
      steps := [];
    } else {
      var step := SomeStepWorks(s, n);
      StepWorks(s, n, step);
      StepKeepsInv(s, n, step);
      StepKeepsThreads(s, step);
      WorkNonNegative(Apply(s, step));
      hide Inv, Apply, Work, AllThrough;
      var rest := EverybodyGetsThrough(Apply(s, step), n);
      steps := [step] + rest;
    }
  }

  lemma StepKeepsThreads(s: State, step: Step)
    ensures |Apply(s, step).stages| == |s.stages|
  {
  }

  /** No run of at most `n` threads panics. */
  lemma NeverPanics(threads: nat, n: nat, steps: seq<Step>)
    requires threads <= n && n > 0
    ensures !Run(Init(threads, n), steps).panicked
  {
    InitInv(threads, n);
    RunDoesNotPanic(Init(threads, n), n, steps);
  }

  lemma {:induction false} RunDoesNotPanic(s: State, n: nat, steps: seq<Step>)
    requires Inv(s, n) && !s.panicked && |s.stages| <= n
    ensures !Run(s, steps).panicked
    decreases steps
  {
    if steps != [] {
      StepKeepsInv(s, n, steps[0]);
      StepKeepsThreads(s, steps[0]);
      StepDoesNotPanic(s, n, steps[0]);
      hide Inv, Apply;
      RunDoesNotPanic(Apply(s, steps[0]), n, steps[1..]);
    }
  }

  lemma StepDoesNotPanic(s: State, n: nat, step: Step)
    requires Inv(s, n) && !s.panicked && |s.stages| <= n
    ensures !Apply(s, step).panicked
  {
    if step.Arrive? && step.t < |s.stages| && s.stages[step.t] == Before {
      ArrivalIsInTime(s, n, step.t);
    }
    hide Inv;
  }

  /** So `n` threads that start together can all get through. */
  lemma AllGetThroughFromTheStart(n: nat) returns (steps: seq<Step>)
    requires n > 0
    ensures AllThrough(Run(Init(n, n), steps)) && !Run(Init(n, n), steps).panicked
  {
    InitInv(n, n);
    hide Inv;
    steps := EverybodyGetsThrough(Init(n, n), n);
  }
}
