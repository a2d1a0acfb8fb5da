/**
 The reusable barrier over a condition variable.  Each section under the barrier's lock is
 one step; between the section that decides to wait and the switch handler that enters
 the condition's queue the lock is free, and any other thread may run.
 */
module ReusableBarrier {
  import opened Basics
  import opened Totals

  /** Where a thread is in `sync`: outside; past the release of the lock in `wait`, its context being
      switched; in the condition's queue; or runnable again and about to take the lock.
      `generation` is the barrier's epoch when the thread arrived, `since` the condition's when it waited. */
  datatype Stage =
    | Outside
    | Unlocked(generation: nat, since: nat)
    | Queued(generation: nat)
    | Awake(generation: nat)

  /** `conditionEpoch` and `queue` are the condition's.  `arrivals` counts calls of `sync` that got the
      lock, `left` logs the generation of every call that returned; `failed` records a failed assertion. */
  datatype State = State(
    count: nat, epoch: nat, conditionEpoch: nat, queue: seq<nat>, stages: seq<Stage>,
    arrivals: nat, left: seq<nat>, failed: bool)

  datatype Step = Arrive(t: nat) | Handler(t: nat) | Recheck(t: nat)

  function Init(threads: nat, n: nat): State {
    State(n, 0, 0, [], seq(threads, _ => Outside), 0, [], false)
  }

  function Apply(s: State, n: nat, step: Step): State {
    if step.t >= |s.stages| || s.failed then s
    else
      match step
      case Arrive(t) => if s.stages[t] == Outside then Arrived(s, n, t) else s
      case Handler(t) => if s.stages[t].Unlocked? then Handled(s, t) else s
      case Recheck(t) => if s.stages[t].Awake? then Rechecked(s, t) else s
  }

  /** From taking the lock to leaving, or to the release of the lock in `wait`. */
  function Arrived(s: State, n: nat, t: nat): State
    requires t < |s.stages|
  {
    if s.count == 0 then s.(failed := true)
    else if s.count == 1 then
      s.(count := n, epoch := s.epoch + 1, conditionEpoch := s.conditionEpoch + 1,
         queue := [], stages := Released(s.stages, s.queue),
         arrivals := s.arrivals + 1, left := s.left + [s.epoch])
    else s.(count := s.count - 1, stages := s.stages[t := Unlocked(s.epoch, s.conditionEpoch)], arrivals := s.arrivals + 1)
  }

  /** notifyAll: every waiter is taken from the queue and scheduled. */
  function Released(stages: seq<Stage>, queue: seq<nat>): seq<Stage> {
    seq(|stages|, t requires 0 <= t < |stages| =>
      if t in queue && stages[t].Queued? then Awake(stages[t].generation) else stages[t])
  }

  /** The switch handler of `wait`: it takes the lock again, and looks at the epoch. */
  function Handled(s: State, t: nat): State
    requires t < |s.stages| && s.stages[t].Unlocked?
  {
    var Unlocked(generation, since) := s.stages[t];
    if s.conditionEpoch == since then s.(queue := s.queue + [t], stages := s.stages[t := Queued(generation)])
    else if s.conditionEpoch < since then s.(failed := true)
    else s.(stages := s.stages[t := Awake(generation)])
  }

  /** `wait` returns with the lock, and the loop in `sync` looks at the epoch again. */
  function Rechecked(s: State, t: nat): State
    requires t < |s.stages| && s.stages[t].Awake?
  {
    var generation := s.stages[t].generation;
    if s.epoch <= generation then s.(stages := s.stages[t := Unlocked(generation, s.conditionEpoch)])
    else s.(stages := s.stages[t := Outside], left := s.left + [generation])
  }

  function Run(s: State, n: nat, steps: seq<Step>): State
    decreases steps
  {
    if steps == [] then s else Run(Apply(s, n, steps[0]), n, steps[1..])
  }

  // ---------- the invariant ----------

  ghost predicate Counts(s: State, n: nat) {
    && !s.failed && 1 <= s.count <= n
    && s.conditionEpoch == s.epoch
    && s.arrivals == s.epoch * n + (n - s.count)
  }

  predicate StageOk(st: Stage, epoch: nat) {
    match st
    case Outside => true
    case Unlocked(g, since) => g == since <= epoch
    case Queued(g) => g == epoch
    case Awake(g) => g < epoch
  }

  ghost predicate Stages(s: State) {
    forall t :: 0 <= t < |s.stages| ==> StageOk(s.stages[t], s.epoch)
  }

  ghost predicate Waiters(s: State) {
    && Distinct(s.queue)
    && forall t: nat :: t in s.queue <==> t < |s.stages| && s.stages[t].Queued?
  }

  /** Whether a thread is in `sync` for generation `g`. */
  function InGeneration(g: nat): Stage -> int {
    (st: Stage) => if st != Outside && st.generation == g then 1 else 0
  }

  /** The threads inside for the current generation are those that have arrived in it. */
  ghost predicate Present(s: State, n: nat) {
    Total(s.stages, InGeneration(s.epoch)) == n - s.count
  }

  ghost predicate NoneEarly(s: State, n: nat) {
    forall i :: 0 <= i < |s.left| ==> (s.left[i] + 1) * n <= s.arrivals
  }

  ghost predicate Inv(s: State, n: nat) {
    Counts(s, n) && Stages(s) && Waiters(s) && Present(s, n) && NoneEarly(s, n)
  }

  lemma LastKeepsInv(s: State, n: nat, t: nat)
    requires Inv(s, n) && t < |s.stages| && s.stages[t] == Outside && s.count == 1
    ensures Inv(Arrived(s, n, t), n)
  {
    var s' := Arrived(s, n, t);
    assert s'.arrivals == (s.epoch + 1) * n;
    forall u | 0 <= u < |s'.stages|
      ensures StageOk(s'.stages[u], s'.epoch) && !s'.stages[u].Queued?
    {
      assert u in s.queue <==> s.stages[u].Queued?;
      assert StageOk(s.stages[u], s.epoch);
    }
    TotalConstant(s'.stages, 0, InGeneration(s'.epoch));
  }

  lemma EarlyKeepsInv(s: State, n: nat, t: nat)
    requires Inv(s, n) && t < |s.stages| && s.stages[t] == Outside && s.count > 1
    ensures Inv(Arrived(s, n, t), n)
  {
    assert t !in s.queue;
    TotalUpdate(s.stages, t, Unlocked(s.epoch, s.conditionEpoch), InGeneration(s.epoch));
    hide Distinct;
  }

  lemma HandlerKeepsInv(s: State, n: nat, t: nat)
    requires Inv(s, n) && t < |s.stages| && s.stages[t].Unlocked?
    ensures Inv(Handled(s, t), n)
  {
    assert t !in s.queue && StageOk(s.stages[t], s.epoch);
    AppendDistinct(s.queue, t);
    TotalUpdate(s.stages, t, Handled(s, t).stages[t], InGeneration(s.epoch));
    hide Distinct;
  }

  lemma RecheckKeepsInv(s: State, n: nat, t: nat)
    requires Inv(s, n) && t < |s.stages| && s.stages[t].Awake?
    ensures Inv(Rechecked(s, t), n) && Rechecked(s, t).stages[t] == Outside
  {
    assert t !in s.queue && StageOk(s.stages[t], s.epoch);
    TotalUpdate(s.stages, t, Outside, InGeneration(s.epoch));
    Rounds(s.stages[t].generation + 1, s.epoch, n);
    hide Distinct;
  }

  lemma Rounds(g: nat, epoch: nat, n: nat)
    requires g <= epoch
    ensures g * n <= epoch * n
  {
  }

  lemma StepKeepsInv(s: State, n: nat, step: Step)
    requires Inv(s, n)
    ensures Inv(Apply(s, n, step), n)
  {
    hide Inv, Arrived, Handled, Rechecked;
    CountsPositive(s, n);
    if step.t < |s.stages| {
      match step
      case Arrive(t) =>
        if s.stages[t] == Outside {
          if s.count == 1 { LastKeepsInv(s, n, t); } else { EarlyKeepsInv(s, n, t); }
        }
      case Handler(t) => if s.stages[t].Unlocked? { HandlerKeepsInv(s, n, t); }
      case Recheck(t) => if s.stages[t].Awake? { RecheckKeepsInv(s, n, t); }
    }
  }

  lemma CountsPositive(s: State, n: nat)
    requires Inv(s, n)
    ensures s.count >= 1
  {
  }

  lemma InitInv(threads: nat, n: nat)
    requires n > 0
    ensures Inv(Init(threads, n), n)
  {
    TotalConstant(Init(threads, n).stages, 0, InGeneration(0));
  }

  lemma {:induction false} RunKeepsInv(s: State, n: nat, steps: seq<Step>)
    requires Inv(s, n)
    ensures Inv(Run(s, n, steps), n)
    decreases steps
  {
    hide Inv, Apply;
    if steps != [] {
      StepKeepsInv(s, n, steps[0]);
      RunKeepsInv(Apply(s, n, steps[0]), n, steps[1..]);
    }
  }

  // ---------- what holds of every run ----------

  /** Whenever the lock is free, arrivals = epoch * N + (N - count); and the threads inside for the
      current generation are just the N - count that arrived in it. */
  lemma ArrivalLaw(threads: nat, n: nat, steps: seq<Step>)
    requires n > 0
    ensures
      var s := Run(Init(threads, n), n, steps);
      && !s.failed && 1 <= s.count <= n
      && s.arrivals == s.epoch * n + (n - s.count)
      && Total(s.stages, InGeneration(s.epoch)) == n - s.count
  {
    InitInv(threads, n);
    RunKeepsInv(Init(threads, n), n, steps);
  }

  /** No call of generation g returns before (g + 1) * N calls have arrived. */
  lemma NobodyLeavesEarly(threads: nat, n: nat, steps: seq<Step>, i: nat)
    requires n > 0 && i < |Run(Init(threads, n), n, steps).left|
    ensures var s := Run(Init(threads, n), n, steps); (s.left[i] + 1) * n <= s.arrivals
  {
    InitInv(threads, n);
    RunKeepsInv(Init(threads, n), n, steps);
  }

  /** Of each finished generation `n` calls have returned or are inside, of the current one those that have
      arrived, and of later ones none. */
  ghost predicate Whole(s: State, n: nat, g: nat) {
    multiset(s.left)[g] + Total(s.stages, InGeneration(g))
      == (if g < s.epoch then n else if g == s.epoch then n - s.count else 0)
  }

  lemma LastIsWhole(s: State, n: nat, g: nat, t: nat)
    requires Counts(s, n) && Whole(s, n, g) && t < |s.stages| && s.stages[t] == Outside && s.count == 1
    ensures Whole(Arrived(s, n, t), n, g)
  {
    TotalSame(Arrived(s, n, t).stages, s.stages, InGeneration(g));
  }

  lemma EarlyIsWhole(s: State, n: nat, g: nat, t: nat)
    requires Counts(s, n) && Whole(s, n, g) && t < |s.stages| && s.stages[t] == Outside && s.count > 1
    ensures Whole(Arrived(s, n, t), n, g)
  {
    TotalUpdate(s.stages, t, Unlocked(s.epoch, s.conditionEpoch), InGeneration(g));
  }

  lemma StepIsWhole(s: State, n: nat, g: nat, step: Step)
    requires Counts(s, n) && Whole(s, n, g)
    ensures Whole(Apply(s, n, step), n, g)
  {
    if step.t < |s.stages| {
      var t := step.t;
      match step
      case Arrive(_) =>
        if s.stages[t] == Outside {
          if s.count == 1 { LastIsWhole(s, n, g, t); } else { EarlyIsWhole(s, n, g, t); }
        }
      case Handler(_) => if s.stages[t].Unlocked? { TotalUpdate(s.stages, t, Handled(s, t).stages[t], InGeneration(g)); }
      case Recheck(_) => if s.stages[t].Awake? { TotalUpdate(s.stages, t, Rechecked(s, t).stages[t], InGeneration(g)); }
    }
  }

  lemma {:induction false} RunIsWhole(s: State, n: nat, g: nat, steps: seq<Step>)
    requires Inv(s, n) && Whole(s, n, g)
    ensures Whole(Run(s, n, steps), n, g)
    decreases steps
  {
    hide Apply, Whole;
    if steps != [] {
      StepKeepsInv(s, n, steps[0]);
      StepIsWhole(s, n, g, steps[0]);
      hide Inv;
      RunIsWhole(Apply(s, n, steps[0]), n, g, steps[1..]);
    }
  }

  /** Over every run exactly N calls belong to each finished generation: those that have returned, and those
      still inside. */
  lemma GenerationsAreWhole(threads: nat, n: nat, steps: seq<Step>, g: nat)
    requires n > 0
    ensures
      var s := Run(Init(threads, n), n, steps);
      multiset(s.left)[g] + Total(s.stages, InGeneration(g))
        == if g < s.epoch then n else if g == s.epoch then n - s.count else 0
  {
    InitInv(threads, n);
    TotalConstant(Init(threads, n).stages, 0, InGeneration(g));
    RunIsWhole(Init(threads, n), n, g, steps);
  }

  /** No thread of a finished generation is in the condition's queue; and wherever else it is, its own
      next two steps bring it out, even if the notification came before its handler ran. */
  lemma FinishedThreadsAreNotStuck(threads: nat, n: nat, steps: seq<Step>, t: nat)
    requires n > 0
    requires var s := Run(Init(threads, n), n, steps);
      t < |s.stages| && s.stages[t] != Outside && s.stages[t].generation < s.epoch
    ensures
      var s := Run(Init(threads, n), n, steps);
      && t !in s.queue
      && Run(s, n, [Handler(t), Recheck(t)]).stages == s.stages[t := Outside]
      && Run(s, n, [Handler(t), Recheck(t)]).left == s.left + [s.stages[t].generation]
  {
    InitInv(threads, n);
    RunKeepsInv(Init(threads, n), n, steps);
    TwoStepsOut(Run(Init(threads, n), n, steps), n, t);
  }

  lemma TwoStepsOut(s: State, n: nat, t: nat)
    requires Inv(s, n) && t < |s.stages| && s.stages[t] != Outside && s.stages[t].generation < s.epoch
    ensures t !in s.queue
    ensures Run(s, n, [Handler(t), Recheck(t)]).stages == s.stages[t := Outside]
    ensures Run(s, n, [Handler(t), Recheck(t)]).left == s.left + [s.stages[t].generation]
  {
    assert StageOk(s.stages[t], s.epoch);
    var s1 := Apply(s, n, Handler(t));
    assert s1.stages[t] == Awake(s.stages[t].generation) && s1.epoch == s.epoch && s1.left == s.left;
    assert Run(s, n, [Handler(t), Recheck(t)]) == Run(s1, n, [Recheck(t)]) by {
      assert [Handler(t), Recheck(t)][1..] == [Recheck(t)];
    }
    assert Run(s1, n, [Recheck(t)]) == Apply(s1, n, Recheck(t)) by {
      assert [Recheck(t)][1..] == [];
    }
  }

  // ---------- progress ----------

  /** How many of its own steps a thread can take before the current generation is over, its arrival in the
      generation included.  A thread in the queue has none. */
  function StageWork(epoch: nat): Stage -> int {
    (st: Stage) =>
      match st
      case Outside => 2
      case Unlocked(g, _) => if g == epoch then 1 else 4
      case Queued(_) => 0
      case Awake(_) => 3
  }

  function Work(s: State): int {
    Total(s.stages, StageWork(s.epoch))
  }

  lemma WorkBounds(s: State)
    ensures 0 <= Work(s) <= |s.stages| * 4
  {
    TotalNonNegative(s.stages, StageWork(s.epoch));
    TotalBelow(s.stages, 4, StageWork(s.epoch));
  }

  /** Every step that does anything either completes the generation, or leaves strictly less to do in it. */
  lemma StepWorks(s: State, n: nat, step: Step)
    requires Inv(s, n)
    ensures
      var s' := Apply(s, n, step);
      && |s'.stages| == |s.stages|
      && (s' == s || s'.epoch == s.epoch + 1 || (s'.epoch == s.epoch && Work(s') < Work(s)))
  {
    var s' := Apply(s, n, step);
    if s' != s && s'.epoch == s.epoch {
      assert StageOk(s.stages[step.t], s.epoch);
      TotalUpdate(s.stages, step.t, s'.stages[step.t], StageWork(s.epoch));
    }
  }

  /** With at least `n` threads there is no deadlock: some step does something. */
  lemma SomeStepWorks(s: State, n: nat) returns (step: Step)
    requires Inv(s, n) && |s.stages| >= n
    ensures Apply(s, n, step) != s
  {
    var t := NotYetIn(s, n);
    assert StageOk(s.stages[t], s.epoch);
    step := match s.stages[t] case Outside => Arrive(t) case Awake(_) => Recheck(t) case _ => Handler(t);
    if s.stages[t] == Outside && s.count == 1 {
      assert Apply(s, n, step).epoch == s.epoch + 1;
    } else {
      assert Apply(s, n, step).stages[t] != s.stages[t];
    }
  }

  /** Some thread is not in the current generation. */
  lemma NotYetIn(s: State, n: nat) returns (t: nat)
    requires Inv(s, n) && |s.stages| >= n
    ensures t < |s.stages| && InGeneration(s.epoch)(s.stages[t]) == 0
  {
    if forall t :: 0 <= t < |s.stages| ==> InGeneration(s.epoch)(s.stages[t]) == 1 {
      TotalConstant(s.stages, 1, InGeneration(s.epoch));
      assert false;
    }
    t :| 0 <= t < |s.stages| && InGeneration(s.epoch)(s.stages[t]) != 1;
  }

  /** Every step of the run does something. */
  ghost predicate Busy(s: State, n: nat, steps: seq<Step>)
    decreases steps
  {
    steps == [] || (Apply(s, n, steps[0]) != s && Busy(Apply(s, n, steps[0]), n, steps[1..]))
  }

  /** No thread can be kept from getting through by the order of steps: of steps that do anything, at most
      four for each thread go by in one generation. */
  lemma {:induction false} GenerationsGoOn(s: State, n: nat, steps: seq<Step>)
    requires Inv(s, n) && Busy(s, n, steps)
    ensures
      var s' := Run(s, n, steps);
      && |s'.stages| == |s.stages| && s'.epoch >= s.epoch
      && |steps| + Work(s') <= Work(s) + (s'.epoch - s.epoch) * (4 * |s.stages| + 1)
    decreases steps
  {
    if steps != [] {
      var s1 := Apply(s, n, steps[0]);
      StepWorks(s, n, steps[0]);
      StepKeepsInv(s, n, steps[0]);
      WorkBounds(s);
      WorkBounds(s1);
      hide Inv, Apply, Work;
      GenerationsGoOn(s1, n, steps[1..]);
      var d := Run(s1, n, steps[1..]).epoch - s1.epoch;
      OneRoundMore(d, 4 * |s.stages| + 1);
    }
  }

  lemma OneRoundMore(d: nat, k: nat)
    ensures (d + 1) * k == d * k + k
  {
  }

  /** Over every run from the start: after more than `g` rounds' worth of such steps, more than `g`
      generations are over. */
  lemma RunsCompleteGenerations(threads: nat, n: nat, steps: seq<Step>, g: nat)
    requires n > 0 && Busy(Init(threads, n), n, steps) && |steps| > g * (4 * threads + 1) + 4 * threads
    ensures Run(Init(threads, n), n, steps).epoch > g
  {
    var s := Init(threads, n);
    InitInv(threads, n);
    GenerationsGoOn(s, n, steps);
    WorkBounds(s);
    WorkBounds(Run(s, n, steps));
    MoreRounds(Run(s, n, steps).epoch, g, 4 * threads + 1);
  }

  lemma MoreRounds(e: nat, g: nat, k: nat)
    requires k > 0
    ensures e * k > g * k ==> e > g
  {
    if e <= g { Rounds(e, g, k); }
  }

  ghost predicate AllOutside(s: State) {
    forall t :: 0 <= t < |s.stages| ==> s.stages[t] == Outside
  }

  /** The threads of finished generations, and only they, still have to leave. */
  predicate Leaving(st: Stage, epoch: nat) {
    st != Outside && st.generation < epoch
  }

  /** From every state that at least `n` threads can reach, the generation can be completed, and everybody
      come out. */
  lemma EverybodyGetsThrough(s: State, n: nat) returns (steps: seq<Step>)
    requires Inv(s, n) && |s.stages| >= n
    ensures
      var s' := Run(s, n, steps);
      s'.epoch == s.epoch + 1 && AllOutside(s') && !s'.failed
  {
    steps := GetThrough(s, n, s.epoch + 1);
  }

  lemma {:induction false} GetThrough(s: State, n: nat, goal: nat) returns (steps: seq<Step>)
    requires Inv(s, n) && |s.stages| >= n && s.epoch <= goal && (s.epoch == goal ==> s.count == n)
    ensures
      var s' := Run(s, n, steps);
      s'.epoch == goal && AllOutside(s') && !s'.failed
    decreases goal - s.epoch, Work(s), 1
  {
    if t :| 0 <= t < |s.stages| && Leaving(s.stages[t], s.epoch) {
      var step := if s.stages[t].Awake? then Recheck(t) else Handler(t);
      LeaverMoves(s, n, t, step);
      steps := Onward(s, n, goal, step);
    } else if s.epoch == goal {
      NobodyIn(s, n);
      steps := [];
    } else {
      var t := NotYetIn(s, n);
      steps := Onward(s, n, goal, Arrive(t));
    }
  }

  lemma Onward(s: State, n: nat, goal: nat, step: Step) returns (steps: seq<Step>)
    requires Inv(s, n) && |s.stages| >= n && s.epoch <= goal
    requires
      var s' := Apply(s, n, step);
      s' != s && s'.epoch <= goal && (s'.epoch == goal ==> s'.count == n)
    ensures
      var s' := Run(s, n, steps);
      s'.epoch == goal && AllOutside(s') && !s'.failed
    decreases goal - s.epoch, Work(s), 0
  {
    StepWorks(s, n, step);
    StepKeepsInv(s, n, step);
    WorkBounds(s);
    WorkBounds(Apply(s, n, step));
    hide Inv, Apply, Work, AllOutside;
    var rest := GetThrough(Apply(s, n, step), n, goal);
    steps := [step] + rest;
    assert steps[1..] == rest;
  }

  lemma LeaverMoves(s: State, n: nat, t: nat, step: Step)
    requires Inv(s, n) && t < |s.stages| && Leaving(s.stages[t], s.epoch)
    requires step == if s.stages[t].Awake? then Recheck(t) else Handler(t)
    ensures
      var s' := Apply(s, n, step);
      s' != s && s'.epoch == s.epoch && s'.count == s.count
  {
    assert StageOk(s.stages[t], s.epoch);
    assert Apply(s, n, step).stages[t] != s.stages[t];
  }

  lemma NobodyIn(s: State, n: nat)
    requires Inv(s, n) && s.count == n && forall t :: 0 <= t < |s.stages| ==> !Leaving(s.stages[t], s.epoch)
    ensures AllOutside(s)
  {
    forall t | 0 <= t < |s.stages|
      ensures s.stages[t] == Outside
    {
      assert StageOk(s.stages[t], s.epoch);
      TotalAtLeast(s.stages, t, InGeneration(s.epoch));
    }
  }
}
