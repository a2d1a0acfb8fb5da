/**
 The counting semaphore with direct hand-off.  The lock inside it is held across the
 context switch of a thread that blocks, and released by the switch handler once the
 thread is in the queue; so each section under the lock is one step, except that of a
 blocking `down`, which is two.
 */
module Semaphores {
  import opened Basics
  import opened Totals

  /** `locked` is the lock inside the semaphore, kept by a thread that blocks. */
  datatype Sem = Sem(count: nat, waiting: seq<nat>, locked: bool)

  /** What a thread is doing with the semaphore.  A thread that is `Handed` was taken out of the
      queue by an `up` which has yet to schedule it; `waker` is the thread that called it. */
  datatype Pc = Outside | Switching | Queued | Handed(waker: nat) | Scheduling(waiter: nat)

  /** `ups` and `grants` count finished `up`s and units given to `down`s; `joined` and `served` log the
      waiters in the order they entered the queue and were taken from it. */
  datatype State = State(sem: Sem, pcs: seq<Pc>, ups: nat, grants: nat, joined: seq<nat>, served: seq<nat>)

  datatype Step = CallDown(t: nat) | Publish(t: nat) | CallUp(t: nat) | Schedule(t: nat)

  function Init(threads: nat, count: nat): State {
    State(Sem(count, [], false), seq(threads, _ => Outside), 0, 0, [], [])
  }

  /** A step that cannot happen in a state leaves it as it is. */
  function Apply(s: State, step: Step): State {
    if step.t >= |s.pcs| then s
    else
      match step
      case CallDown(t) => DownCalled(s, t)
      case Publish(t) => Published(s, t)
      case CallUp(t) => UpCalled(s, t)
      case Schedule(t) => Scheduled(s, t)
  }

  /** `down`: a unit is taken, or the lock is kept until the handler runs. */
  function DownCalled(s: State, t: nat): State
    requires t < |s.pcs|
  {
    if s.sem.locked || s.pcs[t] != Outside then s
    else if s.sem.count > 0 then s.(sem := s.sem.(count := s.sem.count - 1), grants := s.grants + 1)
    else s.(sem := s.sem.(locked := true), pcs := s.pcs[t := Switching])
  }

  /** The switch handler of `down`. */
  function Published(s: State, t: nat): State
    requires t < |s.pcs|
  {
    if s.pcs[t] != Switching then s
    else s.(sem := s.sem.(waiting := s.sem.waiting + [t], locked := false), pcs := s.pcs[t := Queued], joined := s.joined + [t])
  }

  /** `up` under the lock: the unit goes to the first waiter, or back to the count. */
  function UpCalled(s: State, t: nat): State
    requires t < |s.pcs|
  {
    if s.sem.locked || s.pcs[t] != Outside then s
    else if s.sem.waiting == [] then s.(sem := s.sem.(count := s.sem.count + 1), ups := s.ups + 1)
    else
      var w := s.sem.waiting[0];
      if w >= |s.pcs| then s
      else s.(sem := s.sem.(waiting := s.sem.waiting[1..]), ups := s.ups + 1, grants := s.grants + 1,
              served := s.served + [w], pcs := s.pcs[w := Handed(t)][t := Scheduling(w)])
  }

  /** `up` after the lock: the waiter is made ready, and its `down` returns. */
  function Scheduled(s: State, t: nat): State
    requires t < |s.pcs|
  {
    if !s.pcs[t].Scheduling? || s.pcs[t].waiter >= |s.pcs| then s
    else s.(pcs := s.pcs[s.pcs[t].waiter := Outside][t := Outside])
  }

  function Run(s: State, steps: seq<Step>): State
    decreases steps
  {
    if steps == [] then s else Run(Apply(s, steps[0]), steps[1..])
  }

  // ---------- the invariant ----------

  /** Units are neither lost nor made up, and while any thread waits there are none. */
  predicate Ledger(s: State, initial: nat) {
    && initial + s.ups == s.sem.count + s.grants
    && (s.sem.waiting != [] || s.sem.locked ==> s.sem.count == 0)
    && s.joined == s.served + s.sem.waiting
  }

  /** The queue holds just the threads that wait, each once. */
  ghost predicate Waiters(s: State) {
    && Distinct(s.sem.waiting)
    && forall t: nat :: t in s.sem.waiting <==> t < |s.pcs| && s.pcs[t] == Queued
  }

  function Blocking(pc: Pc): int {
    if pc == Switching then 1 else 0
  }

  /** A unit on its way from the thread that gives it to the one that waited. */
  function HandedOver(pc: Pc): int {
    if pc.Handed? then 1 else 0
  }

  /** The lock is kept for one thread only, between its blocking and its being queued. */
  ghost predicate Locking(s: State) {
    Total(s.pcs, Blocking) == if s.sem.locked then 1 else 0
  }

  /** A thread taken from the queue is on its way to be scheduled, by the thread that took it. */
  ghost predicate HandOff(pcs: seq<Pc>) {
    && (forall t :: 0 <= t < |pcs| && pcs[t].Scheduling? ==> pcs[t].waiter < |pcs| && pcs[pcs[t].waiter] == Handed(t))
    && (forall w :: 0 <= w < |pcs| && pcs[w].Handed? ==> pcs[w].waker < |pcs| && pcs[pcs[w].waker] == Scheduling(w))
  }

  ghost predicate Inv(s: State, initial: nat) {
    Ledger(s, initial) && Waiters(s) && Locking(s) && HandOff(s.pcs)
  }

  /** The thread at the head of the queue is one that waits. */
  lemma FirstWaiter(s: State, initial: nat)
    requires Inv(s, initial) && s.sem.waiting != []
    ensures s.sem.waiting[0] < |s.pcs| && s.pcs[s.sem.waiting[0]] == Queued
  {
    var w: nat := s.sem.waiting[0];
    assert w in s.sem.waiting;
  }

  lemma HandOffStarts(pcs: seq<Pc>, w: nat, t: nat)
    requires HandOff(pcs) && w < |pcs| && t < |pcs| && w != t
    requires pcs[w] == Queued && pcs[t] == Outside
    ensures HandOff(pcs[w := Handed(t)][t := Scheduling(w)])
  {
  }

  lemma HandOffEnds(pcs: seq<Pc>, t: nat)
    requires HandOff(pcs) && t < |pcs| && pcs[t].Scheduling?
    ensures pcs[t].waiter < |pcs| && pcs[pcs[t].waiter] == Handed(t)
    ensures HandOff(pcs[pcs[t].waiter := Outside][t := Outside])
  {
  }

  lemma HandOffElsewhere(pcs: seq<Pc>, t: nat, pc: Pc)
    requires HandOff(pcs) && t < |pcs|
    requires !pcs[t].Handed? && !pcs[t].Scheduling? && !pc.Handed? && !pc.Scheduling?
    ensures HandOff(pcs[t := pc])
  {
  }

  lemma DownKeepsInv(s: State, initial: nat, t: nat)
    requires Inv(s, initial) && t < |s.pcs|
    ensures Inv(DownCalled(s, t), initial)
  {
    assert t in s.sem.waiting <==> s.pcs[t] == Queued;
    TotalUpdate(s.pcs, t, Switching, Blocking);
    hide Distinct, HandOff;
    if s.pcs[t] == Outside { HandOffElsewhere(s.pcs, t, Switching); }
  }

  lemma PublishKeepsInv(s: State, initial: nat, t: nat)
    requires Inv(s, initial) && t < |s.pcs|
    ensures Inv(Published(s, t), initial)
  {
    if s.pcs[t] == Switching {
      TotalAtLeast(s.pcs, t, Blocking);
      TotalUpdate(s.pcs, t, Queued, Blocking);
      AppendDistinct(s.sem.waiting, t);
      hide Distinct, HandOff;
      HandOffElsewhere(s.pcs, t, Queued);
      assert s.joined + [t] == s.served + (s.sem.waiting + [t]);
    }
  }

  lemma UpKeepsWaiters(s: State, t: nat)
    requires Waiters(s) && t < |s.pcs|
    ensures Waiters(UpCalled(s, t))
  {
    if s.sem.waiting != [] {
      assert s.sem.waiting[0] in s.sem.waiting;
      TailDistinct(s.sem.waiting);
      hide Distinct;
    }
  }

  lemma UpKeepsLedger(s: State, initial: nat, t: nat)
    requires Ledger(s, initial) && t < |s.pcs|
    ensures Ledger(UpCalled(s, t), initial)
  {
    if s.sem.waiting != [] {
      var w := s.sem.waiting[0];
      assert s.sem.waiting == [w] + s.sem.waiting[1..];
      assert s.served + s.sem.waiting == s.served + [w] + s.sem.waiting[1..];
    }
  }

  lemma UpKeepsInv(s: State, initial: nat, t: nat)
    requires Inv(s, initial) && t < |s.pcs|
    ensures Inv(UpCalled(s, t), initial)
  {
    UpKeepsWaiters(s, t);
    UpKeepsLedger(s, initial, t);
    if s.sem.waiting != [] && s.pcs[t] == Outside {
      FirstWaiter(s, initial);
      hide HandOff, Waiters, Ledger;
      var w := s.sem.waiting[0];
      TotalUpdateTwo(s.pcs, w, Handed(t), t, Scheduling(w), Blocking);
      HandOffStarts(s.pcs, w, t);
    }
  }

  lemma ScheduleKeepsInv(s: State, initial: nat, t: nat)
    requires Inv(s, initial) && t < |s.pcs|
    ensures Inv(Scheduled(s, t), initial)
  {
    hide Distinct, HandOff;
    if s.pcs[t].Scheduling? {
      HandOffEnds(s.pcs, t);
      var w := s.pcs[t].waiter;
      TotalUpdateTwo(s.pcs, w, Outside, t, Outside, Blocking);
    }
  }

  lemma StepKeepsInv(s: State, step: Step, initial: nat)
    requires Inv(s, initial)
    ensures Inv(Apply(s, step), initial) && |Apply(s, step).pcs| == |s.pcs|
  {
    hide Inv;
    if step.t < |s.pcs| {
      match step
      case CallDown(t) => DownKeepsInv(s, initial, t);
      case Publish(t) => PublishKeepsInv(s, initial, t);
      case CallUp(t) => UpKeepsInv(s, initial, t);
      case Schedule(t) => ScheduleKeepsInv(s, initial, t);
    }
  }

  lemma InitInv(threads: nat, initial: nat)
    ensures Inv(Init(threads, initial), initial)
  {
    TotalConstant(Init(threads, initial).pcs, 0, Blocking);
  }

  lemma {:induction false} RunKeepsInv(s: State, steps: seq<Step>, initial: nat)
    requires Inv(s, initial)
    ensures Inv(Run(s, steps), initial)
    decreases steps
  {
    hide Inv, Apply;
    if steps != [] {
      StepKeepsInv(s, steps[0], initial);
      RunKeepsInv(Apply(s, steps[0]), steps[1..], initial);
    }
  }

  /** Over every run: initial count + ups = count + units granted; threads wait only while the count
      is zero; and waiters are served in the order they came. */
  lemma SemaphoreLaw(threads: nat, initial: nat, steps: seq<Step>)
    ensures
      var s := Run(Init(threads, initial), steps);
      && initial + s.ups == s.sem.count + s.grants
      && (s.sem.waiting != [] ==> s.sem.count == 0)
      && s.joined == s.served + s.sem.waiting
  {
    InitInv(threads, initial);
    RunKeepsInv(Init(threads, initial), steps, initial);
  }

  /** Whoever blocks is in the queue once the lock is free, and until then no unit can be given: none is missed. */
  lemma NoWaiterIsMissed(threads: nat, initial: nat, steps: seq<Step>, t: nat)
    requires t < |Run(Init(threads, initial), steps).pcs|
    ensures
      var s := Run(Init(threads, initial), steps);
      && (s.pcs[t] == Queued <==> t in s.sem.waiting)
      && (s.pcs[t] == Switching ==> s.sem.locked && forall u :: Apply(s, CallUp(u)) == s)
  {
    InitInv(threads, initial);
    RunKeepsInv(Init(threads, initial), steps, initial);
    var s := Run(Init(threads, initial), steps);
    hide Run, Init;
    if s.pcs[t] == Switching {
      TotalAtLeast(s.pcs, t, Blocking);
    }
  }
}
