/**
 The bounded buffer: a ring of `N` slots guarded by three semaphores, used by any number
 of threads.  Each statement of `put` and `get`, and each section of a semaphore
 operation, is one step.
 */
module BoundedBuffer {
  import opened Totals
  import S = Semaphores

  /** Values stand for the buffer's element type. */
  type Value = int

  datatype Op = Put(value: Value) | Get

  /** The three semaphores, by their place in the state. */
  type Which = w: nat | w < 3

  const EMPTY: Which := 0
  const FULL: Which := 1
  const LOCK: Which := 2

  /** Where a thread is in `put` or `get`.  In `Claim` and `Enter` it is about to call `down` or in it, in
      `Exit` and `Release` about to call `up`; in `ExitWake` and `ReleaseWake` it has a waiter to schedule. */
  datatype Stage =
    | Idle
    | Claim(op: Op)
    | Enter(op: Op)
    | Write(v: Value)
    | Count(v: Value)
    | Read
    | Advance(out: Value)
    | Uncount
    | Exit(op: Op)
    | ExitWake(op: Op)
    | Release(op: Op)
    | ReleaseWake(op: Op)

  /** `puts` and `gets` log the values in the order they went in and came out. */
  datatype State = State(
    head: nat, n: int, data: seq<Value>,
    sems: seq<S.State>, stages: seq<Stage>, puts: seq<Value>, gets: seq<Value>)

  datatype Step =
    | Start(t: nat, op: Op)
    | Down(t: nat)
    | Publish(t: nat, which: Which)
    | Work(t: nat)
    | Up(t: nat)
    | Wake(t: nat)

  function Init(threads: nat, capacity: nat): State {
    State(0, 0, seq(capacity, _ => 0), [S.Init(threads, capacity), S.Init(threads, 0), S.Init(threads, 1)],
      seq(threads, _ => Idle), [], [])
  }

  /** Where element number `i` of the buffer is, with the sum in 32 bits. */
  function Slot(s: State, i: int): nat {
    if |s.data| == 0 then 0 else (s.head + i) % 0x1_0000_0000 % |s.data|
  }

  /** The semaphore a stage is about. */
  function Uses(st: Stage): Which {
    match st
    case Claim(op) => if op.Put? then EMPTY else FULL
    case Release(op) => if op.Put? then FULL else EMPTY
    case ReleaseWake(op) => if op.Put? then FULL else EMPTY
    case _ => LOCK
  }

  predicate Downs(st: Stage) {
    st.Claim? || st.Enter?
  }

  predicate Ups(st: Stage) {
    st.Exit? || st.Release?
  }

  predicate Wakes(st: Stage) {
    st.ExitWake? || st.ReleaseWake?
  }

  /** The stage after the semaphore operation of a stage has finished. */
  function After(st: Stage): Stage {
    match st
    case Claim(op) => Enter(op)
    case Enter(op) => if op.Put? then Write(op.value) else Read
    case Exit(op) => Release(op)
    case ExitWake(op) => Release(op)
    case Release(_) => Idle
    case ReleaseWake(_) => Idle
    case _ => st
  }

  function ToWake(st: Stage): Stage {
    match st
    case Exit(op) => ExitWake(op)
    case Release(op) => ReleaseWake(op)
    case _ => st
  }

  predicate Shaped(s: State) {
    |s.sems| == 3 && forall w: Which :: |s.sems[w].pcs| == |s.stages|
  }

  /** A step that cannot happen in a state leaves it as it is. */
  function Apply(s: State, step: Step): State {
    if step.t >= |s.stages| || !Shaped(s) then s
    else
      match step
      case Start(t, op) => if s.stages[t] == Idle then Started(s, t, op) else s
      case Down(t) => if Downs(s.stages[t]) then Downed(s, t) else s
      case Publish(t, w) => Changed(s, w, S.Published(s.sems[w], t), s.stages)
      case Work(t) => Worked(s, t)
      case Up(t) => if Ups(s.stages[t]) then Upped(s, t) else s
      case Wake(t) => if Wakes(s.stages[t]) then Woken(s, t) else s
  }

  function Started(s: State, t: nat, op: Op): State
    requires t < |s.stages|
  {
    s.(stages := s.stages[t := Claim(op)])
  }

  function Changed(s: State, w: Which, sem: S.State, stages: seq<Stage>): State
    requires |s.sems| == 3
  {
    s.(sems := s.sems[w := sem], stages := stages)
  }

  function Downed(s: State, t: nat): State
    requires t < |s.stages| && Shaped(s)
  {
    var w, st := Uses(s.stages[t]), s.stages[t];
    var sem := S.DownCalled(s.sems[w], t);
    Changed(s, w, sem, if sem.grants > s.sems[w].grants then s.stages[t := After(st)] else s.stages)
  }

  function Upped(s: State, t: nat): State
    requires t < |s.stages| && Shaped(s)
  {
    var w, st := Uses(s.stages[t]), s.stages[t];
    var sem := S.UpCalled(s.sems[w], t);
    if sem.ups == s.sems[w].ups then s
    else Changed(s, w, sem, s.stages[t := if sem.grants > s.sems[w].grants then ToWake(st) else After(st)])
  }

  function Woken(s: State, t: nat): State
    requires t < |s.stages| && Shaped(s)
  {
    var w, st := Uses(s.stages[t]), s.stages[t];
    var pc := s.sems[w].pcs[t];
    if !pc.Scheduling? || pc.waiter >= |s.stages| then s
    else Changed(s, w, S.Scheduled(s.sems[w], t), s.stages[pc.waiter := After(s.stages[pc.waiter])][t := After(st)])
  }

  /** The statements between `lock.down` and `lock.up`. */
  function Worked(s: State, t: nat): State
    requires t < |s.stages|
  {
    match s.stages[t]
    case Write(v) =>
      if Slot(s, s.n) >= |s.data| then s
      else s.(data := s.data[Slot(s, s.n) := v], stages := s.stages[t := Count(v)])
    case Count(v) => s.(n := s.n + 1, puts := s.puts + [v], stages := s.stages[t := Exit(Put(v))])
    case Read =>
      if s.head >= |s.data| then s
      else s.(stages := s.stages[t := Advance(s.data[s.head])])
    case Advance(out) => s.(head := Slot(s, 1), gets := s.gets + [out], stages := s.stages[t := Uncount])
    case Uncount => s.(n := s.n - 1, stages := s.stages[t := Exit(Get)])
    case _ => s
  }

  function Run(s: State, steps: seq<Step>): State
    decreases steps
  {
    if steps == [] then s else Run(Apply(s, steps[0]), steps[1..])
  }

  // ---------- what threads hold ----------

  /** A slot claimed by a put, or an item claimed by a get, and not yet passed on. */
  function SlotHeld(st: Stage): int {
    match st
    case Idle => 0
    case Claim(_) => 0
    case ReleaseWake(_) => 0
    case _ => 1
  }

  /** An item counted in the buffer but not in `nFull`: put there and not announced, or claimed and not taken. */
  function ItemHeld(st: Stage): int {
    match st
    case Enter(op) => if op.Get? then 1 else 0
    case Read => 1
    case Advance(_) => 1
    case Exit(op) => if op.Put? then 1 else 0
    case ExitWake(op) => if op.Put? then 1 else 0
    case Release(op) => if op.Put? then 1 else 0
    case _ => 0
  }

  /** Between `lock.down` and `lock.up`. */
  function Inside(st: Stage): int {
    match st
    case Write(_) => 1
    case Count(_) => 1
    case Read => 1
    case Advance(_) => 1
    case Uncount => 1
    case Exit(_) => 1
    case _ => 0
  }

  /** Taken out, but still counted in `n`. */
  function Lagging(st: Stage): int {
    if st == Uncount then 1 else 0
  }

  /** Units of a semaphore that nobody holds yet: in its count, or being handed over. */
  function Units(sem: S.State): int {
    sem.sem.count + Total(sem.pcs, S.HandedOver)
  }

  // ---------- the invariant ----------

  predicate MatchesAt(st: Stage, w: Which, pc: S.Pc) {
    match pc
    case Outside => !(Wakes(st) && Uses(st) == w)
    case Scheduling(_) => Wakes(st) && Uses(st) == w
    case _ => Downs(st) && Uses(st) == w
  }

  ghost predicate Matches(stages: seq<Stage>, w: Which, pcs: seq<S.Pc>) {
    && |pcs| == |stages|
    && forall t :: 0 <= t < |stages| ==> MatchesAt(stages[t], w, pcs[t])
  }

  function Initial(s: State, w: Which): nat {
    if w == EMPTY then |s.data| else if w == FULL then 0 else 1
  }

  ghost predicate SemOk(stages: seq<Stage>, w: Which, sem: S.State, initial: nat) {
    S.Inv(sem, initial) && Matches(stages, w, sem.pcs)
  }

  ghost predicate Sems(s: State) {
    Shaped(s) && forall w: Which :: SemOk(s.stages, w, s.sems[w], Initial(s, w))
  }

  /** Every slot is free, claimed, full, or claimed for reading. */
  ghost predicate Slots(s: State)
    requires |s.sems| == 3
  {
    Units(s.sems[EMPTY]) + Units(s.sems[FULL]) + Total(s.stages, SlotHeld) == |s.data|
  }

  ghost predicate Items(s: State)
    requires |s.sems| == 3
  {
    && |s.puts| - |s.gets| == Units(s.sems[FULL]) + Total(s.stages, ItemHeld)
    && s.n == |s.puts| - |s.gets| + Total(s.stages, Lagging)
  }

  ghost predicate Exclusive(s: State)
    requires |s.sems| == 3
  {
    Units(s.sems[LOCK]) + Total(s.stages, Inside) == 1
  }

  /** Element number `i` of the buffer is `v`. */
  predicate Stored(s: State, i: int, v: Value) {
    Slot(s, i) < |s.data| && s.data[Slot(s, i)] == v
  }

  /** What has been taken is the first part of what has been put, and the rest is in the ring. */
  ghost predicate Fifo(s: State) {
    && (s.head < |s.data| || s.head == 0)
    && s.gets <= s.puts
    && forall i {:trigger s.puts[i]} :: |s.gets| <= i < |s.puts| ==> Stored(s, i - |s.gets|, s.puts[i])
  }

  /** A thread inside has really written what it is about to count, or read what it is about to take. */
  ghost predicate InFlight(s: State) {
    forall t :: 0 <= t < |s.stages| ==>
      match s.stages[t]
      case Count(v) => Stored(s, s.n, v)
      case Advance(v) => s.head < |s.data| && s.data[s.head] == v
      case _ => true
  }

  ghost predicate Accounts(s: State) {
    |s.sems| == 3 && Slots(s) && Items(s) && Exclusive(s)
  }

  ghost predicate Inv(s: State) {
    Sems(s) && Accounts(s) && Fifo(s) && InFlight(s) && |s.data| <= 0x8000_0000
  }

  // ---------- units ----------

  lemma DownUnits(sem: S.State, t: nat)
    requires t < |sem.pcs|
    ensures var sem' := S.DownCalled(sem, t);
      && Units(sem') == Units(sem) - (sem'.grants - sem.grants)
      && sem.grants <= sem'.grants <= sem.grants + 1
      && (if sem'.grants > sem.grants then sem'.pcs == sem.pcs && sem.pcs[t] == S.Outside
          else sem' == sem || (sem.pcs[t] == S.Outside && sem'.pcs == sem.pcs[t := S.Switching]))
  {
    TotalUpdate(sem.pcs, t, S.Switching, S.HandedOver);
  }

  lemma PublishUnits(sem: S.State, t: nat)
    requires t < |sem.pcs|
    ensures Units(S.Published(sem, t)) == Units(sem)
  {
    TotalUpdate(sem.pcs, t, S.Queued, S.HandedOver);
  }

  lemma UpUnits(sem: S.State, initial: nat, t: nat)
    requires S.Inv(sem, initial) && t < |sem.pcs|
    ensures var sem' := S.UpCalled(sem, t);
      && Units(sem') == Units(sem) + (sem'.ups - sem.ups)
      && sem.ups <= sem'.ups <= sem.ups + 1
      && (sem'.ups > sem.ups ==> sem.pcs[t] == S.Outside)
      && (sem'.ups > sem.ups && sem'.grants == sem.grants ==> sem'.pcs == sem.pcs)
      && (sem'.grants != sem.grants ==>
            && sem.sem.waiting != [] && sem'.grants > sem.grants
            && var w := sem.sem.waiting[0];
            && w < |sem.pcs| && w != t && sem.pcs[w] == S.Queued && sem'.pcs == sem.pcs[w := S.Handed(t)][t := S.Scheduling(w)])
  {
    if sem.sem.waiting != [] {
      S.FirstWaiter(sem, initial);
      var w := sem.sem.waiting[0];
      if w != t {
        TotalUpdateTwo(sem.pcs, w, S.Handed(t), t, S.Scheduling(w), S.HandedOver);
      }
    }
  }

  lemma WakeUnits(sem: S.State, initial: nat, t: nat)
    requires S.Inv(sem, initial) && t < |sem.pcs| && sem.pcs[t].Scheduling?
    ensures
      var w := sem.pcs[t].waiter;
      && w < |sem.pcs| && w != t && sem.pcs[w] == S.Handed(t)
      && S.Scheduled(sem, t).pcs == sem.pcs[w := S.Outside][t := S.Outside]
      && Units(S.Scheduled(sem, t)) == Units(sem) - 1
  {
    var w := sem.pcs[t].waiter;
    TotalUpdateTwo(sem.pcs, w, S.Outside, t, S.Outside, S.HandedOver);
  }

  // ---------- semaphore steps ----------

  lemma MatchStage(stages: seq<Stage>, w: Which, pcs: seq<S.Pc>, t: nat, st: Stage)
    requires Matches(stages, w, pcs) && t < |stages| && MatchesAt(st, w, pcs[t])
    ensures Matches(stages[t := st], w, pcs)
  {
  }

  lemma MatchPc(stages: seq<Stage>, w: Which, pcs: seq<S.Pc>, t: nat, pc: S.Pc)
    requires Matches(stages, w, pcs) && t < |stages| && MatchesAt(stages[t], w, pc)
    ensures Matches(stages, w, pcs[t := pc])
  {
  }

  /** What a thread does to one semaphore says nothing about another. */
  lemma OtherSem(stages: seq<Stage>, w: Which, pcs: seq<S.Pc>, t: nat)
    requires Matches(stages, w, pcs) && t < |stages| && w != Uses(stages[t])
    ensures Matches(stages[t := After(stages[t])], w, pcs) && Matches(stages[t := ToWake(stages[t])], w, pcs)
  {
    assert MatchesAt(stages[t], w, pcs[t]);
  }

  /** A step on one semaphore keeps all of them in order if it keeps that one, and the others see nothing. */
  lemma SemsChanged(s: State, u: Which, sem: S.State, stages: seq<Stage>)
    requires Sems(s) && |stages| == |s.stages| && SemOk(stages, u, sem, Initial(s, u))
    requires forall w: Which :: w != u ==> Matches(stages, w, s.sems[w].pcs)
    ensures Sems(Changed(s, u, sem, stages))
  {
    hide S.Inv;
    forall w: Which
      ensures SemOk(stages, w, Changed(s, u, sem, stages).sems[w], Initial(s, w))
    {
      assert SemOk(s.stages, w, s.sems[w], Initial(s, w));
    }
  }

  lemma DownKeepsSems(s: State, t: nat)
    requires Sems(s) && t < |s.stages| && Downs(s.stages[t])
    ensures Sems(Downed(s, t))
  {
    hide S.Inv;
    var u, st := Uses(s.stages[t]), s.stages[t];
    var sem := s.sems[u];
    assert SemOk(s.stages, u, sem, Initial(s, u)) && MatchesAt(st, u, sem.pcs[t]);
    S.DownKeepsInv(sem, Initial(s, u), t);
    DownUnits(sem, t);
    MatchPc(s.stages, u, sem.pcs, t, S.Switching);
    if MatchesAt(After(st), u, sem.pcs[t]) { MatchStage(s.stages, u, sem.pcs, t, After(st)); }
    forall w: Which | w != u
      ensures Matches(Downed(s, t).stages, w, s.sems[w].pcs)
    {
      assert SemOk(s.stages, w, s.sems[w], Initial(s, w));
      OtherSem(s.stages, w, s.sems[w].pcs, t);
    }
    hide S.DownCalled, Units, Matches, After, Sems;
    SemsChanged(s, u, S.DownCalled(sem, t), Downed(s, t).stages);
  }

  lemma PublishKeepsSems(s: State, t: nat, u: Which)
    requires Sems(s) && t < |s.stages|
    ensures Sems(Changed(s, u, S.Published(s.sems[u], t), s.stages))
  {
    hide S.Inv;
    var sem := s.sems[u];
    assert SemOk(s.stages, u, sem, Initial(s, u)) && MatchesAt(s.stages[t], u, sem.pcs[t]);
    S.PublishKeepsInv(sem, Initial(s, u), t);
    if sem.pcs[t] == S.Switching {
      MatchPc(s.stages, u, sem.pcs, t, S.Queued);
    }
    forall w: Which | w != u
      ensures Matches(s.stages, w, s.sems[w].pcs)
    {
      assert SemOk(s.stages, w, s.sems[w], Initial(s, w));
    }
    hide Matches, Sems;
    SemsChanged(s, u, S.Published(sem, t), s.stages);
  }

  lemma UpMatches(stages: seq<Stage>, w: Which, pcs: seq<S.Pc>, t: nat, v: nat)
    requires Matches(stages, w, pcs) && t < |stages| && v < |stages| && v != t
    requires Ups(stages[t]) && Uses(stages[t]) == w && pcs[v] == S.Queued
    ensures Matches(stages[t := ToWake(stages[t])], w, pcs[v := S.Handed(t)][t := S.Scheduling(v)])
  {
    assert MatchesAt(stages[v], w, pcs[v]);
  }

  lemma UpKeepsSems(s: State, t: nat)
    requires Sems(s) && t < |s.stages| && Ups(s.stages[t])
    ensures Sems(Upped(s, t))
  {
    hide S.Inv;
    var u, st := Uses(s.stages[t]), s.stages[t];
    var sem := s.sems[u];
    assert SemOk(s.stages, u, sem, Initial(s, u)) && MatchesAt(st, u, sem.pcs[t]);
    S.UpKeepsInv(sem, Initial(s, u), t);
    UpUnits(sem, Initial(s, u), t);
    var sem' := S.UpCalled(sem, t);
    if sem'.grants > sem.grants {
      UpMatches(s.stages, u, sem.pcs, t, sem.sem.waiting[0]);
    } else {
      MatchStage(s.stages, u, sem.pcs, t, After(st));
    }
    forall w: Which | w != u
      ensures Matches(Upped(s, t).stages, w, s.sems[w].pcs)
    {
      assert SemOk(s.stages, w, s.sems[w], Initial(s, w));
      OtherSem(s.stages, w, s.sems[w].pcs, t);
    }
    hide S.UpCalled, Units, Matches, After, ToWake, Sems;
    if sem'.ups != sem.ups {
      SemsChanged(s, u, sem', Upped(s, t).stages);
    }
  }

  lemma WakeMatches(stages: seq<Stage>, w: Which, pcs: seq<S.Pc>, t: nat, v: nat)
    requires Matches(stages, w, pcs) && t < |stages| && v < |stages| && v != t
    requires Wakes(stages[t]) && Uses(stages[t]) == w && pcs[v] == S.Handed(t)
    ensures Downs(stages[v]) && Uses(stages[v]) == w
    ensures Matches(stages[v := After(stages[v])][t := After(stages[t])], w, pcs[v := S.Outside][t := S.Outside])
  {
    assert MatchesAt(stages[v], w, pcs[v]);
  }

  /** The semaphore a waker is in, and the waiter it is to schedule. */
  lemma WakerAndWaiter(s: State, t: nat) returns (u: Which, v: nat)
    requires Sems(s) && t < |s.stages| && Wakes(s.stages[t])
    ensures u == Uses(s.stages[t]) && s.sems[u].pcs[t] == S.Scheduling(v) && v < |s.stages| && v != t
    ensures s.sems[u].pcs[v] == S.Handed(t) && Downs(s.stages[v]) && Uses(s.stages[v]) == u
  {
    u := Uses(s.stages[t]);
    assert SemOk(s.stages, u, s.sems[u], Initial(s, u)) && MatchesAt(s.stages[t], u, s.sems[u].pcs[t]);
    v := s.sems[u].pcs[t].waiter;
    WakeUnits(s.sems[u], Initial(s, u), t);
    hide S.Inv;
    assert MatchesAt(s.stages[v], u, s.sems[u].pcs[v]);
  }

  lemma WakeKeepsSems(s: State, t: nat)
    requires Sems(s) && t < |s.stages| && Wakes(s.stages[t])
    ensures Sems(Woken(s, t))
  {
    hide S.Inv;
    var u, v := WakerAndWaiter(s, t);
    var sem := s.sems[u];
    assert SemOk(s.stages, u, sem, Initial(s, u));
    S.ScheduleKeepsInv(sem, Initial(s, u), t);
    WakeUnits(sem, Initial(s, u), t);
    WakeMatches(s.stages, u, sem.pcs, t, v);
    var stages := s.stages[v := After(s.stages[v])];
    forall w: Which | w != u
      ensures Matches(stages[t := After(s.stages[t])], w, s.sems[w].pcs)
    {
      assert SemOk(s.stages, w, s.sems[w], Initial(s, w));
      OtherSem(s.stages, w, s.sems[w].pcs, v);
      OtherSem(stages, w, s.sems[w].pcs, t);
    }
    hide S.Scheduled, Units, Matches, After, Sems;
    SemsChanged(s, u, S.Scheduled(sem, t), stages[t := After(s.stages[t])]);
  }

  // ---------- the accounts ----------

  /** One thread's stage changes. */
  lemma StageTotals(stages: seq<Stage>, t: nat, st: Stage)
    requires t < |stages|
    ensures Total(stages[t := st], SlotHeld) == Total(stages, SlotHeld) - SlotHeld(stages[t]) + SlotHeld(st)
    ensures Total(stages[t := st], ItemHeld) == Total(stages, ItemHeld) - ItemHeld(stages[t]) + ItemHeld(st)
    ensures Total(stages[t := st], Inside) == Total(stages, Inside) - Inside(stages[t]) + Inside(st)
    ensures Total(stages[t := st], Lagging) == Total(stages, Lagging) - Lagging(stages[t]) + Lagging(st)
  {
    TotalUpdate(stages, t, st, SlotHeld);
    TotalUpdate(stages, t, st, ItemHeld);
    TotalUpdate(stages, t, st, Inside);
    TotalUpdate(stages, t, st, Lagging);
  }

  /** What a granted `down` of a stage adds to what its thread holds, and an `up` takes away again. */
  predicate Moves(st: Stage, st': Stage, k: int) {
    && SlotHeld(st') - SlotHeld(st) == (if Uses(st) == LOCK then 0 else k)
    && ItemHeld(st') - ItemHeld(st) == (if Uses(st) == FULL then k else 0)
    && Inside(st') - Inside(st) == (if Uses(st) == LOCK then k else 0)
    && Lagging(st') == Lagging(st) == 0
  }

  lemma StageMoves(st: Stage)
    ensures Downs(st) ==> Moves(st, After(st), 1)
    ensures Ups(st) ==> Moves(st, After(st), -1) && Moves(st, ToWake(st), -1)
    ensures Wakes(st) ==> Moves(st, After(st), 0)
  {
  }

  /** From one set of stages to the next, `k` units of `u` went to threads. */
  ghost predicate TotalsMove(stages: seq<Stage>, stages': seq<Stage>, u: Which, k: int) {
    && Total(stages', SlotHeld) == Total(stages, SlotHeld) + (if u == LOCK then 0 else k)
    && Total(stages', ItemHeld) == Total(stages, ItemHeld) + (if u == FULL then k else 0)
    && Total(stages', Inside) == Total(stages, Inside) + (if u == LOCK then k else 0)
    && Total(stages', Lagging) == Total(stages, Lagging)
  }

  lemma OneMoves(stages: seq<Stage>, t: nat, st: Stage, k: int)
    requires t < |stages| && Moves(stages[t], st, k)
    ensures TotalsMove(stages, stages[t := st], Uses(stages[t]), k)
  {
    StageTotals(stages, t, st);
    hide SlotHeld, ItemHeld, Inside, Lagging, Uses;
  }

  /** The books balance when the semaphore loses the units the threads get. */
  lemma AccountsChanged(s: State, u: Which, sem: S.State, stages: seq<Stage>, k: int)
    requires Accounts(s) && Units(sem) == Units(s.sems[u]) - k && TotalsMove(s.stages, stages, u, k)
    ensures Accounts(Changed(s, u, sem, stages))
  {
    hide Units, Total;
  }

  lemma DownKeepsAccounts(s: State, t: nat)
    requires Shaped(s) && Accounts(s) && t < |s.stages| && Downs(s.stages[t])
    ensures Accounts(Downed(s, t))
  {
    hide Units, Accounts, TotalsMove;
    var u, st := Uses(s.stages[t]), s.stages[t];
    var sem' := S.DownCalled(s.sems[u], t);
    DownUnits(s.sems[u], t);
    StageMoves(st);
    OneMoves(s.stages, t, After(st), 1);
    NoneMoves(s.stages, u);
    hide S.DownCalled, After, Uses, Moves;
    AccountsChanged(s, u, sem', Downed(s, t).stages, sem'.grants - s.sems[u].grants);
  }

  lemma NoneMoves(stages: seq<Stage>, u: Which)
    ensures TotalsMove(stages, stages, u, 0)
  {
  }

  lemma UpKeepsAccounts(s: State, t: nat)
    requires Sems(s) && Accounts(s) && t < |s.stages| && Ups(s.stages[t])
    ensures Accounts(Upped(s, t))
  {
    hide Units, Accounts, TotalsMove, S.Inv;
    var u, st := Uses(s.stages[t]), s.stages[t];
    var sem' := S.UpCalled(s.sems[u], t);
    assert SemOk(s.stages, u, s.sems[u], Initial(s, u));
    UpUnits(s.sems[u], Initial(s, u), t);
    StageMoves(st);
    OneMoves(s.stages, t, After(st), -1);
    OneMoves(s.stages, t, ToWake(st), -1);
    hide S.UpCalled, After, ToWake, Uses, Moves, Sems;
    if sem'.ups != s.sems[u].ups {
      AccountsChanged(s, u, sem', Upped(s, t).stages, -1);
    }
  }

  lemma WakeKeepsAccounts(s: State, t: nat)
    requires Sems(s) && Accounts(s) && t < |s.stages| && Wakes(s.stages[t])
    ensures Accounts(Woken(s, t))
  {
    hide Units, Accounts, S.Inv;
    var u, v := WakerAndWaiter(s, t);
    assert SemOk(s.stages, u, s.sems[u], Initial(s, u));
    WakeUnits(s.sems[u], Initial(s, u), t);
    StageMoves(s.stages[t]);
    StageMoves(s.stages[v]);
    var stages := s.stages[v := After(s.stages[v])];
    OneMoves(s.stages, v, After(s.stages[v]), 1);
    OneMoves(stages, t, After(s.stages[t]), 0);
    hide S.Scheduled, After, Uses, Moves, Sems;
    assert TotalsMove(s.stages, stages[t := After(s.stages[t])], u, 1);
    hide TotalsMove;
    AccountsChanged(s, u, S.Scheduled(s.sems[u], t), stages[t := After(s.stages[t])], 1);
  }

  lemma PublishKeepsAccounts(s: State, t: nat, u: Which)
    requires Shaped(s) && Accounts(s) && t < |s.stages|
    ensures Accounts(Changed(s, u, S.Published(s.sems[u], t), s.stages))
  {
    hide Units, Accounts, TotalsMove;
    PublishUnits(s.sems[u], t);
    NoneMoves(s.stages, u);
    AccountsChanged(s, u, S.Published(s.sems[u], t), s.stages, 0);
  }

  /** Whoever is between `lock.down` and `lock.up` is alone there. */
  lemma Alone(s: State, t: nat)
    requires |s.sems| == 3 && Exclusive(s) && t < |s.stages| && Inside(s.stages[t]) == 1
    ensures forall u :: 0 <= u < |s.stages| && u != t ==> Inside(s.stages[u]) == 0
    ensures Total(s.stages, Lagging) == Lagging(s.stages[t])
  {
    TotalNonNegative(s.sems[LOCK].pcs, S.HandedOver);
    forall u | 0 <= u < |s.stages| && u != t
      ensures Inside(s.stages[u]) == 0
    {
      TotalAtLeastTwo(s.stages, if t < u then t else u, if t < u then u else t, Inside);
    }
    TotalUpdate(s.stages, t, Idle, Lagging);
    TotalConstant(s.stages[t := Idle], 0, Lagging);
  }

  function FreeHeld(st: Stage): int {
    SlotHeld(st) - ItemHeld(st)
  }

  lemma {:induction false} TotalDifference(stages: seq<Stage>)
    ensures Total(stages, FreeHeld) == Total(stages, SlotHeld) - Total(stages, ItemHeld)
  {
    if stages != [] {
      TotalDifference(stages[..|stages| - 1]);
    }
  }

  /** A thread that holds a slot for writing finds one free; one that holds an item finds one there. */
  lemma Room(s: State, t: nat)
    requires Accounts(s) && t < |s.stages|
    ensures |s.puts| - |s.gets| <= |s.data|
    ensures FreeHeld(s.stages[t]) == 1 ==> |s.puts| - |s.gets| < |s.data|
    ensures ItemHeld(s.stages[t]) == 1 ==> |s.puts| - |s.gets| > 0
  {
    TotalDifference(s.stages);
    TotalNonNegative(s.sems[FULL].pcs, S.HandedOver);
    TotalNonNegative(s.sems[EMPTY].pcs, S.HandedOver);
    TotalAtLeast(s.stages, t, ItemHeld);
    TotalAtLeast(s.stages, t, FreeHeld);
  }

  // ---------- the ring ----------

  lemma Small(a: int, n: int)
    requires 0 <= a < n
    ensures a % n == a
  {
  }

  lemma WrapOnce(a: int, n: int)
    requires 0 < n <= a < 2 * n
    ensures a % n == a - n
  {
  }

  /** The slot arithmetic does not wrap in 32 bits, and goes round the ring. */
  lemma SlotIs(s: State, i: int)
    requires s.head < |s.data| <= 0x8000_0000 && 0 <= i <= |s.data|
    ensures Slot(s, i) == if s.head + i < |s.data| then s.head + i else s.head + i - |s.data|
  {
    Small(s.head + i, 0x1_0000_0000);
    if s.head + i >= |s.data| {
      WrapOnce(s.head + i, |s.data|);
    } else {
      Small(s.head + i, |s.data|);
    }
  }

  /** The parts of the state that semaphore steps leave alone. */
  predicate SameRing(s: State, s': State) {
    s'.head == s.head && s'.n == s.n && s'.data == s.data && s'.puts == s.puts && s'.gets == s.gets
  }

  predicate AtRest(st: Stage) {
    !st.Count? && !st.Advance?
  }

  /** Steps that leave the ring alone, and whose threads do not reach the statements inside, keep what is in it. */
  lemma RingKept(s: State, s': State)
    requires Fifo(s) && InFlight(s) && SameRing(s, s') && |s'.stages| == |s.stages|
    requires forall t :: 0 <= t < |s.stages| && s'.stages[t] != s.stages[t] ==> AtRest(s'.stages[t])
    ensures Fifo(s') && InFlight(s')
  {
    assert forall i :: Slot(s', i) == Slot(s, i);
    hide Slot;
  }

  lemma NotInside(st: Stage)
    ensures AtRest(After(st)) || After(st) == st
    ensures AtRest(ToWake(st)) || ToWake(st) == st
  {
  }

  lemma WorkKeepsSems(s: State, t: nat)
    requires Sems(s) && t < |s.stages|
    ensures Sems(Worked(s, t))
  {
    hide S.Inv;
    var s' := Worked(s, t);
    if s'.stages[t] != s.stages[t] {
      forall w: Which
        ensures SemOk(s'.stages, w, s'.sems[w], Initial(s', w))
      {
        assert SemOk(s.stages, w, s.sems[w], Initial(s, w));
        assert MatchesAt(s.stages[t], w, s.sems[w].pcs[t]);
        MatchStage(s.stages, w, s.sems[w].pcs, t, s'.stages[t]);
      }
    }
  }

  lemma WorkKeepsAccounts(s: State, t: nat)
    requires Accounts(s) && t < |s.stages|
    ensures Accounts(Worked(s, t))
  {
    StageTotals(s.stages, t, Worked(s, t).stages[t]);
    hide Units, Slot;
  }

  /** A thread inside finds the count right, and nobody else about to count or take. */
  lemma InsideFacts(s: State, t: nat)
    requires Inv(s) && t < |s.stages| && Inside(s.stages[t]) == 1
    ensures s.n == |s.puts| - |s.gets| + Lagging(s.stages[t]) && s.gets <= s.puts && |s.puts| - |s.gets| <= |s.data|
    ensures FreeHeld(s.stages[t]) == 1 ==> |s.puts| - |s.gets| < |s.data|
    ensures ItemHeld(s.stages[t]) == 1 ==> |s.puts| - |s.gets| > 0
    ensures |s.data| > 0 ==> s.head < |s.data|
    ensures forall u :: 0 <= u < |s.stages| && u != t ==> AtRest(s.stages[u])
  {
    Alone(s, t);
    Room(s, t);
    hide Sems, InFlight, Slots, Units;
  }

  /** Another state whose ring has the same head and size has the same slots. */
  lemma SameSlot(s: State, s': State, i: int)
    requires s'.head == s.head && |s'.data| == |s.data|
    ensures Slot(s', i) == Slot(s, i)
  {
  }

  lemma WriteKeepsRing(s: State, t: nat)
    requires Inv(s) && t < |s.stages| && s.stages[t].Write?
    ensures Slot(s, s.n) < |s.data|
    ensures Fifo(Worked(s, t)) && InFlight(Worked(s, t))
  {
    hide Slot, Sems, Accounts;
    InsideFacts(s, t);
    var s' := Worked(s, t);
    SlotIs(s, s.n);
    SameSlot(s, s', s.n);
    forall i | |s.gets| <= i < |s.puts|
      ensures Stored(s', i - |s.gets|, s.puts[i])
    {
      assert Stored(s, i - |s.gets|, s.puts[i]);
      SlotIs(s, i - |s.gets|);
      SameSlot(s, s', i - |s.gets|);
    }
    hide Stored;
  }

  lemma CountKeepsRing(s: State, t: nat)
    requires Inv(s) && t < |s.stages| && s.stages[t].Count?
    ensures Fifo(Worked(s, t)) && InFlight(Worked(s, t))
  {
    InsideFacts(s, t);
    hide Sems, Accounts;
    assert forall i :: Slot(Worked(s, t), i) == Slot(s, i);
    hide Slot;
  }

  lemma ReadKeepsRing(s: State, t: nat)
    requires Inv(s) && t < |s.stages| && s.stages[t].Read?
    ensures s.head < |s.data|
    ensures Fifo(Worked(s, t)) && InFlight(Worked(s, t))
  {
    InsideFacts(s, t);
    hide Sems, Accounts;
    assert forall i :: Slot(Worked(s, t), i) == Slot(s, i);
    hide Slot;
  }

  lemma AdvanceKeepsRing(s: State, t: nat)
    requires Inv(s) && t < |s.stages| && s.stages[t].Advance?
    ensures Fifo(Worked(s, t)) && InFlight(Worked(s, t))
  {
    hide Slot, Sems, Accounts;
    InsideFacts(s, t);
    var s' := Worked(s, t);
    SlotIs(s, 0);
    SlotIs(s, 1);
    assert Stored(s, |s.gets| - |s.gets|, s.puts[|s.gets|]);
    assert s.puts[|s.gets|] == s.stages[t].out;
    forall i | |s.gets| < i < |s.puts|
      ensures Stored(s', i - |s'.gets|, s.puts[i])
    {
      assert Stored(s, i - |s.gets|, s.puts[i]);
      SlotIs(s, i - |s.gets|);
      SlotIs(s', i - |s'.gets|);
    }
    hide Stored;
  }

  lemma UncountKeepsRing(s: State, t: nat)
    requires Inv(s) && t < |s.stages| && s.stages[t].Uncount?
    ensures Fifo(Worked(s, t)) && InFlight(Worked(s, t))
  {
    InsideFacts(s, t);
    hide Sems, Accounts;
    assert forall i :: Slot(Worked(s, t), i) == Slot(s, i);
    hide Slot;
  }

  // ---------- every step ----------

  lemma WorkKeepsInv(s: State, t: nat)
    requires Inv(s) && t < |s.stages|
    ensures Inv(Worked(s, t))
  {
    WorkKeepsSems(s, t);
    WorkKeepsAccounts(s, t);
    match s.stages[t]
    case Write(_) => WriteKeepsRing(s, t);
    case Count(_) => CountKeepsRing(s, t);
    case Read => ReadKeepsRing(s, t);
    case Advance(_) => AdvanceKeepsRing(s, t);
    case Uncount => UncountKeepsRing(s, t);
    case _ =>
    hide Sems, Accounts, Fifo, InFlight, Slot;
  }

  lemma StartKeepsSems(s: State, t: nat, op: Op)
    requires Sems(s) && t < |s.stages| && s.stages[t] == Idle
    ensures Sems(Started(s, t, op))
  {
    hide S.Inv;
    forall w: Which
      ensures SemOk(Started(s, t, op).stages, w, s.sems[w], Initial(s, w))
    {
      assert SemOk(s.stages, w, s.sems[w], Initial(s, w));
      assert MatchesAt(Idle, w, s.sems[w].pcs[t]);
      MatchStage(s.stages, w, s.sems[w].pcs, t, Claim(op));
    }
  }

  lemma StartKeepsAccounts(s: State, t: nat, op: Op)
    requires Accounts(s) && t < |s.stages| && s.stages[t] == Idle
    ensures Accounts(Started(s, t, op))
  {
    StageTotals(s.stages, t, Claim(op));
    hide Units;
  }

  lemma StartKeepsInv(s: State, t: nat, op: Op)
    requires Inv(s) && t < |s.stages| && s.stages[t] == Idle
    ensures Inv(Started(s, t, op))
  {
    StartKeepsSems(s, t, op);
    StartKeepsAccounts(s, t, op);
    hide Sems, Accounts, Fifo, InFlight;
    RingKept(s, Started(s, t, op));
  }

  /** What semaphore steps change is not the ring. */
  predicate RingApart(s: State, s': State) {
    && SameRing(s, s') && |s'.stages| == |s.stages|
    && forall t :: 0 <= t < |s.stages| && s'.stages[t] != s.stages[t] ==> AtRest(s'.stages[t])
  }

  lemma SemStepsApart(s: State, t: nat)
    requires Shaped(s) && t < |s.stages|
    ensures RingApart(s, Downed(s, t)) && RingApart(s, Upped(s, t)) && RingApart(s, Woken(s, t))
  {
    NotInside(s.stages[t]);
    var pc := s.sems[Uses(s.stages[t])].pcs[t];
    if pc.Scheduling? && pc.waiter < |s.stages| {
      NotInside(s.stages[pc.waiter]);
    }
    hide S.DownCalled, S.UpCalled, S.Scheduled, After, ToWake, AtRest;
  }

  lemma SemStepKeepsInv(s: State, s': State)
    requires Inv(s) && Sems(s') && Accounts(s') && RingApart(s, s')
    ensures Inv(s')
  {
    RingKept(s, s');
    hide Sems, Accounts, Fifo, InFlight, AtRest;
  }

  lemma StepKeepsInv(s: State, step: Step)
    requires Inv(s)
    ensures Inv(Apply(s, step))
  {
    hide Sems, Accounts, Fifo, InFlight, Worked, Downed, Upped, Woken, RingApart, S.Published;
    var t := step.t;
    if t < |s.stages| {
      SemsShaped(s);
      SemStepsApart(s, t);
      match step
      case Start(_, op) => if s.stages[t] == Idle { StartKeepsInv(s, t, op); }
      case Down(_) =>
        if Downs(s.stages[t]) {
          DownKeepsSems(s, t);
          DownKeepsAccounts(s, t);
          SemStepKeepsInv(s, Downed(s, t));
        }
      case Publish(_, w) => PublishKeepsInv(s, t, w);
      case Work(_) => WorkKeepsInv(s, t);
      case Up(_) =>
        if Ups(s.stages[t]) {
          UpKeepsSems(s, t);
          UpKeepsAccounts(s, t);
          SemStepKeepsInv(s, Upped(s, t));
        }
      case Wake(_) =>
        if Wakes(s.stages[t]) {
          WakeKeepsSems(s, t);
          WakeKeepsAccounts(s, t);
          SemStepKeepsInv(s, Woken(s, t));
        }
    }
  }

  lemma SemsShaped(s: State)
    requires Sems(s)
    ensures Shaped(s)
  {
  }

  lemma PublishKeepsInv(s: State, t: nat, u: Which)
    requires Inv(s) && Shaped(s) && t < |s.stages|
    ensures Inv(Changed(s, u, S.Published(s.sems[u], t), s.stages))
  {
    hide Sems, Accounts, S.Published;
    PublishKeepsSems(s, t, u);
    PublishKeepsAccounts(s, t, u);
    SemStepKeepsInv(s, Changed(s, u, S.Published(s.sems[u], t), s.stages));
  }

  lemma InitSem(threads: nat, capacity: nat, w: Which)
    ensures SemOk(Init(threads, capacity).stages, w, Init(threads, capacity).sems[w], Initial(Init(threads, capacity), w))
  {
    S.InitInv(threads, Initial(Init(threads, capacity), w));
    hide S.Inv;
  }

  lemma InitInv(threads: nat, capacity: nat)
    requires capacity <= 0x8000_0000
    ensures Inv(Init(threads, capacity))
  {
    var s := Init(threads, capacity);
    forall w: Which ensures SemOk(s.stages, w, s.sems[w], Initial(s, w)) { InitSem(threads, capacity, w); }
    hide SemOk;
    TotalConstant(s.stages, 0, SlotHeld);
    TotalConstant(s.stages, 0, ItemHeld);
    TotalConstant(s.stages, 0, Inside);
    TotalConstant(s.stages, 0, Lagging);
    TotalConstant(s.sems[EMPTY].pcs, 0, S.HandedOver);
  }

  lemma {:induction false} RunKeepsInv(s: State, steps: seq<Step>)
    requires Inv(s)
    ensures Inv(Run(s, steps)) && |Run(s, steps).data| == |s.data|
    decreases steps
  {
    hide Inv, Apply;
    if steps != [] {
      StepKeepsInv(s, steps[0]);
      SameCapacity(s, steps[0]);
      RunKeepsInv(Apply(s, steps[0]), steps[1..]);
    }
  }

  lemma SameCapacity(s: State, step: Step)
    ensures |Apply(s, step).data| == |s.data|
  {
  }

  // ---------- what holds of every run ----------

  /** Whatever the threads do and however they interleave, the buffer is a FIFO queue of at most
      `capacity` elements: what has been taken is always a prefix of what has been put. */
  lemma BufferIsFifo(threads: nat, capacity: nat, steps: seq<Step>)
    requires capacity <= 0x8000_0000
    ensures
      var s := Run(Init(threads, capacity), steps);
      && s.gets <= s.puts && |s.puts| - |s.gets| <= capacity
      && 0 <= s.n <= capacity
  {
    InitInv(threads, capacity);
    RunKeepsInv(Init(threads, capacity), steps);
    var s := Run(Init(threads, capacity), steps);
    hide Run, Init, Sems;
    CountInRange(s);
  }

  lemma CountInRange(s: State)
    requires Accounts(s) && s.gets <= s.puts
    ensures |s.puts| - |s.gets| <= |s.data| && 0 <= s.n <= |s.data|
  {
    TotalDifference(s.stages);
    TotalNonNegative(s.sems[FULL].pcs, S.HandedOver);
    TotalNonNegative(s.sems[EMPTY].pcs, S.HandedOver);
    TotalNonNegative(s.stages, FreeHeld);
    TotalNonNegative(s.stages, Lagging);
    if Total(s.stages, Lagging) > 0 {
      var t := TotalPositive(s.stages, Lagging);
      Alone(s, t);
      Room(s, t);
    }
  }

  // ---------- each call has its effect, once ----------

  /** The calls that thread `t` makes, in order. */
  function Calls(s: State, steps: seq<Step>, t: nat): seq<Op>
    decreases steps
  {
    if steps == [] then [] else CallsIn(s, steps[0], t) + Calls(Apply(s, steps[0]), steps[1..], t)
  }

  function CallsIn(s: State, step: Step, t: nat): seq<Op> {
    if step.Start? && step.t == t && Apply(s, step) != s then [step.op] else []
  }

  /** What thread `t` does to the buffer, in order, read off the values put and the number taken. */
  function Effects(s: State, steps: seq<Step>, t: nat): seq<Op>
    decreases steps
  {
    if steps == [] then [] else EffectsIn(s, steps[0], t) + Effects(Apply(s, steps[0]), steps[1..], t)
  }

  function EffectsIn(s: State, step: Step, t: nat): seq<Op> {
    var s' := Apply(s, step);
    if step.t != t then []
    else if |s'.puts| > |s.puts| then [Put(s'.puts[|s.puts|])]
    else if |s'.gets| > |s.gets| then [Get]
    else []
  }

  /** The call that a thread is in and that has not taken effect yet. */
  function Pending(st: Stage): seq<Op> {
    match st
    case Claim(op) => [op]
    case Enter(op) => [op]
    case Write(v) => [Put(v)]
    case Count(v) => [Put(v)]
    case Read => [Get]
    case Advance(_) => [Get]
    case _ => []
  }

  lemma StepTakesEffect(s: State, step: Step, t: nat)
    requires t < |s.stages|
    ensures t < |Apply(s, step).stages|
    ensures Pending(s.stages[t]) + CallsIn(s, step, t) == EffectsIn(s, step, t) + Pending(Apply(s, step).stages[t])
  {
    hide S.DownCalled, S.UpCalled, S.Scheduled, S.Published, Slot;
  }

  lemma {:induction false} RunTakesEffect(s: State, steps: seq<Step>, t: nat)
    requires t < |s.stages|
    ensures t < |Run(s, steps).stages|
    ensures Pending(s.stages[t]) + Calls(s, steps, t) == Effects(s, steps, t) + Pending(Run(s, steps).stages[t])
    decreases steps
  {
    if steps != [] {
      StepTakesEffect(s, steps[0], t);
      RunTakesEffect(Apply(s, steps[0]), steps[1..], t);
      hide Apply, CallsIn, EffectsIn, Pending;
      EffectsJoin(Pending(s.stages[t]), CallsIn(s, steps[0], t), EffectsIn(s, steps[0], t),
        Pending(Apply(s, steps[0]).stages[t]), Calls(Apply(s, steps[0]), steps[1..], t),
        Effects(Apply(s, steps[0]), steps[1..], t), Pending(Run(s, steps).stages[t]));
    }
  }

  lemma EffectsJoin(p: seq<Op>, c: seq<Op>, e: seq<Op>, q: seq<Op>, c1: seq<Op>, e1: seq<Op>, r: seq<Op>)
    requires p + c == e + q && q + c1 == e1 + r
    ensures p + (c + c1) == (e + e1) + r
  {
    assert p + (c + c1) == (p + c) + c1 && (e + q) + c1 == e + (q + c1) && e + (e1 + r) == (e + e1) + r;
  }

  /** Over every run a thread that is outside again has put just the values it called `put` with, and taken one
      element for each `get`, in the order of its calls; a call it is still in may be yet to take effect. */
  lemma CallsTakeEffectOnce(threads: nat, capacity: nat, steps: seq<Step>, t: nat)
    requires t < threads
    ensures
      var s := Run(Init(threads, capacity), steps);
      var calls, effects := Calls(Init(threads, capacity), steps, t), Effects(Init(threads, capacity), steps, t);
      && t < |s.stages|
      && effects <= calls && |calls| <= |effects| + 1
      && (s.stages[t] == Idle ==> calls == effects)
  {
    var init := Init(threads, capacity);
    RunTakesEffect(init, steps, t);
    var calls, effects := Calls(init, steps, t), Effects(init, steps, t);
    hide Run, Calls, Effects;
    assert [] + calls == calls;
    assert effects == (effects + Pending(Run(init, steps).stages[t]))[..|effects|];
  }

  /** Semaphore counts, units being handed over, and operations in flight always sum to the capacity. */
  lemma SlotsAreConserved(threads: nat, capacity: nat, steps: seq<Step>)
    requires capacity <= 0x8000_0000
    ensures
      var s := Run(Init(threads, capacity), steps);
      |s.sems| == 3 && Units(s.sems[EMPTY]) + Units(s.sems[FULL]) + Total(s.stages, SlotHeld) == capacity
  {
    InitInv(threads, capacity);
    RunKeepsInv(Init(threads, capacity), steps);
    hide Run, Units;
  }

  /** The slot a put is about to write holds no element still to be taken, and the put is alone with the ring. */
  ghost predicate WritesFreeSlot(s: State, t: nat) {
    && Slot(s, s.n) < |s.data|
    && (forall i {:trigger Slot(s, i)} :: 0 <= i < |s.puts| - |s.gets| ==>
          Slot(s, i) != Slot(s, s.n) && Stored(s, i, s.puts[|s.gets| + i]))
    && (forall u :: 0 <= u < |s.stages| && u != t ==> Inside(s.stages[u]) == 0)
  }

  lemma RingHolds(s: State, t: nat)
    requires Inv(s) && t < |s.stages| && s.stages[t].Write?
    ensures WritesFreeSlot(s, t)
  {
    hide Slot, Sems;
    InsideFacts(s, t);
    Alone(s, t);
    hide Accounts;
    SlotIs(s, s.n);
    forall i | 0 <= i < |s.puts| - |s.gets|
      ensures Slot(s, i) != Slot(s, s.n) && Stored(s, i, s.puts[|s.gets| + i])
    {
      SlotIs(s, i);
      assert Stored(s, |s.gets| + i - |s.gets|, s.puts[|s.gets| + i]);
    }
  }

  /** In no run does a put overwrite an element that has not been taken. */
  lemma NoSlotIsOverwritten(threads: nat, capacity: nat, steps: seq<Step>, t: nat)
    requires capacity <= 0x8000_0000 && t < |Run(Init(threads, capacity), steps).stages|
    requires Run(Init(threads, capacity), steps).stages[t].Write?
    ensures WritesFreeSlot(Run(Init(threads, capacity), steps), t)
  {
    hide Run, Inv, WritesFreeSlot;
    InitInv(threads, capacity);
    RunKeepsInv(Init(threads, capacity), steps);
    RingHolds(Run(Init(threads, capacity), steps), t);
  }

  // ---------- threads wait only when they must ----------

  /** No thread that is in an operation can take a step. */
  ghost predicate Quiet(s: State) {
    forall step: Step {:trigger Apply(s, step)} :: !step.Start? ==> Apply(s, step) == s
  }

  /** Which steps do something. */
  lemma PublishActs(s: State, t: nat, w: Which)
    requires Shaped(s) && t < |s.stages| && s.sems[w].pcs[t] == S.Switching
    ensures Apply(s, Publish(t, w)) != s
  {
    assert Apply(s, Publish(t, w)).sems[w].pcs[t] == S.Queued;
  }

  lemma DownActs(s: State, t: nat)
    requires Shaped(s) && t < |s.stages| && Downs(s.stages[t])
    requires var sem := s.sems[Uses(s.stages[t])]; !sem.sem.locked && sem.pcs[t] == S.Outside
    ensures Apply(s, Down(t)) != s
  {
    var u := Uses(s.stages[t]);
    assert Apply(s, Down(t)).sems[u] == S.DownCalled(s.sems[u], t);
  }

  lemma UpActs(s: State, t: nat)
    requires Sems(s) && t < |s.stages| && Ups(s.stages[t]) && !s.sems[Uses(s.stages[t])].sem.locked
    ensures Apply(s, Up(t)) != s
  {
    var u := Uses(s.stages[t]);
    var sem := s.sems[u];
    assert SemOk(s.stages, u, sem, Initial(s, u)) && MatchesAt(s.stages[t], u, sem.pcs[t]);
    if sem.sem.waiting != [] { S.FirstWaiter(sem, Initial(s, u)); }
    hide SemOk;
    assert S.UpCalled(sem, t).ups == sem.ups + 1;
    assert Apply(s, Up(t)).sems[u] == S.UpCalled(sem, t);
  }

  lemma WakeActs(s: State, t: nat)
    requires Sems(s) && t < |s.stages| && Wakes(s.stages[t])
    ensures Apply(s, Wake(t)) != s
  {
    var u, v := WakerAndWaiter(s, t);
    hide SemOk;
    assert Apply(s, Wake(t)).stages[t] == After(s.stages[t]);
  }

  lemma WorkActs(s: State, t: nat)
    requires Inv(s) && t < |s.stages| && Inside(s.stages[t]) == 1 && !Ups(s.stages[t])
    ensures Apply(s, Work(t)) != s
  {
    if s.stages[t].Write? {
      WriteKeepsRing(s, t);
    } else if s.stages[t].Read? {
      ReadKeepsRing(s, t);
    }
    hide SemOk, Accounts, Fifo, InFlight, Slot;
    assert Apply(s, Work(t)).stages[t] != s.stages[t];
  }

  lemma NobodySwitches(s: State, t: nat, w: Which)
    requires Sems(s) && Quiet(s) && t < |s.stages|
    ensures s.sems[w].pcs[t] != S.Switching
  {
    hide SemOk, Apply;
    if s.sems[w].pcs[t] == S.Switching {
      PublishActs(s, t, w);
    }
  }

  lemma LocksAreFree(s: State, w: Which)
    requires Sems(s) && Quiet(s)
    ensures !s.sems[w].sem.locked
  {
    var sem := s.sems[w];
    assert SemOk(s.stages, w, sem, Initial(s, w));
    if sem.sem.locked {
      var t := TotalPositive(sem.pcs, S.Blocking);
      NobodySwitches(s, t, w);
    }
  }

  lemma QuietUp(s: State, t: nat)
    requires Sems(s) && Quiet(s) && t < |s.stages|
    ensures !Ups(s.stages[t]) && !Wakes(s.stages[t])
  {
    LocksAreFree(s, Uses(s.stages[t]));
    hide Sems, Apply;
    if Ups(s.stages[t]) {
      UpActs(s, t);
    } else if Wakes(s.stages[t]) {
      WakeActs(s, t);
    }
  }

  lemma QuietOutside(s: State, t: nat)
    requires Inv(s) && Quiet(s) && t < |s.stages|
    ensures Inside(s.stages[t]) == 0
  {
    QuietUp(s, t);
    hide Sems, Accounts, Fifo, InFlight, Apply;
    if Inside(s.stages[t]) == 1 {
      WorkActs(s, t);
    }
  }

  /** A thread that is in an operation is in a semaphore's queue. */
  lemma QuietWaits(s: State, t: nat)
    requires Inv(s) && Quiet(s) && t < |s.stages|
    ensures s.stages[t] == Idle || (Downs(s.stages[t]) && s.sems[Uses(s.stages[t])].pcs[t] == S.Queued)
  {
    QuietUp(s, t);
    QuietOutside(s, t);
    if Downs(s.stages[t]) {
      var u := Uses(s.stages[t]);
      LocksAreFree(s, u);
      NobodySwitches(s, t, u);
      NobodyHanded(s, t, u);
      assert SemOk(s.stages, u, s.sems[u], Initial(s, u)) && MatchesAt(s.stages[t], u, s.sems[u].pcs[t]);
      hide Sems, Accounts, Fifo, InFlight, Apply;
      if s.sems[u].pcs[t] == S.Outside {
        DownActs(s, t);
      }
    }
  }

  lemma NobodyHanded(s: State, t: nat, w: Which)
    requires Sems(s) && Quiet(s) && t < |s.stages|
    ensures !s.sems[w].pcs[t].Handed?
  {
    var sem := s.sems[w];
    assert SemOk(s.stages, w, sem, Initial(s, w));
    if sem.pcs[t].Handed? {
      var u := sem.pcs[t].waker;
      assert MatchesAt(s.stages[u], w, sem.pcs[u]);
      QuietUp(s, u);
    }
  }

  /** With nothing moving, a semaphore's units are its count; and if any thread waits, that is zero. */
  lemma QuietUnits(s: State, w: Which)
    requires Sems(s) && Quiet(s)
    ensures Units(s.sems[w]) == s.sems[w].sem.count
    ensures forall t :: 0 <= t < |s.stages| && s.sems[w].pcs[t] == S.Queued ==> s.sems[w].sem.count == 0
  {
    var sem := s.sems[w];
    assert SemOk(s.stages, w, sem, Initial(s, w));
    forall t | 0 <= t < |s.stages|
      ensures S.HandedOver(sem.pcs[t]) == 0
    {
      NobodyHanded(s, t, w);
    }
    TotalConstant(sem.pcs, 0, S.HandedOver);
    forall t | 0 <= t < |s.stages| && sem.pcs[t] == S.Queued
      ensures sem.sem.count == 0
    {
      var q: nat := t;
      assert q in sem.sem.waiting;
    }
  }

  /** A put that waits, with nothing else moving, finds the buffer full; a get finds it empty; and
      nobody waits for the lock. */
  ghost predicate WaitsJustly(s: State, t: nat)
    requires t < |s.stages|
  {
    match s.stages[t]
    case Idle => true
    case Claim(Put(_)) => |s.puts| - |s.gets| == |s.data|
    case Claim(Get) => |s.puts| - |s.gets| == 0
    case _ => false
  }

  lemma QuietIsJust(s: State, t: nat)
    requires Inv(s) && Quiet(s) && t < |s.stages|
    ensures WaitsJustly(s, t)
  {
    forall u | 0 <= u < |s.stages|
      ensures s.stages[u] == Idle || (Downs(s.stages[u]) && s.sems[Uses(s.stages[u])].pcs[u] == S.Queued)
      ensures Inside(s.stages[u]) == 0
    {
      QuietWaits(s, u);
      QuietOutside(s, u);
    }
    TotalConstant(s.stages, 0, Inside);
    QuietUnits(s, EMPTY);
    QuietUnits(s, FULL);
    QuietUnits(s, LOCK);
    hide Sems, Units, Quiet, Fifo, InFlight, Inside, SlotHeld, ItemHeld;
    NobodyEnters(s);
    HoldNothing(s);
  }

  lemma NobodyEnters(s: State)
    requires Accounts(s) && Total(s.stages, Inside) == 0 && Units(s.sems[LOCK]) == s.sems[LOCK].sem.count
    requires Shaped(s)
    requires forall u :: 0 <= u < |s.stages| && s.sems[LOCK].pcs[u] == S.Queued ==> s.sems[LOCK].sem.count == 0
    requires forall u :: 0 <= u < |s.stages| ==>
      s.stages[u] == Idle || (Downs(s.stages[u]) && s.sems[Uses(s.stages[u])].pcs[u] == S.Queued)
    ensures forall u :: 0 <= u < |s.stages| ==> s.stages[u] == Idle || s.stages[u].Claim?
  {
    hide Units, Slots, Items;
  }

  lemma HoldNothing(s: State)
    requires forall u :: 0 <= u < |s.stages| ==> s.stages[u] == Idle || s.stages[u].Claim?
    ensures Total(s.stages, SlotHeld) == 0 && Total(s.stages, ItemHeld) == 0
  {
    TotalConstant(s.stages, 0, SlotHeld);
    TotalConstant(s.stages, 0, ItemHeld);
  }

  /** There is no deadlock: in any reachable state where no thread can go on, every thread is outside,
      or waits to put into a full buffer, or to get from an empty one. */
  lemma ThreadsWaitOnlyWhenTheyMust(threads: nat, capacity: nat, steps: seq<Step>, t: nat)
    requires capacity <= 0x8000_0000 && t < |Run(Init(threads, capacity), steps).stages|
    requires Quiet(Run(Init(threads, capacity), steps))
    ensures WaitsJustly(Run(Init(threads, capacity), steps), t)
  {
    hide Run, Inv, Quiet, WaitsJustly;
    InitInv(threads, capacity);
    RunKeepsInv(Init(threads, capacity), steps);
    QuietIsJust(Run(Init(threads, capacity), steps), t);
  }
}
