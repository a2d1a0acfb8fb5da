/**
 Context switching on any number of cores (`block`, `gheith_contextSwitch`, the timer
 interrupt, the ready queue, waiting queues, thread creation and reaping) as a
 transition system.  Every step is one access to shared state, so the steps of
 different cores interleave in every order.
 */
module Threads {
  import opened Basics

  /** Each core has one idle thread; all other threads are created as the system runs. */
  datatype Thread = Idle(core: nat) | User(id: nat)

  /** The ready queue, the zombies, and the waiting queues of semaphores and conditions. */
  datatype QueueId = Ready | Zombies | Wait(id: nat)

  datatype BlockOption = MustBlock | CanReturn

  /** How far a core has got inside `block`.  `handler` is the queue to which the switch
      handler will add the thread that blocked. */
  datatype Phase =
    | Running
    | Blocking(option: BlockOption, handler: QueueId)   // no_preempt is set
    | Chosen(next: Thread, handler: QueueId)            // the next thread is known
    | Flagged(next: Thread, handler: QueueId)           // and its no_preempt set
    | Switching(me: Thread, handler: QueueId)           // activeThreads names the next thread already
    | Saved(me: Thread, handler: QueueId)               // the registers of `me` are in its save area
    | Loaded(me: Thread, handler: QueueId)              // on the next thread's stack, interrupts off

  datatype Core = Core(active: Thread, phase: Phase)

  /** `hand` holds, by thread, a TCB taken from a waiting queue or just made, on its way to `schedule`.
      `saved` are the threads whose save area holds a context that may be resumed.
      `corrupt` records that a context was resumed which had not been saved, or that the timer
      interrupted a switch and started another. */
  datatype State = State(
    cores: seq<Core>,
    queues: map<QueueId, seq<Thread>>,
    hand: map<Thread, Thread>,
    noPreempt: set<Thread>,
    saved: set<Thread>,
    made: set<Thread>,
    dead: set<Thread>,
    corrupt: bool)
  {
    function Queue(q: QueueId): seq<Thread> {
      if q in queues then queues[q] else []
    }

    function WithCore(c: nat, core: Core): State
      requires c < |cores|
    {
      this.(cores := cores[c := core])
    }

    function WithQueue(q: QueueId, s: seq<Thread>): State {
      this.(queues := queues[q := s])
    }
  }

  datatype Step =
    | EnterBlock(c: nat, option: BlockOption, handler: QueueId)
    | TakeNext(c: nat)
    | FlagNext(c: nat)
    | SetActive(c: nat)
    | SaveRegisters(c: nat)
    | LoadRegisters(c: nat)
    | Publish(c: nat)
    | Timer(c: nat)
    | TakeWaiter(c: nat, id: nat)
    | Schedule(c: nat)
    | Create(c: nat, id: nat)
    | Reap(c: nat)

  /** The state before the first thread: every core runs its idle thread. */
  function Init(n: nat): State {
    State(seq(n, i requires 0 <= i < n => Core(Idle(i), Running)), map[], map[], {}, {}, {}, {}, false)
  }

  /** What a step does.  A step that cannot happen in a state leaves it as it is. */
  function Apply(s: State, step: Step): State {
    if step.c >= |s.cores| then s
    else
      match step
      case EnterBlock(c, option, handler) => EnterBlocked(s, c, option, handler)
      case TakeNext(c) => NextTaken(s, c)
      case FlagNext(c) => NextFlagged(s, c)
      case SetActive(c) => ActiveSet(s, c)
      case SaveRegisters(c) => RegistersSaved(s, c)
      case LoadRegisters(c) => RegistersLoaded(s, c)
      case Publish(c) => Published(s, c)
      case Timer(c) => Ticked(s, c)
      case TakeWaiter(c, id) => WaiterTaken(s, c, id)
      case Schedule(c) => Scheduled(s, c)
      case Create(c, id) => Created(s, c, id)
      case Reap(c) => Reaped(s, c)
  }

  function StartBlock(s: State, c: nat, option: BlockOption, handler: QueueId): State
    requires c < |s.cores|
  {
    s.(noPreempt := s.noPreempt + {s.cores[c].active}).WithCore(c, Core(s.cores[c].active, Blocking(option, handler)))
  }

  /** A thread on its way to `schedule` does not block by itself, and an idle one waits for nothing. */
  function EnterBlocked(s: State, c: nat, option: BlockOption, handler: QueueId): State
    requires c < |s.cores|
  {
    var me := s.cores[c].active;
    if s.cores[c].phase != Running || me in s.hand || (me.Idle? && handler.Wait?) then s
    else StartBlock(s, c, option, handler)
  }

  function NextTaken(s: State, c: nat): State
    requires c < |s.cores|
  {
    match s.cores[c]
    case Core(me, Blocking(option, handler)) =>
      var ready := s.Queue(Ready);
      if ready != [] then s.WithQueue(Ready, ready[1..]).WithCore(c, Core(me, Chosen(ready[0], handler)))
      else if option == CanReturn then s.WithCore(c, Core(me, Running))
      else if me.Idle? then s
      else s.WithCore(c, Core(me, Chosen(Idle(c), handler)))
    case _ => s
  }

  function NextFlagged(s: State, c: nat): State
    requires c < |s.cores|
  {
    match s.cores[c]
    case Core(me, Chosen(next, handler)) =>
      s.(noPreempt := s.noPreempt + {next}).WithCore(c, Core(me, Flagged(next, handler)))
    case _ => s
  }

  function ActiveSet(s: State, c: nat): State
    requires c < |s.cores|
  {
    match s.cores[c]
    case Core(me, Flagged(next, handler)) => s.WithCore(c, Core(next, Switching(me, handler)))
    case _ => s
  }

  function RegistersSaved(s: State, c: nat): State
    requires c < |s.cores|
  {
    match s.cores[c]
    case Core(next, Switching(me, handler)) =>
      s.(saved := s.saved + {me}).WithCore(c, Core(next, Saved(me, handler)))
    case _ => s
  }

  function RegistersLoaded(s: State, c: nat): State
    requires c < |s.cores|
  {
    match s.cores[c]
    case Core(next, Saved(me, handler)) =>
      s.(noPreempt := s.noPreempt - {me, next}, saved := s.saved - {next}, corrupt := s.corrupt || next !in s.saved)
       .WithCore(c, Core(next, Loaded(me, handler)))
    case _ => s
  }

  function Published(s: State, c: nat): State
    requires c < |s.cores|
  {
    match s.cores[c]
    case Core(next, Loaded(me, handler)) =>
      var s' := s.WithCore(c, Core(next, Running));
      if me.Idle? then s' else s'.WithQueue(handler, s.Queue(handler) + [me])
    case _ => s
  }

  /** The handler leaves alone an idle thread and one that must not be preempted; otherwise it yields. */
  function Ticked(s: State, c: nat): State
    requires c < |s.cores|
  {
    var Core(me, phase) := s.cores[c];
    if phase.Loaded? || me.Idle? || me in s.noPreempt then s
    else StartBlock(s.(corrupt := s.corrupt || phase != Running), c, CanReturn, Ready)
  }

  function WaiterTaken(s: State, c: nat, id: nat): State
    requires c < |s.cores|
  {
    var me, waiting := s.cores[c].active, s.Queue(Wait(id));
    if s.cores[c].phase != Running || me in s.hand || waiting == [] then s
    else s.WithQueue(Wait(id), waiting[1..]).(hand := s.hand[me := waiting[0]])
  }

  function Scheduled(s: State, c: nat): State
    requires c < |s.cores|
  {
    var me := s.cores[c].active;
    if s.cores[c].phase != Running || me !in s.hand then s
    else s.WithQueue(Ready, s.Queue(Ready) + [s.hand[me]]).(hand := s.hand - {me})
  }

  /** A new thread's stack and save area are laid out as if it had just been switched from. */
  function Created(s: State, c: nat, id: nat): State
    requires c < |s.cores|
  {
    var me := s.cores[c].active;
    if s.cores[c].phase != Running || me in s.hand || User(id) in s.made then s
    else s.(made := s.made + {User(id)}, saved := s.saved + {User(id)}, hand := s.hand[me := User(id)])
  }

  function Reaped(s: State, c: nat): State
    requires c < |s.cores|
  {
    var zombies := s.Queue(Zombies);
    if s.cores[c].phase != Running || zombies == [] then s
    else s.WithQueue(Zombies, zombies[1..]).(saved := s.saved - {zombies[0]}, dead := s.dead + {zombies[0]})
  }

  function Run(s: State, steps: seq<Step>): State
    decreases steps
  {
    if steps == [] then s else Run(Apply(s, steps[0]), steps[1..])
  }

  // ---------- the invariant ----------

  /** Where a thread is. */
  datatype Place = OnCore(c: nat) | In(q: QueueId) | InHand(holder: Thread)

  type Places = map<Thread, Place>

  predicate Held(places: Places, c: nat, t: Thread) {
    if t.Idle? then t.core == c else t in places && places[t] == OnCore(c)
  }

  /** The second thread a core holds while it switches. */
  predicate HasOther(p: Phase, t: Thread) {
    match p
    case Running => false
    case Blocking(_, _) => false
    case Chosen(n, _) => t == n
    case Flagged(n, _) => t == n
    case Switching(m, _) => t == m
    case Saved(m, _) => t == m
    case Loaded(m, _) => t == m
  }

  predicate Holds(core: Core, t: Thread) {
    core.active == t || HasOther(core.phase, t)
  }

  ghost predicate CoreOk(s: State, places: Places, c: nat)
    requires c < |s.cores|
  {
    var Core(a, p) := s.cores[c];
    && Held(places, c, a)
    && (Idle(c) in s.saved || a == Idle(c) || HasOther(p, Idle(c)))
    && (p != Running && !p.Loaded? ==> a in s.noPreempt)
    && (!p.Switching? && !p.Saved? ==> a !in s.saved)
    && match p
       case Running => true
       case Blocking(_, q) => q.Wait? ==> a.User?
       case Chosen(n, q) => Held(places, c, n) && n != a && n in s.saved && (q.Wait? ==> a.User?)
       case Flagged(n, q) => Held(places, c, n) && n != a && n in s.saved && n in s.noPreempt && (q.Wait? ==> a.User?)
       case Switching(m, q) => Held(places, c, m) && m != a && a in s.saved && m !in s.saved && (q.Wait? ==> m.User?)
       case Saved(m, q) => Held(places, c, m) && m != a && a in s.saved && m in s.saved && (q.Wait? ==> m.User?)
       case Loaded(m, q) =>
         Held(places, c, m) && m != a && m in s.saved && a !in s.noPreempt && m !in s.noPreempt && (q.Wait? ==> m.User?)
  }

  ghost predicate QueueOk(s: State, places: Places, q: QueueId) {
    && Distinct(s.Queue(q))
    && forall t :: t in s.Queue(q) ==> t.User? && t in places && places[t] == In(q) && t in s.saved && t !in s.noPreempt
  }

  ghost predicate HandOk(s: State, places: Places, holder: Thread) {
    holder in s.hand ==>
      var t := s.hand[holder];
      t.User? && t in places && places[t] == InHand(holder) && t in s.saved && t !in s.noPreempt
  }

  /** A place is where the thread really is. */
  ghost predicate PlaceOk(s: State, places: Places, t: Thread) {
    t in places ==>
      && t.User? && t in s.made
      && match places[t]
         case OnCore(c) => c < |s.cores| && Holds(s.cores[c], t)
         case In(q) => t in s.Queue(q)
         case InHand(holder) => holder in s.hand && s.hand[holder] == t
  }

  ghost predicate Placed(s: State, places: Places) {
    && !s.corrupt
    && (forall c :: 0 <= c < |s.cores| ==> CoreOk(s, places, c))
    && (forall q :: QueueOk(s, places, q))
    && (forall h :: HandOk(s, places, h))
    && (forall t :: PlaceOk(s, places, t))
    && (forall t :: t in s.made && t !in s.dead ==> t in places)
    && (forall t :: t in s.noPreempt && t.User? ==> t in s.made)
  }

  ghost predicate Inv(s: State) {
    exists places :: Placed(s, places)
  }

  // ---------- one step ----------

  /** Which thread a step moves, and where to. */
  datatype Move = Stay | Goes(t: Thread, to: Place) | Gone(t: Thread)

  function MoveOf(s: State, step: Step): Move {
    if step.c >= |s.cores| then Stay
    else
      var Core(me, phase) := s.cores[step.c];
      match step
      case TakeNext(c) => if phase.Blocking? && s.Queue(Ready) != [] then Goes(s.Queue(Ready)[0], OnCore(c)) else Stay
      case Publish(_) => if phase.Loaded? && phase.me.User? then Goes(phase.me, In(phase.handler)) else Stay
      case TakeWaiter(_, id) =>
        if phase != Running || me in s.hand || s.Queue(Wait(id)) == [] then Stay else Goes(s.Queue(Wait(id))[0], InHand(me))
      case Schedule(_) => if phase == Running && me in s.hand then Goes(s.hand[me], In(Ready)) else Stay
      case Create(_, id) => if phase != Running || me in s.hand || User(id) in s.made then Stay else Goes(User(id), InHand(me))
      case Reap(_) => if phase != Running || s.Queue(Zombies) == [] then Stay else Gone(s.Queue(Zombies)[0])
      case _ => Stay
  }

  function Moved(places: Places, m: Move): Places {
    match m
    case Stay => places
    case Goes(t, to) => places[t := to]
    case Gone(t) => places - {t}
  }

  /** The thread at the head of a queue waits there, saved. */
  lemma QueueHead(s: State, places: Places, q: QueueId)
    requires QueueOk(s, places, q) && s.Queue(q) != []
    ensures var t := s.Queue(q)[0]; t.User? && t in places && places[t] == In(q) && t in s.saved && t !in s.noPreempt
  {
    assert s.Queue(q)[0] in s.Queue(q);
  }

  /** Where the thread that moves comes from. */
  predicate ComesFrom(s: State, places: Places, step: Step, t: Thread) {
    match step
    case Publish(c) => t in places && places[t] == OnCore(c)
    case TakeNext(_) => t in places && places[t] == In(Ready)
    case TakeWaiter(_, id) => t in places && places[t] == In(Wait(id))
    case Reap(_) => t in places && places[t] == In(Zombies)
    case Schedule(c) => c < |s.cores| && t in places && places[t] == InHand(s.cores[c].active)
    case _ => t !in places && t !in s.made
  }

  lemma MoverComesFrom(s: State, places: Places, step: Step)
    requires Placed(s, places) && step.c < |s.cores| && MoveOf(s, step) != Stay
    ensures MoveOf(s, step).t.User? && ComesFrom(s, places, step, MoveOf(s, step).t)
    ensures !step.Create? ==> MoveOf(s, step).t in s.saved && MoveOf(s, step).t in s.made
    ensures MoveOf(s, step).t !in s.noPreempt
  {
    assert CoreOk(s, places, step.c) && PlaceOk(s, places, MoveOf(s, step).t);
    match step
    case TakeNext(_) => QueueHead(s, places, Ready);
    case TakeWaiter(_, id) => QueueHead(s, places, Wait(id));
    case Reap(_) => QueueHead(s, places, Zombies);
    case Schedule(_) => assert HandOk(s, places, s.cores[step.c].active);
    case Create(_, id) => assert PlaceOk(s, places, User(id));
    case _ =>
  }

  /** A core is unaffected by what happens to threads it does not hold. */
  lemma OtherCoreKept(s: State, places: Places, s': State, places': Places, d: nat)
    requires d < |s.cores| == |s'.cores| && s'.cores[d] == s.cores[d] && CoreOk(s, places, d)
    requires forall t :: Held(places, d, t) ==>
      Held(places', d, t) && (t in s'.saved <==> t in s.saved) && (t in s'.noPreempt <==> t in s.noPreempt)
    ensures CoreOk(s', places', d)
  {
    assert Held(places, d, Idle(d));
  }

  /** A step touches no thread but those its core holds and the one it moves. */
  lemma ThreadKept(s: State, places: Places, step: Step, t: Thread)
    requires step.c < |s.cores| && CoreOk(s, places, step.c)
    requires !Held(places, step.c, t) && (MoveOf(s, step) == Stay || t != MoveOf(s, step).t)
    ensures t in Apply(s, step).saved <==> t in s.saved
    ensures t in Apply(s, step).noPreempt <==> t in s.noPreempt
  {
    match step
    case SaveRegisters(_) =>
    case LoadRegisters(_) =>
    case Create(_, _) =>
    case Reap(_) =>
    case _ =>
  }

  lemma CoresKept(s: State, step: Step, d: nat)
    requires d < |s.cores| && d != step.c
    ensures |Apply(s, step).cores| == |s.cores| && Apply(s, step).cores[d] == s.cores[d]
  {
  }

  lemma StepElsewhere(s: State, places: Places, step: Step, d: nat)
    requires Placed(s, places) && step.c < |s.cores| && d < |s.cores| && d != step.c
    ensures |Apply(s, step).cores| == |s.cores| && CoreOk(Apply(s, step), Moved(places, MoveOf(s, step)), d)
  {
    assert CoreOk(s, places, d) && CoreOk(s, places, step.c);
    if MoveOf(s, step) != Stay { MoverComesFrom(s, places, step); }
    CoresKept(s, step, d);
    var s', places' := Apply(s, step), Moved(places, MoveOf(s, step));
    hide Apply, MoveOf, CoreOk, Placed;
    forall t | Held(places, d, t)
      ensures Held(places', d, t) && (t in s'.saved <==> t in s.saved) && (t in s'.noPreempt <==> t in s.noPreempt)
    {
      ThreadKept(s, places, step, t);
    }
    OtherCoreKept(s, places, s', places', d);
  }

  lemma InTail(s: seq<Thread>, t: Thread)
    ensures t in s && t != s[0] ==> t in s[1..]
  {
  }

  /** What a step does to a queue, said without its branches: nothing, or the thread that moves
      leaves its head, or joins its end. */
  predicate QueueEffect(now: seq<Thread>, was: seq<Thread>, m: Move, q: QueueId) {
    if m.Goes? && m.to == In(q) then now == was + [m.t]
    else now == was || (m != Stay && was != [] && m.t == was[0] && now == was[1..])
  }

  lemma OtherSteps(s: State, step: Step)
    requires step.c < |s.cores|
    requires !step.TakeNext? && !step.Publish? && !step.TakeWaiter? && !step.Schedule? && !step.Reap?
    ensures Apply(s, step).queues == s.queues && !(MoveOf(s, step).Goes? && MoveOf(s, step).to.In?)
  {
  }

  lemma JoinEffect(s: State, step: Step, q: QueueId)
    requires step.c < |s.cores| && (step.Publish? || step.Schedule?)
    ensures QueueEffect(Apply(s, step).Queue(q), s.Queue(q), MoveOf(s, step), q)
  {
  }

  lemma StepQueueEffect(s: State, step: Step, q: QueueId)
    requires step.c < |s.cores|
    ensures QueueEffect(Apply(s, step).Queue(q), s.Queue(q), MoveOf(s, step), q)
  {
    match step
    case TakeNext(_) =>
    case Publish(_) => JoinEffect(s, step, q);
    case TakeWaiter(_, _) =>
    case Schedule(_) => JoinEffect(s, step, q);
    case Reap(_) =>
    case _ => OtherSteps(s, step);
  }

  /** A waiting thread stays saved, and the one that moves is saved unless it is deleted. */
  lemma StepSaves(s: State, places: Places, step: Step)
    requires step.c < |s.cores| && CoreOk(s, places, step.c)
    ensures forall t :: t in s.saved && !Held(places, step.c, t) && !(MoveOf(s, step).Gone? && t == MoveOf(s, step).t) ==>
      t in Apply(s, step).saved
    ensures MoveOf(s, step).Goes? && (step.Create? || step.Publish?) ==> MoveOf(s, step).t in Apply(s, step).saved
    ensures forall t :: t in Apply(s, step).noPreempt && t !in s.noPreempt ==> Held(places, step.c, t)
    ensures MoveOf(s, step) != Stay ==> Apply(s, step).noPreempt == s.noPreempt
  {
    if Starts(step) { StartSaves(s, places, step); } else { LaterSaves(s, places, step); }
    hide Apply, MoveOf, CoreOk, Held;
  }

  lemma StartSaves(s: State, places: Places, step: Step)
    requires step.c < |s.cores| && CoreOk(s, places, step.c) && Starts(step)
    ensures Apply(s, step).saved == s.saved
    ensures forall t :: t in Apply(s, step).noPreempt && t !in s.noPreempt ==> Held(places, step.c, t)
    ensures MoveOf(s, step) != Stay ==> Apply(s, step).noPreempt == s.noPreempt
  {
  }

  lemma LaterSaves(s: State, places: Places, step: Step)
    requires step.c < |s.cores| && CoreOk(s, places, step.c) && !Starts(step)
    ensures forall t :: t in s.saved && !Held(places, step.c, t) && !(MoveOf(s, step).Gone? && t == MoveOf(s, step).t) ==>
      t in Apply(s, step).saved
    ensures MoveOf(s, step).Goes? && (step.Create? || step.Publish?) ==> MoveOf(s, step).t in Apply(s, step).saved
    ensures Apply(s, step).noPreempt <= s.noPreempt
    ensures MoveOf(s, step) != Stay ==> Apply(s, step).noPreempt == s.noPreempt
  {
  }

  /** A queue stays in order when the thread that moves was not in it, or was at its head. */
  lemma QueueStep(s: State, s': State, places: Places, m: Move, q: QueueId)
    requires QueueOk(s, places, q) && QueueEffect(s'.Queue(q), s.Queue(q), m, q)
    requires forall t :: t in s.Queue(q) ==> (t in s'.saved || (m.Gone? && t == m.t)) && t !in s'.noPreempt
    requires m.Goes? ==> m.t.User? && (m.to.In? ==> m.t in s'.saved && m.t !in s'.noPreempt && m.t !in s.Queue(q))
    requires m != Stay && m.t in s.Queue(q) ==> s'.Queue(q) != s.Queue(q)
    ensures QueueOk(s', Moved(places, m), q)
  {
    if m.Goes? && m.to == In(q) {
      AppendDistinct(s.Queue(q), m.t);
    } else if s'.Queue(q) != s.Queue(q) {
      TailDistinct(s.Queue(q));
    }
  }

  /** A thread that is taken from a queue leaves it. */
  lemma MoverLeaves(s: State, places: Places, step: Step, q: QueueId)
    requires Placed(s, places) && step.c < |s.cores| && MoveOf(s, step) != Stay
    requires MoveOf(s, step).t in s.Queue(q)
    ensures Apply(s, step).Queue(q) != s.Queue(q)
    ensures MoveOf(s, step).Goes? ==> !MoveOf(s, step).to.In?
  {
    assert QueueOk(s, places, q);
    MoverComesFrom(s, places, step);
    hide CoreOk, Placed, QueueOk;
    assert step.TakeNext? || step.TakeWaiter? || step.Reap?;
  }

  lemma StepQueue(s: State, places: Places, step: Step, q: QueueId)
    requires Placed(s, places) && step.c < |s.cores|
    ensures QueueOk(Apply(s, step), Moved(places, MoveOf(s, step)), q)
  {
    var s', m := Apply(s, step), MoveOf(s, step);
    assert QueueOk(s, places, q) && CoreOk(s, places, step.c);
    StepQueueEffect(s, step, q);
    StepSaves(s, places, step);
    if m != Stay {
      MoverComesFrom(s, places, step);
      if m.t in s.Queue(q) { MoverLeaves(s, places, step, q); }
    }
    hide Apply, MoveOf, CoreOk, Placed, QueueEffect;
    QueueStep(s, s', places, m, q);
  }

  /** The steps that start a switch, and those that finish one. */
  predicate Starts(step: Step) {
    step.EnterBlock? || step.TakeNext? || step.FlagNext? || step.SetActive? || step.Timer?
  }

  lemma StartHere(s: State, places: Places, step: Step)
    requires Placed(s, places) && step.c < |s.cores| && Starts(step)
    ensures |Apply(s, step).cores| == |s.cores| && CoreOk(Apply(s, step), Moved(places, MoveOf(s, step)), step.c)
    ensures !Apply(s, step).corrupt
  {
    assert CoreOk(s, places, step.c);
    if step.TakeNext? && s.Queue(Ready) != [] { QueueHead(s, places, Ready); }
    hide Distinct, HandOk, PlaceOk, QueueOk;
  }

  /** The three steps that finish a switch. */
  predicate Finishes(step: Step) {
    step.SaveRegisters? || step.LoadRegisters? || step.Publish?
  }

  lemma FinishHere(s: State, places: Places, step: Step)
    requires Placed(s, places) && step.c < |s.cores| && Finishes(step)
    ensures |Apply(s, step).cores| == |s.cores| && CoreOk(Apply(s, step), Moved(places, MoveOf(s, step)), step.c)
    ensures !Apply(s, step).corrupt
  {
    assert CoreOk(s, places, step.c);
    hide Distinct, HandOk, PlaceOk, QueueOk;
  }

  lemma RunsOn(s: State, places: Places, step: Step)
    requires Placed(s, places) && step.c < |s.cores| && !Starts(step) && !Finishes(step)
    ensures |Apply(s, step).cores| == |s.cores| && CoreOk(Apply(s, step), Moved(places, MoveOf(s, step)), step.c)
    ensures !Apply(s, step).corrupt
  {
    assert CoreOk(s, places, step.c);
    if MoveOf(s, step) != Stay { MoverComesFrom(s, places, step); }
    hide Distinct, HandOk, PlaceOk, QueueOk;
  }

  /** What a step does to a thread's hand. */
  predicate HandEffect(s: State, s': State, step: Step, m: Move, h: Thread)
    requires step.c < |s.cores|
  {
    var me := s.cores[step.c].active;
    if h == me && m.Goes? && m.to == InHand(me) then h !in s.hand && h in s'.hand && s'.hand[h] == m.t
    else if h == me && step.Schedule? && m != Stay then h !in s'.hand && h in s.hand && s.hand[h] == m.t
    else (h in s'.hand <==> h in s.hand) && (h in s.hand ==> s'.hand[h] == s.hand[h]) && !(m.Goes? && m.to == InHand(h))
  }

  lemma HandsKept(s: State, step: Step)
    requires step.c < |s.cores| && !step.TakeWaiter? && !step.Schedule? && !step.Create?
    ensures Apply(s, step).hand == s.hand && !(MoveOf(s, step).Goes? && MoveOf(s, step).to.InHand?)
  {
  }

  lemma StepHandEffect(s: State, step: Step, h: Thread)
    requires step.c < |s.cores|
    ensures HandEffect(s, Apply(s, step), step, MoveOf(s, step), h)
  {
    match step
    case TakeWaiter(_, _) =>
    case Schedule(_) =>
    case Create(_, _) =>
    case _ => HandsKept(s, step);
  }

  lemma StepHand(s: State, places: Places, step: Step, h: Thread)
    requires Placed(s, places) && step.c < |s.cores|
    ensures HandOk(Apply(s, step), Moved(places, MoveOf(s, step)), h)
  {
    assert HandOk(s, places, h) && CoreOk(s, places, step.c);
    StepHandEffect(s, step, h);
    if MoveOf(s, step) != Stay { MoverComesFrom(s, places, step); }
    StepSaves(s, places, step);
    hide Apply, MoveOf, CoreOk, Placed;
  }

  /** The thread a step moves to its core is held there, and no thread is dropped but the one that moves. */
  predicate HoldEffect(s: State, s': State, c: nat, m: Move, t: Thread)
    requires c < |s.cores|
  {
    && |s'.cores| == |s.cores|
    && (Holds(s.cores[c], t) && (m == Stay || t != m.t) ==> Holds(s'.cores[c], t))
    && (m.Goes? && m.to.OnCore? ==> m.to.c == c && Holds(s'.cores[c], m.t))
  }

  lemma StartHolds(s: State, places: Places, step: Step, t: Thread)
    requires step.c < |s.cores| && CoreOk(s, places, step.c) && t.User? && Starts(step)
    ensures HoldEffect(s, Apply(s, step), step.c, MoveOf(s, step), t)
  {
  }

  lemma FinishHolds(s: State, step: Step, t: Thread)
    requires step.c < |s.cores| && t.User? && !Starts(step)
    ensures HoldEffect(s, Apply(s, step), step.c, MoveOf(s, step), t)
  {
  }

  /** No thread is lost: what lives after a step lived before, or was just made; what is deleted is
      the thread that goes. */
  lemma StepLives(s: State, step: Step)
    requires step.c < |s.cores|
    ensures forall t :: t in Apply(s, step).made && t !in Apply(s, step).dead ==>
      && !(MoveOf(s, step).Gone? && t == MoveOf(s, step).t)
      && ((t in s.made && t !in s.dead) || (MoveOf(s, step).Goes? && t == MoveOf(s, step).t))
  {
  }

  lemma StepFlags(s: State, places: Places, step: Step)
    requires Placed(s, places) && step.c < |s.cores|
    ensures forall t :: t in Apply(s, step).noPreempt && t.User? ==> t in Apply(s, step).made
  {
    assert CoreOk(s, places, step.c);
    forall t | t in Apply(s, step).noPreempt && t.User?
      ensures t in s.made
    {
      if t !in s.noPreempt {
        StepSaves(s, places, step);
        assert PlaceOk(s, places, t);
      }
    }
    StepMakes(s, step);
  }

  lemma StepMakes(s: State, step: Step)
    requires step.c < |s.cores|
    ensures s.made <= Apply(s, step).made
    ensures step.Create? && MoveOf(s, step) != Stay ==> MoveOf(s, step).t in Apply(s, step).made
  {
  }

  lemma StepPlace(s: State, places: Places, step: Step, t: Thread)
    requires Placed(s, places) && step.c < |s.cores|
    ensures PlaceOk(Apply(s, step), Moved(places, MoveOf(s, step)), t)
  {
    assert PlaceOk(s, places, t) && CoreOk(s, places, step.c);
    var m := MoveOf(s, step);
    if m != Stay { MoverComesFrom(s, places, step); }
    StepMakes(s, step);
    hide Apply, MoveOf, CoreOk, Placed, Holds;
    if t in Moved(places, m) {
      match Moved(places, m)[t]
      case OnCore(c) =>
        if Starts(step) { StartHolds(s, places, step, t); } else { FinishHolds(s, step, t); }
        if c != step.c { CoresKept(s, step, c); }
        assert Holds(Apply(s, step).cores[c], t);
      case In(q) =>
        StepQueueEffect(s, step, q);
        InTail(s.Queue(q), t);
        assert t in Apply(s, step).Queue(q);
      case InHand(h) => StepHandEffect(s, step, h);
    }
  }

  lemma StepKeepsInv(s: State, step: Step)
    requires Inv(s)
    ensures Inv(Apply(s, step)) && |Apply(s, step).cores| == |s.cores|
  {
    if step.c < |s.cores| {
      var places :| Placed(s, places);
      var s', places' := Apply(s, step), Moved(places, MoveOf(s, step));
      if Starts(step) { StartHere(s, places, step); }
      else if Finishes(step) { FinishHere(s, places, step); }
      else { RunsOn(s, places, step); }
      StepLives(s, step);
      StepFlags(s, places, step);
      hide Apply, MoveOf, CoreOk, QueueOk, HandOk, PlaceOk;
      forall c | 0 <= c < |s'.cores|
        ensures CoreOk(s', places', c)
      {
        if c != step.c { StepElsewhere(s, places, step, c); }
      }
      forall q ensures QueueOk(s', places', q) { StepQueue(s, places, step, q); }
      forall h ensures HandOk(s', places', h) { StepHand(s, places, step, h); }
      forall t ensures PlaceOk(s', places', t) { StepPlace(s, places, step, t); }
      assert Placed(s', places');
    }
  }

  // ---------- every run ----------

  lemma InitInv(n: nat)
    ensures Inv(Init(n))
  {
    assert Placed(Init(n), map[]);
  }

  lemma {:induction false} RunKeepsInv(s: State, steps: seq<Step>)
    requires Inv(s)
    ensures Inv(Run(s, steps)) && |Run(s, steps).cores| == |s.cores|
    decreases steps
  {
    hide Inv, Apply;
    if steps != [] {
      StepKeepsInv(s, steps[0]);
      RunKeepsInv(Apply(s, steps[0]), steps[1..]);
    }
  }

  /** In every state that any number of cores and threads can reach: no context is resumed that
      was not saved, no switch is interrupted by another, and no thread is on two cores. */
  lemma NeverOnTwoCores(n: nat, steps: seq<Step>, c: nat, d: nat, t: Thread)
    requires c < n && d < n
    ensures
      var s := Run(Init(n), steps);
      && |s.cores| == n && !s.corrupt
      && (Holds(s.cores[c], t) && Holds(s.cores[d], t) ==> c == d)
  {
    InitInv(n);
    RunKeepsInv(Init(n), steps);
    var s := Run(Init(n), steps);
    hide Run, Init;
    var places :| Placed(s, places);
    assert CoreOk(s, places, c) && CoreOk(s, places, d);
  }

  /** Over every run: the context a core is about to resume is in its save area, and so is the one it leaves;
      a thread that executes is not in its save area. */
  lemma ResumedContextsWereSaved(n: nat, steps: seq<Step>, c: nat)
    requires c < |Run(Init(n), steps).cores|
    ensures
      var s := Run(Init(n), steps);
      match s.cores[c]
      case Core(next, Saved(me, _)) => next in s.saved && me in s.saved
      case Core(_, Loaded(me, _)) => me in s.saved
      case Core(_, Running) => s.cores[c].active !in s.saved
      case _ => true
  {
    InitInv(n);
    RunKeepsInv(Init(n), steps);
    var s := Run(Init(n), steps);
    hide Run, Init;
    var places :| Placed(s, places);
    assert CoreOk(s, places, c);
  }

  /** A thread in a queue has its registers saved, is on no core and may be preempted once it runs;
      its one `next` field serves one queue, in one position. */
  lemma QueuedOnlyOnceAndSaved(n: nat, steps: seq<Step>, q: QueueId, i: nat)
    requires i < |Run(Init(n), steps).Queue(q)|
    ensures
      var s := Run(Init(n), steps);
      var t := s.Queue(q)[i];
      && t.User? && t in s.saved && t !in s.noPreempt
      && (forall p, j :: 0 <= j < |s.Queue(p)| && s.Queue(p)[j] == t ==> p == q && j == i)
      && (forall c :: 0 <= c < |s.cores| ==> !Holds(s.cores[c], t))
      && (forall h :: h in s.hand ==> s.hand[h] != t)
  {
    InitInv(n);
    RunKeepsInv(Init(n), steps);
    var s := Run(Init(n), steps);
    hide Run, Init;
    var places :| Placed(s, places);
    var t := s.Queue(q)[i];
    assert QueueOk(s, places, q) && t in s.Queue(q);
    forall p, j | 0 <= j < |s.Queue(p)| && s.Queue(p)[j] == t
      ensures p == q && j == i
    {
      assert QueueOk(s, places, p) && t in s.Queue(p);
      assert p == q;
      assert Distinct(s.Queue(q));
    }
    forall c | 0 <= c < |s.cores|
      ensures !Holds(s.cores[c], t)
    {
      assert CoreOk(s, places, c);
    }
    forall h | h in s.hand
      ensures s.hand[h] != t
    {
      assert HandOk(s, places, h);
    }
  }

  /** Idle threads stay on their own cores. */
  lemma IdleThreadsDoNotHop(n: nat, steps: seq<Step>, c: nat, t: Thread)
    requires c < n
    ensures
      var s := Run(Init(n), steps);
      |s.cores| == n && (Holds(s.cores[c], t) && t.Idle? ==> t == Idle(c))
  {
    InitInv(n);
    RunKeepsInv(Init(n), steps);
    var s := Run(Init(n), steps);
    hide Run, Init;
    var places :| Placed(s, places);
    assert CoreOk(s, places, c);
  }

  /** A thread made and not yet deleted is on a core, in a queue, or on its way to one. */
  lemma NoThreadIsLost(n: nat, steps: seq<Step>, t: Thread)
    requires t in Run(Init(n), steps).made && t !in Run(Init(n), steps).dead
    ensures
      var s := Run(Init(n), steps);
      || (exists c :: 0 <= c < |s.cores| && Holds(s.cores[c], t))
      || (exists q :: t in s.Queue(q))
      || (exists h :: h in s.hand && s.hand[h] == t)
  {
    InitInv(n);
    RunKeepsInv(Init(n), steps);
    var s := Run(Init(n), steps);
    hide Run, Init;
    var places :| Placed(s, places);
    assert PlaceOk(s, places, t);
  }

  // ---------- order of service ----------

  /** The queue a step takes a thread from, if it takes one. */
  predicate TakesFrom(step: Step, q: QueueId) {
    match step
    case TakeNext(_) => q == Ready
    case TakeWaiter(_, id) => q == Wait(id)
    case Reap(_) => q == Zombies
    case _ => false
  }

  /** What a step of the right kind takes from the head of a queue, and what it adds to its end. */
  function TakenBy(s: State, step: Step, q: QueueId): seq<Thread> {
    if TakesFrom(step, q) && |Apply(s, step).Queue(q)| < |s.Queue(q)| then s.Queue(q)[..1] else []
  }

  function AddedBy(s: State, step: Step, q: QueueId): seq<Thread> {
    if |s.Queue(q)| < |Apply(s, step).Queue(q)| then Apply(s, step).Queue(q)[|s.Queue(q)|..] else []
  }

  /** All of them in a run, in order. */
  function Taken(s: State, steps: seq<Step>, q: QueueId): seq<Thread>
    decreases steps
  {
    if steps == [] then [] else TakenBy(s, steps[0], q) + Taken(Apply(s, steps[0]), steps[1..], q)
  }

  function Added(s: State, steps: seq<Step>, q: QueueId): seq<Thread>
    decreases steps
  {
    if steps == [] then [] else AddedBy(s, steps[0], q) + Added(Apply(s, steps[0]), steps[1..], q)
  }

  lemma TakerIsServed(s: State, step: Step)
    requires TakenBy(s, step, Ready) != []
    ensures
      var s', t := Apply(s, step), TakenBy(s, step, Ready)[0];
      step.TakeNext? && step.c < |s'.cores| && s'.cores[step.c].phase.Chosen? && s'.cores[step.c].phase.next == t
  {
  }

  lemma StepIsFifo(s: State, step: Step, q: QueueId)
    ensures s.Queue(q) + AddedBy(s, step, q) == TakenBy(s, step, q) + Apply(s, step).Queue(q)
  {
    if step.c < |s.cores| {
      match step
      case Publish(_) => JoinIsFifo(s, step, q);
      case Schedule(_) => JoinIsFifo(s, step, q);
      case TakeNext(_) => NextIsTaken(s, step, q);
      case TakeWaiter(_, _) => HeadIsTaken(s, step, q);
      case Reap(_) => HeadIsTaken(s, step, q);
      case _ => OtherSteps(s, step);
    }
  }

  lemma JoinIsFifo(s: State, step: Step, q: QueueId)
    requires step.c < |s.cores| && (step.Publish? || step.Schedule?)
    ensures s.Queue(q) + AddedBy(s, step, q) == TakenBy(s, step, q) + Apply(s, step).Queue(q)
  {
  }

  lemma NextIsTaken(s: State, step: Step, q: QueueId)
    requires step.c < |s.cores| && step.TakeNext?
    ensures s.Queue(q) + AddedBy(s, step, q) == TakenBy(s, step, q) + Apply(s, step).Queue(q)
  {
    assert s.Queue(q) != [] ==> s.Queue(q) == [s.Queue(q)[0]] + s.Queue(q)[1..];
  }

  lemma HeadIsTaken(s: State, step: Step, q: QueueId)
    requires step.c < |s.cores| && (step.TakeWaiter? || step.Reap?)
    ensures s.Queue(q) + AddedBy(s, step, q) == TakenBy(s, step, q) + Apply(s, step).Queue(q)
  {
    assert s.Queue(q) != [] ==> s.Queue(q) == [s.Queue(q)[0]] + s.Queue(q)[1..];
  }

  /** Every queue is served in order, over any run from any state: what was in it and what was added since is
      what was taken from it and what is in it now. */
  lemma {:induction false} QueuesAreFifo(s: State, steps: seq<Step>, q: QueueId)
    ensures s.Queue(q) + Added(s, steps, q) == Taken(s, steps, q) + Run(s, steps).Queue(q)
    decreases steps
  {
    if steps != [] {
      var s1 := Apply(s, steps[0]);
      StepIsFifo(s, steps[0], q);
      QueuesAreFifo(s1, steps[1..], q);
      hide Apply, AddedBy, TakenBy;
      Reassociate(s.Queue(q), AddedBy(s, steps[0], q), Added(s1, steps[1..], q),
                  TakenBy(s, steps[0], q), s1.Queue(q), Taken(s1, steps[1..], q), Run(s1, steps[1..]).Queue(q));
    }
  }

  lemma Reassociate(q0: seq<Thread>, a0: seq<Thread>, a1: seq<Thread>, t0: seq<Thread>, q1: seq<Thread>, t1: seq<Thread>, q2: seq<Thread>)
    requires q0 + a0 == t0 + q1 && q1 + a1 == t1 + q2
    ensures q0 + (a0 + a1) == (t0 + t1) + q2
  {
    assert q0 + (a0 + a1) == (q0 + a0) + a1 == t0 + (q1 + a1) == (t0 + t1) + q2;
  }

  /** So the thread at position `i` of the ready queue is the (i+1)-th that any core takes from it; until then
      it moves up by one place for each that is taken. */
  lemma ReadyThreadsAreServedInTurn(s: State, steps: seq<Step>, i: nat)
    requires i < |s.Queue(Ready)|
    ensures
      var taken, later := |Taken(s, steps, Ready)|, Run(s, steps).Queue(Ready);
      if i < taken then Taken(s, steps, Ready)[i] == s.Queue(Ready)[i]
      else i - taken < |later| && later[i - taken] == s.Queue(Ready)[i]
  {
    QueuesAreFifo(s, steps, Ready);
    hide Run, Taken, Added;
    var was, added := s.Queue(Ready), Added(s, steps, Ready);
    assert (was + added)[i] == was[i];
  }

  // ---------- who goes where ----------

  /** A thread that started to block on a core, and the queue it asked to be added to. */
  datatype Errand = NoErrand | Errand(thread: Thread, queue: QueueId)

  /** A step that starts to block is the errand's origin: the queue is the one named by the call of `block`,
      and the ready queue for a thread that the timer made yield. */
  function ErrandAfter(s: State, step: Step, c: nat, e: Errand): Errand {
    if step.c == c < |s.cores| && |Apply(s, step).cores| == |s.cores|
       && s.cores[c].phase == Running && Apply(s, step).cores[c].phase != Running
    then Errand(s.cores[c].active, if step.EnterBlock? then step.handler else Ready)
    else e
  }

  /** The last one on core `c` in a run. */
  function LastErrand(s: State, steps: seq<Step>, c: nat, e: Errand): Errand
    decreases steps
  {
    if steps == [] then e else LastErrand(Apply(s, steps[0]), steps[1..], c, ErrandAfter(s, steps[0], c, e))
  }

  /** The errand that a core's phase stands for. */
  predicate OnErrand(core: Core, e: Errand) {
    match core
    case Core(_, Running) => true
    case Core(t, Blocking(_, q)) => e == Errand(t, q)
    case Core(t, Chosen(_, q)) => e == Errand(t, q)
    case Core(t, Flagged(_, q)) => e == Errand(t, q)
    case Core(_, Switching(t, q)) => e == Errand(t, q)
    case Core(_, Saved(t, q)) => e == Errand(t, q)
    case Core(_, Loaded(t, q)) => e == Errand(t, q)
  }

  lemma StepErrand(s: State, step: Step, c: nat, e: Errand)
    requires Inv(s) && c < |s.cores| && OnErrand(s.cores[c], e)
    ensures |Apply(s, step).cores| == |s.cores| && OnErrand(Apply(s, step).cores[c], ErrandAfter(s, step, c, e))
  {
    var places :| Placed(s, places);
    StepKeepsInv(s, step);
    assert CoreOk(s, places, c);
    hide Placed;
    if step.c != c { CoresKept(s, step, c); }
    else if Starts(step) { StartErrand(s, places, step, e); }
    else { LaterErrand(s, step, e); }
  }

  lemma StartErrand(s: State, places: Places, step: Step, e: Errand)
    requires step.c < |s.cores| && CoreOk(s, places, step.c) && OnErrand(s.cores[step.c], e) && Starts(step)
    requires |Apply(s, step).cores| == |s.cores|
    ensures OnErrand(Apply(s, step).cores[step.c], ErrandAfter(s, step, step.c, e))
  {
  }

  lemma LaterErrand(s: State, step: Step, e: Errand)
    requires step.c < |s.cores| && OnErrand(s.cores[step.c], e) && !Starts(step)
    requires |Apply(s, step).cores| == |s.cores|
    ensures OnErrand(Apply(s, step).cores[step.c], ErrandAfter(s, step, step.c, e))
  {
  }

  lemma {:induction false} RunErrand(s: State, steps: seq<Step>, c: nat, e: Errand)
    requires Inv(s) && c < |s.cores| && OnErrand(s.cores[c], e)
    ensures |Run(s, steps).cores| == |s.cores| && OnErrand(Run(s, steps).cores[c], LastErrand(s, steps, c, e))
    decreases steps
  {
    hide Inv, Apply, OnErrand, ErrandAfter;
    if steps != [] {
      StepErrand(s, steps[0], c, e);
      StepKeepsInv(s, steps[0]);
      RunErrand(Apply(s, steps[0]), steps[1..], c, ErrandAfter(s, steps[0], c, e));
    }
  }

  /** Over every run: a thread that blocks ends up at the end of the queue that its own call of `block` named, or
      of the ready queue when the timer made it yield, and in no other; an idle thread in none. */
  lemma BlockedThreadsGoWhereAsked(n: nat, steps: seq<Step>, c: nat)
    requires c < n && c < |Run(Init(n), steps).cores| && Run(Init(n), steps).cores[c].phase.Loaded?
    ensures
      var s, e := Run(Init(n), steps), LastErrand(Init(n), steps, c, NoErrand);
      var s' := Apply(s, Publish(c));
      && e.Errand? && s'.cores == s.cores[c := Core(s.cores[c].active, Running)]
      && forall q :: s'.Queue(q) == if q == e.queue && e.thread.User? then s.Queue(q) + [e.thread] else s.Queue(q)
  {
    InitInv(n);
    RunErrand(Init(n), steps, c, NoErrand);
  }

  /** A running thread that calls `block` starts at once, unless it is about to make another ready. */
  lemma BlockStarts(s: State, c: nat, option: BlockOption, q: QueueId)
    requires c < |s.cores| && s.cores[c].phase == Running && s.cores[c].active !in s.hand && s.cores[c].active.User?
    ensures
      var s' := Apply(s, EnterBlock(c, option, q));
      && s'.cores == s.cores[c := s'.cores[c]] && s'.cores[c].active == s.cores[c].active && s'.cores[c].phase.Blocking?
      && s'.cores[c].phase.option == option && s.cores[c].active in s'.noPreempt && s'.queues == s.queues
  {
  }

  /** In every reachable state a timer tick acts exactly on a thread that runs, is not idle and has its flag
      clear; and then it makes it yield. */
  lemma TicksPreemptExactly(n: nat, steps: seq<Step>, c: nat)
    requires c < n && c < |Run(Init(n), steps).cores|
    ensures
      var s := Run(Init(n), steps);
      var s', me := Apply(s, Timer(c)), s.cores[c].active;
      && (s' != s <==> s.cores[c].phase == Running && me.User? && me !in s.noPreempt)
      && (s' != s ==> s' == Apply(s, EnterBlock(c, CanReturn, Ready)) || me in s.hand)
      && (s' != s ==> s'.queues == s.queues && me in s'.noPreempt && s'.cores[c].phase.Blocking?)
  {
    InitInv(n);
    RunKeepsInv(Init(n), steps);
    var s := Run(Init(n), steps);
    hide Run, Init;
    var places :| Placed(s, places);
    assert CoreOk(s, places, c);
  }

  /** The thread that a step puts into the hands of `h`: the first of the waiting queue named, or the one made. */
  function GiftAfter(s: State, step: Step, h: Thread, g: Thread): Thread {
    if h !in s.hand && h in Apply(s, step).hand then
      match step
      case TakeWaiter(_, id) => if s.Queue(Wait(id)) == [] then g else s.Queue(Wait(id))[0]
      case Create(_, id) => User(id)
      case _ => g
    else g
  }

  function LastGift(s: State, steps: seq<Step>, h: Thread, g: Thread): Thread
    decreases steps
  {
    if steps == [] then g else LastGift(Apply(s, steps[0]), steps[1..], h, GiftAfter(s, steps[0], h, g))
  }

  predicate Holding(s: State, h: Thread, g: Thread) {
    h in s.hand ==> s.hand[h] == g
  }

  lemma StepGift(s: State, step: Step, h: Thread, g: Thread)
    requires Holding(s, h, g)
    ensures Holding(Apply(s, step), h, GiftAfter(s, step, h, g))
  {
    if step.c < |s.cores| {
      match step
      case TakeWaiter(_, _) =>
      case Create(_, _) =>
      case Schedule(_) =>
      case _ => HandsKept(s, step);
    }
  }

  lemma {:induction false} RunGift(s: State, steps: seq<Step>, h: Thread, g: Thread)
    requires Holding(s, h, g)
    ensures Holding(Run(s, steps), h, LastGift(s, steps, h, g))
    decreases steps
  {
    hide Apply, Holding, GiftAfter;
    if steps != [] {
      StepGift(s, steps[0], h, g);
      RunGift(Apply(s, steps[0]), steps[1..], h, GiftAfter(s, steps[0], h, g));
    }
  }

  /** Over every run: `schedule` puts at the end of the ready queue just the thread that its caller last took
      from a waiting queue, or made. */
  lemma WokenThreadsBecomeReady(n: nat, steps: seq<Step>, c: nat, g: Thread)
    requires
      var s := Run(Init(n), steps);
      c < |s.cores| && s.cores[c].phase == Running && s.cores[c].active in s.hand
    ensures
      var s := Run(Init(n), steps);
      var s', me := Apply(s, Schedule(c)), s.cores[c].active;
      && s'.cores == s.cores && me !in s'.hand
      && forall q :: s'.Queue(q) == if q == Ready then s.Queue(q) + [LastGift(Init(n), steps, me, g)] else s.Queue(q)
  {
    var me := Run(Init(n), steps).cores[c].active;
    RunGift(Init(n), steps, me, g);
  }

  /** Over every run: the threads deleted are those taken from the zombies. */
  lemma {:induction false} DeletedThreadsWereZombies(s: State, steps: seq<Step>)
    ensures forall t :: t in Run(s, steps).dead <==> t in s.dead || t in Taken(s, steps, Zombies)
    decreases steps
  {
    if steps != [] {
      StepDeletes(s, steps[0]);
      DeletedThreadsWereZombies(Apply(s, steps[0]), steps[1..]);
      hide Apply, TakenBy;
    }
  }

  lemma StepDeletes(s: State, step: Step)
    ensures forall t :: t in Apply(s, step).dead <==> t in s.dead || t in TakenBy(s, step, Zombies)
    ensures forall t :: t in TakenBy(s, step, Zombies) ==> t !in Apply(s, step).saved
  {
  }

  // ---------- preemption ----------

  /** The thread the core is running keeps its flag, so timer ticks pass it over. */
  predicate Unpreemptible(s: State, c: nat)
    requires c < |s.cores|
  {
    s.cores[c].phase == Running && s.cores[c].active in s.noPreempt
  }

  /** The step finds nothing ready for a thread that yields on core `c`. */
  predicate YieldsInVain(s: State, c: nat, step: Step)
    requires c < |s.cores|
  {
    step == TakeNext(c) && s.cores[c].phase.Blocking? && s.cores[c].phase.option == CanReturn && s.Queue(Ready) == []
  }

  /** When the core runs on unpreemptibly after a step: the step was a yield in vain, or it ran so
      before and did not start to block. */
  predicate FlagEffect(s: State, s': State, c: nat, step: Step)
    requires c < |s.cores| == |s'.cores|
  {
    Unpreemptible(s', c) <==> YieldsInVain(s, c, step) || (Unpreemptible(s, c) && s'.cores[c] == s.cores[c])
  }

  lemma FlagHere(s: State, places: Places, step: Step)
    requires step.c < |s.cores| && CoreOk(s, places, step.c)
    requires |Apply(s, step).cores| == |s.cores|
    ensures FlagEffect(s, Apply(s, step), step.c, step)
  {
    if Starts(step) { FlagAtStart(s, places, step); } else { FlagLater(s, places, step); }
    hide Apply, CoreOk, FlagEffect;
  }

  lemma FlagAtStart(s: State, places: Places, step: Step)
    requires step.c < |s.cores| && CoreOk(s, places, step.c) && Starts(step)
    requires |Apply(s, step).cores| == |s.cores|
    ensures FlagEffect(s, Apply(s, step), step.c, step)
  {
  }

  lemma FlagLater(s: State, places: Places, step: Step)
    requires step.c < |s.cores| && CoreOk(s, places, step.c) && !Starts(step)
    requires |Apply(s, step).cores| == |s.cores|
    ensures FlagEffect(s, Apply(s, step), step.c, step)
  {
  }

  lemma FlagElsewhere(s: State, places: Places, step: Step, c: nat)
    requires Placed(s, places) && c < |s.cores| && step.c != c
    ensures |Apply(s, step).cores| == |s.cores| && FlagEffect(s, Apply(s, step), c, step)
  {
    if step.c < |s.cores| {
      var t := s.cores[c].active;
      assert CoreOk(s, places, step.c) && CoreOk(s, places, c);
      CoresKept(s, step, c);
      if MoveOf(s, step) != Stay {
        MoverComesFrom(s, places, step);
      }
      ThreadKept(s, places, step, t);
    }
  }

  lemma StepFlag(s: State, step: Step, c: nat)
    requires Inv(s) && c < |s.cores|
    ensures |Apply(s, step).cores| == |s.cores| && FlagEffect(s, Apply(s, step), c, step)
  {
    var places :| Placed(s, places);
    StepKeepsInv(s, step);
    assert CoreOk(s, places, c);
    hide Apply, CoreOk, Placed, FlagEffect;
    if step.c == c { FlagHere(s, places, step); } else { FlagElsewhere(s, places, step, c); }
  }

  /** In every reachable state and for every step: a core comes to run a thread with its flag set
      exactly when the thread had yielded, `block` could return, and nothing was ready; and it goes
      on like that exactly as long as it does not block. */
  lemma FlagStaysExactly(n: nat, steps: seq<Step>, step: Step, c: nat)
    requires c < n
    ensures
      var s := Run(Init(n), steps);
      && |s.cores| == |Apply(s, step).cores| == n
      && (Unpreemptible(Apply(s, step), c) <==>
          YieldsInVain(s, c, step) || (Unpreemptible(s, c) && Apply(s, step).cores[c] == s.cores[c]))
  {
    InitInv(n);
    RunKeepsInv(Init(n), steps);
    var s := Run(Init(n), steps);
    hide Run, Init, Apply;
    StepFlag(s, step, c);
  }

  lemma {:induction false} RunAppend(s: State, steps: seq<Step>, more: seq<Step>)
    ensures Run(s, steps + more) == Run(Run(s, steps), more)
    decreases steps
  {
    hide Apply;
    if steps == [] {
      assert steps + more == more;
    } else {
      assert (steps + more)[1..] == steps[1..] + more;
      RunAppend(Apply(s, steps[0]), steps[1..], more);
    }
  }

  /** The run's step `k` was a yield in vain on core `c`, on which nothing has changed since. */
  ghost predicate InVainSince(n: nat, steps: seq<Step>, c: nat, k: int) {
    && 0 <= k < |steps| && c < |Run(Init(n), steps[..k]).cores|
    && YieldsInVain(Run(Init(n), steps[..k]), c, steps[k])
    && forall j :: k < j <= |steps| ==> SameCore(Run(Init(n), steps[..j]), Run(Init(n), steps), c)
  }

  predicate SameCore(s: State, s': State, c: nat) {
    c < |s.cores| && c < |s'.cores| && s.cores[c] == s'.cores[c]
  }

  lemma InVainLonger(n: nat, steps: seq<Step>, x: Step, c: nat, k: int)
    requires 0 <= k < |steps|
    requires c < |Run(Init(n), steps).cores| && SameCore(Run(Init(n), steps), Run(Init(n), steps + [x]), c)
    ensures InVainSince(n, steps, c, k) <==> InVainSince(n, steps + [x], c, k)
  {
    hide Run, Init, YieldsInVain;
    var all := steps + [x];
    assert forall j :: 0 <= j <= |steps| ==> all[..j] == steps[..j];
    assert all[..|all|] == all && steps[..|steps|] == steps;
    if InVainSince(n, steps, c, k) {
      forall j | k < j <= |all|
        ensures SameCore(Run(Init(n), all[..j]), Run(Init(n), all), c)
      {
        if j <= |steps| { assert SameCore(Run(Init(n), steps[..j]), Run(Init(n), steps), c); }
      }
    }
    if InVainSince(n, all, c, k) {
      forall j | k < j <= |steps|
        ensures SameCore(Run(Init(n), steps[..j]), Run(Init(n), steps), c)
      {
        assert SameCore(Run(Init(n), all[..j]), Run(Init(n), all), c);
      }
    }
  }

  /** Over every run: a thread runs on with its flag set if and only if the last thing that
      happened on its core was a yield in vain. */
  lemma {:induction false} UnpreemptibleExactly(n: nat, steps: seq<Step>, c: nat)
    requires c < n
    ensures |Run(Init(n), steps).cores| == n
    ensures Unpreemptible(Run(Init(n), steps), c) <==> exists k :: InVainSince(n, steps, c, k)
    decreases |steps|
  {
    if steps != [] {
      var last := |steps| - 1;
      var init, x := steps[..last], steps[last];
      UnpreemptibleExactly(n, init, c);
      FlagStaysExactly(n, init, x, c);
      RunAppend(Init(n), init, [x]);
      assert Run(Run(Init(n), init), [x]) == Apply(Run(Init(n), init), x);
      assert steps == init + [x] && steps[..|steps|] == steps;
      hide Run, Init, Apply, YieldsInVain, Unpreemptible;
      LastInVain(n, init, x, c);
    }
  }

  /** One more step extends the condition as it extends the flag. */
  lemma LastInVain(n: nat, steps: seq<Step>, x: Step, c: nat)
    requires c < |Run(Init(n), steps).cores| && c < |Run(Init(n), steps + [x]).cores|
    ensures (exists k :: InVainSince(n, steps + [x], c, k)) <==>
      || YieldsInVain(Run(Init(n), steps), c, x)
      || ((exists k :: InVainSince(n, steps, c, k)) && SameCore(Run(Init(n), steps), Run(Init(n), steps + [x]), c))
  {
    hide Run, Init, YieldsInVain;
    var all := steps + [x];
    assert all[..|steps|] == steps && all[|steps|] == x && all[..|all|] == all;
    if k :| InVainSince(n, all, c, k) {
      if k < |steps| {
        assert SameCore(Run(Init(n), all[..|steps|]), Run(Init(n), all), c);
        InVainLonger(n, steps, x, c, k);
      }
    }
    if YieldsInVain(Run(Init(n), steps), c, x) {
      assert InVainSince(n, all, c, |steps|);
    } else if k :| InVainSince(n, steps, c, k) && SameCore(Run(Init(n), steps), Run(Init(n), all), c) {
      InVainLonger(n, steps, x, c, k);
    }
  }

  /** The states of a run on one core with one thread. */
  function Alone(core: Core, queues: map<QueueId, seq<Thread>>, hand: map<Thread, Thread>,
                 flags: set<Thread>, saved: set<Thread>): State {
    State([core], queues, hand, flags, saved, {User(0)}, {}, false)
  }

  const LEFT: map<QueueId, seq<Thread>> := map[Ready := []]

  lemma ThreadMade()
    ensures Apply(Apply(Init(1), Create(0, 0)), Schedule(0))
         == Alone(Core(Idle(0), Running), map[Ready := [User(0)]], map[], {}, {User(0)})
  {
    var s := Apply(Init(1), Create(0, 0));
    assert s == Alone(Core(Idle(0), Running), map[], map[Idle(0) := User(0)], {}, {User(0)});
    assert s.hand - {Idle(0)} == map[];
    assert s.Queue(Ready) + [User(0)] == [User(0)];
  }

  lemma SwitchStarts()
    ensures Apply(Apply(Alone(Core(Idle(0), Running), map[Ready := [User(0)]], map[], {}, {User(0)}),
                        EnterBlock(0, MustBlock, Ready)), TakeNext(0))
         == Alone(Core(Idle(0), Chosen(User(0), Ready)), LEFT, map[], {Idle(0)}, {User(0)})
  {
    var s := Apply(Alone(Core(Idle(0), Running), map[Ready := [User(0)]], map[], {}, {User(0)}), EnterBlock(0, MustBlock, Ready));
    assert s == Alone(Core(Idle(0), Blocking(MustBlock, Ready)), map[Ready := [User(0)]], map[], {Idle(0)}, {User(0)});
    assert s.Queue(Ready)[1..] == [];
    assert s.queues[Ready := []] == LEFT;
  }

  lemma SwitchGoesOn()
    ensures Apply(Apply(Alone(Core(Idle(0), Chosen(User(0), Ready)), LEFT, map[], {Idle(0)}, {User(0)}), FlagNext(0)), SetActive(0))
         == Alone(Core(User(0), Switching(Idle(0), Ready)), LEFT, map[], {Idle(0), User(0)}, {User(0)})
  {
  }

  lemma SwitchEnds()
    ensures Apply(Apply(Apply(Alone(Core(User(0), Switching(Idle(0), Ready)), LEFT, map[], {Idle(0), User(0)}, {User(0)}),
                              SaveRegisters(0)), LoadRegisters(0)), Publish(0))
         == Alone(Core(User(0), Running), LEFT, map[], {}, {Idle(0)})
  {
    var s := Apply(Alone(Core(User(0), Switching(Idle(0), Ready)), LEFT, map[], {Idle(0), User(0)}, {User(0)}), SaveRegisters(0));
    assert s == Alone(Core(User(0), Saved(Idle(0), Ready)), LEFT, map[], {Idle(0), User(0)}, {Idle(0), User(0)});
    assert Apply(s, LoadRegisters(0)) == Alone(Core(User(0), Loaded(Idle(0), Ready)), LEFT, map[], {}, {Idle(0)});
  }

  lemma YieldReturns()
    ensures Apply(Apply(Alone(Core(User(0), Running), LEFT, map[], {}, {Idle(0)}), EnterBlock(0, CanReturn, Ready)), TakeNext(0))
         == Alone(Core(User(0), Running), LEFT, map[], {User(0)}, {Idle(0)})
  {
    var s := Apply(Alone(Core(User(0), Running), LEFT, map[], {}, {Idle(0)}), EnterBlock(0, CanReturn, Ready));
    assert s == Alone(Core(User(0), Blocking(CanReturn, Ready)), LEFT, map[], {User(0)}, {Idle(0)});
  }

  lemma RunTwo(s: State, a: Step, b: Step)
    ensures Run(s, [a, b]) == Apply(Apply(s, a), b)
  {
    hide Apply;
    assert [a, b][1..] == [b] && [b][1..] == [];
    assert Run(Apply(s, a), [b]) == Run(Apply(Apply(s, a), b), []);
  }

  lemma RunThree(s: State, a: Step, b: Step, c: Step)
    ensures Run(s, [a, b, c]) == Apply(Apply(Apply(s, a), b), c)
  {
    hide Apply;
    assert [a, b, c][1..] == [b, c];
    RunTwo(Apply(s, a), b, c);
  }

  lemma FiveStages(s: State, a: seq<Step>, b: seq<Step>, c: seq<Step>, d: seq<Step>, e: seq<Step>)
    ensures Run(s, a + (b + (c + (d + e)))) == Run(Run(Run(Run(Run(s, a), b), c), d), e)
  {
    RunAppend(s, a, b + (c + (d + e)));
    RunAppend(Run(s, a), b, c + (d + e));
    RunAppend(Run(Run(s, a), b), c, d + e);
    RunAppend(Run(Run(Run(s, a), b), c), d, e);
  }

  lemma FiveStagesEnd()
    ensures Run(Run(Run(Run(Run(Init(1),
      [Create(0, 0), Schedule(0)]), [EnterBlock(0, MustBlock, Ready), TakeNext(0)]), [FlagNext(0), SetActive(0)]),
      [SaveRegisters(0), LoadRegisters(0), Publish(0)]), [EnterBlock(0, CanReturn, Ready), TakeNext(0)])
      == Alone(Core(User(0), Running), LEFT, map[], {User(0)}, {Idle(0)})
  {
    hide Run, Apply, Init, Alone;
    var s := Init(1);
    RunTwo(s, Create(0, 0), Schedule(0));
    ThreadMade();
    s := Alone(Core(Idle(0), Running), map[Ready := [User(0)]], map[], {}, {User(0)});
    RunTwo(s, EnterBlock(0, MustBlock, Ready), TakeNext(0));
    SwitchStarts();
    s := Alone(Core(Idle(0), Chosen(User(0), Ready)), LEFT, map[], {Idle(0)}, {User(0)});
    RunTwo(s, FlagNext(0), SetActive(0));
    SwitchGoesOn();
    s := Alone(Core(User(0), Switching(Idle(0), Ready)), LEFT, map[], {Idle(0), User(0)}, {User(0)});
    RunThree(s, SaveRegisters(0), LoadRegisters(0), Publish(0));
    SwitchEnds();
    s := Alone(Core(User(0), Running), LEFT, map[], {}, {Idle(0)});
    RunTwo(s, EnterBlock(0, CanReturn, Ready), TakeNext(0));
    YieldReturns();
  }

  lemma TickPasses(s: State)
    requires s == Alone(Core(User(0), Running), LEFT, map[], {User(0)}, {Idle(0)})
    ensures s.cores == [Core(User(0), Running)] && Unpreemptible(s, 0) && Apply(s, Timer(0)) == s
  {
  }

  /** A run that breaks the promise that the flag is clear outside `block`: one core makes a thread
      and switches to it; with nothing else ready it yields, goes on, and ticks pass it over. */
  lemma YieldInVainStopsPreemption() returns (steps: seq<Step>)
    ensures
      var s := Run(Init(1), steps);
      && s.cores == [Core(User(0), Running)] && Unpreemptible(s, 0) && Apply(s, Timer(0)) == s
  {
    var made := [Create(0, 0), Schedule(0)];
    var start := [EnterBlock(0, MustBlock, Ready), TakeNext(0)];
    var middle := [FlagNext(0), SetActive(0)];
    var end := [SaveRegisters(0), LoadRegisters(0), Publish(0)];
    var again := [EnterBlock(0, CanReturn, Ready), TakeNext(0)];
    steps := made + (start + (middle + (end + again)));
    FiveStages(Init(1), made, start, middle, end, again);
    FiveStagesEnd();
    var s := Alone(Core(User(0), Running), LEFT, map[], {User(0)}, {Idle(0)});
    TickPasses(s);
    hide Run, Init, Apply;
  }
}
