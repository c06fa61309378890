/**
  The stop-the-world handshake of tinygc.c in its pthread form, as a state
  machine whose steps are the single reads and writes of shared flags: the
  collector's GC_mutator_suspend and GC_mutator_resume, and every thread's
  GC_suspend_handler.  Threads register, unregister, lock, go inactive and die
  in between; signals arrive late; a round may begin while threads are still on
  their way out of the previous one.  A handler is taken to find its own thread
  in one step: the code walks the thread table there without the lock, and the
  walk is not modelled.
*/
module Handshake {
  import opened Options

  type ThreadId = nat

  // Where a thread is: in its own code, or at a point of GC_suspend_handler.
  datatype Pc =
    | Mutator
    | Entered   // before the test of cur_stack and inactive
    | LoopTop   // before suspend_ack = 0
    | LoopTest  // before the test of GC_inside_collect
    | Leaving

  // ack and inactive are fields of the thread's stkroot, saved is the stack end
  // the handler writes there; sp is the thread's stack pointer; signalled says
  // that GC_SIG_SUSPEND is pending for it.
  datatype Thread = Thread(alive: bool, sp: nat, saved: nat, ack: bool, inactive: bool, signalled: bool, pc: Pc) {
    predicate InLoop() {
      pc == LoopTop || pc == LoopTest
    }
  }

  // The collector's place in GC_mutator_suspend; todo is the part of the thread
  // table still to be visited, armed the thread between the two writes.
  datatype Phase =
    | Idle
    | Signalling(todo: set<ThreadId>, armed: Option<ThreadId>)
    | Waiting(todo: set<ThreadId>)
    | Stopped

  // threads is stkroot_htable, cur is cur_stack, inside is GC_inside_collect,
  // holder owns GC_allocate_ml.
  datatype State = State(threads: map<ThreadId, Thread>, cur: Option<ThreadId>, inside: bool, holder: Option<ThreadId>, phase: Phase) {
    // t runs its own code, that is, it is not in the handler; an unregistered
    // thread always does.
    predicate Running(t: ThreadId) {
      t in threads ==> threads[t].alive && threads[t].pc == Mutator
    }

    // The collecting thread can take its next step.
    predicate Collecting(p: Phase) {
      phase == p && holder.Some? && Running(holder.value)
    }

    // t owns the lock, and no collection is under way.
    predicate Owns(t: ThreadId) {
      phase == Idle && holder == Some(t) && Running(t)
    }

    // The threads a collection need not stop.
    predicate Spared(t: ThreadId)
      requires t in threads
    {
      cur == Some(t) || threads[t].inactive
    }

    function With(t: ThreadId, thread: Thread): State {
      this.(threads := threads[t := thread])
    }
  }

  datatype Action =
    | Move(t: ThreadId, to: nat)
    | Exit(t: ThreadId)
    | Lock(t: ThreadId)
    | Register(t: ThreadId, sp: nat, pending: bool)
    | SetCur(t: ThreadId)
    | SetInactive(t: ThreadId, value: bool)
    | Unregister(t: ThreadId)
    | Unlock(t: ThreadId)
    | Begin
    | Skip(t: ThreadId)
    | SetAck(t: ThreadId)
    | Kill(t: ThreadId)
    | KillFails(t: ThreadId)
    | EndSignalling
    | WaitDone(t: ThreadId)
    | EndWait
    | Resume
    | Deliver(t: ThreadId)
    | Enter(t: ThreadId)
    | Ack(t: ThreadId)
    | Test(t: ThreadId)
    | Leave(t: ThreadId)

  predicate Enabled(s: State, a: Action) {
    match a
    case Move(t, _) => t in s.threads && s.Running(t)
    case Exit(t) => t in s.threads && s.Running(t) && s.holder != Some(t)
    case Lock(t) => s.holder == None && s.Running(t)
    case Register(t, _, _) => s.Owns(t) && t !in s.threads && s.cur == None
    case SetCur(t) => s.Owns(t)
    case SetInactive(t, _) => s.Owns(t) && s.cur == Some(t) && t in s.threads
    case Unregister(t) => s.Owns(t) && s.cur == Some(t)
    case Unlock(t) => s.Owns(t)
    case Begin =>
      s.Collecting(Idle) && s.cur == (if s.holder.value in s.threads then s.holder else None)
    case Skip(t) =>
      s.phase.Signalling? && s.Collecting(s.phase) && s.phase.armed == None && t in s.phase.todo && t in s.threads && s.Spared(t)
    case SetAck(t) =>
      s.phase.Signalling? && s.Collecting(s.phase) && s.phase.armed == None && t in s.phase.todo && t in s.threads && !s.Spared(t)
    case Kill(t) =>
      s.phase.Signalling? && s.Collecting(s.phase) && s.phase.armed == Some(t) && t in s.threads && s.threads[t].alive
    case KillFails(t) =>
      s.phase.Signalling? && s.Collecting(s.phase) && s.phase.armed == Some(t) && t in s.threads && !s.threads[t].alive
    case EndSignalling =>
      s.phase.Signalling? && s.Collecting(s.phase) && s.phase.armed == None && s.phase.todo == {}
    case WaitDone(t) =>
      s.phase.Waiting? && s.Collecting(s.phase) && t in s.phase.todo && t in s.threads && !s.threads[t].ack
    case EndWait =>
      s.phase.Waiting? && s.Collecting(s.phase) && s.phase.todo == {}
    case Resume => s.Collecting(Stopped)
    case Deliver(t) => t in s.threads && s.Running(t) && s.threads[t].signalled
    case Enter(t) => t in s.threads && s.threads[t].pc == Entered
    case Ack(t) => t in s.threads && s.threads[t].pc == LoopTop
    case Test(t) => t in s.threads && s.threads[t].pc == LoopTest
    case Leave(t) => t in s.threads && s.threads[t].pc == Leaving
  }

  function Next(s: State, a: Action): State
    requires Enabled(s, a)
  {
    match a
    case Move(t, to) => s.With(t, s.threads[t].(sp := to))
    case Exit(t) => s.With(t, s.threads[t].(alive := false))
    case Lock(t) => s.(holder := Some(t))
    case Register(t, sp, pending) => s.With(t, Thread(true, sp, sp, false, false, pending, Mutator))
    case SetCur(t) => s.(cur := if t in s.threads then Some(t) else None)
    case SetInactive(t, value) => s.With(t, s.threads[t].(inactive := value))
    case Unregister(t) => s.(threads := s.threads - {t}, cur := None)
    case Unlock(t) => s.(holder := None)
    // GC_inside_collect = 1, and on to the threads if there are others
    case Begin =>
      s.(inside := true,
         phase := if (if s.cur.Some? then 1 else 0) < |s.threads| then Signalling(s.threads.Keys, None) else Stopped)
    case Skip(t) => s.(phase := Signalling(s.phase.todo - {t}, None))
    case SetAck(t) => s.With(t, s.threads[t].(ack := true)).(phase := Signalling(s.phase.todo, Some(t)))
    case Kill(t) => s.With(t, s.threads[t].(signalled := true)).(phase := Signalling(s.phase.todo - {t}, None))
    case KillFails(t) => s.(threads := s.threads - {t}, phase := Signalling(s.phase.todo - {t}, None))
    case EndSignalling => s.(phase := Waiting(s.threads.Keys))
    case WaitDone(t) => s.(phase := Waiting(s.phase.todo - {t}))
    case EndWait => s.(phase := Stopped)
    case Resume => s.(inside := false, phase := Idle)
    case Deliver(t) => s.With(t, s.threads[t].(signalled := false, pc := Entered))
    case Enter(t) =>
      s.With(t, if s.Spared(t) then s.threads[t].(pc := Leaving) else s.threads[t].(saved := s.threads[t].sp, pc := LoopTop))
    case Ack(t) => s.With(t, s.threads[t].(ack := false, pc := LoopTest))
    case Test(t) => s.With(t, s.threads[t].(pc := if s.inside then LoopTop else Leaving))
    case Leave(t) => s.With(t, s.threads[t].(pc := Mutator))
  }

  // The collector has asked t to stop in this round.
  predicate Asked(s: State, t: ThreadId)
    requires t in s.threads
  {
    !s.Spared(t) &&
    match s.phase
    case Idle => false
    case Signalling(todo, armed) => t !in todo || armed == Some(t)
    case Waiting(_) => true
    case Stopped => true
  }

  predicate ThreadOk(s: State, t: ThreadId)
    requires t in s.threads
  {
    var th := s.threads[t];
    && (!th.alive ==> th.pc == Mutator)
    && (th.InLoop() ==> th.saved == th.sp)
    // only who has been asked has an acknowledgement to give
    && (th.ack ==> Asked(s, t))
    // who has given it is in the loop
    && (Asked(s, t) && !th.ack ==> th.InLoop())
    // who has not will come by the point where it is given
    && (th.ack && th.alive && !(s.phase.Signalling? && s.phase.armed == Some(t)) ==>
         th.signalled || th.pc == Entered || th.InLoop())
    && (s.phase.Waiting? && t !in s.phase.todo ==> !th.ack)
    && (s.phase == Stopped ==> !th.ack)
    // the collecting thread is not caught by its own signals
    && (s.phase != Idle && s.cur == Some(t) ==> !th.InLoop())
  }

  ghost predicate Inv(s: State) {
    && (s.phase == Idle <==> !s.inside)
    && (s.phase != Idle ==> s.holder.Some? && s.cur == (if s.holder.value in s.threads then s.holder else None))
    && (s.cur.Some? ==> s.cur.value in s.threads)
    && (s.phase.Signalling? ==> s.phase.todo <= s.threads.Keys && (s.phase.armed.Some? ==> s.phase.armed.value in s.phase.todo))
    && (s.phase.Waiting? ==> s.phase.todo <= s.threads.Keys)
    && forall t :: t in s.threads ==> ThreadOk(s, t)
  }

  // No thread has registered yet; gcdata is initialised with the first one.
  predicate Init(s: State) {
    s.threads == map[] && s.cur == None && s.holder == None && s.phase == Idle && !s.inside
  }

  lemma OnlyOne(threads: map<ThreadId, Thread>, t: ThreadId)
    requires t in threads && |threads| <= 1
    ensures forall u :: u in threads ==> u == t
  {
    forall u | u in threads ensures u == t {
      if u != t {
        assert {t, u} <= threads.Keys;
        assert |{t, u}| <= |threads.Keys| by { SubsetSize({t, u}, threads.Keys); }
      }
    }
  }

  lemma SubsetSize(a: set<ThreadId>, b: set<ThreadId>)
    requires a <= b
    ensures |a| <= |b|
  {
    assert b == a + (b - a);
  }

  // Every step of every thread keeps the protocol's invariant.
  lemma Preserved(s: State, a: Action)
    requires Inv(s) && Enabled(s, a)
    ensures Inv(Next(s, a))
  {
    hide ThreadOk;
    var s' := Next(s, a);
    forall t | t in s'.threads ensures ThreadOk(s', t) {
      ThreadPreserved(s, a, t);
    }
  }

  // Steps of GC_mutator_suspend and GC_mutator_resume.
  predicate ByCollector(a: Action) {
    a.Begin? || a.Skip? || a.SetAck? || a.Kill? || a.KillFails? || a.EndSignalling? || a.WaitDone? || a.EndWait? || a.Resume?
  }

  // Steps of GC_suspend_handler, and of the thread around it.
  predicate ByThread(a: Action) {
    a.Move? || a.Exit? || a.Deliver? || a.Enter? || a.Ack? || a.Test? || a.Leave?
  }

  lemma ThreadPreserved(s: State, a: Action, t: ThreadId)
    requires Inv(s) && Enabled(s, a) && t in Next(s, a).threads
    ensures ThreadOk(Next(s, a), t)
  {
    hide Inv, ThreadOk, Next, Enabled;
    if ByThread(a) {
      ThreadStepPreserves(s, a, t);
    } else if a == Begin {
      BeginPreserves(s, t);
    } else if ByCollector(a) {
      CollectorStepPreserves(s, a, t);
    } else {
      LockedStepPreserves(s, a, t);
    }
  }

  lemma ThreadStepPreserves(s: State, a: Action, t: ThreadId)
    requires Inv(s) && Enabled(s, a) && t in Next(s, a).threads && ByThread(a)
    ensures ThreadOk(Next(s, a), t)
  {
    assert ThreadOk(s, t);
  }

  lemma BeginPreserves(s: State, t: ThreadId)
    requires Inv(s) && Enabled(s, Begin) && t in Next(s, Begin).threads
    ensures ThreadOk(Next(s, Begin), t)
  {
    assert ThreadOk(s, t);
    if s.cur.Some? && |s.threads| <= 1 {
      OnlyOne(s.threads, s.cur.value);
    }
  }

  lemma CollectorStepPreserves(s: State, a: Action, t: ThreadId)
    requires Inv(s) && Enabled(s, a) && t in Next(s, a).threads && ByCollector(a) && a != Begin
    ensures ThreadOk(Next(s, a), t)
  {
    assert ThreadOk(s, t);
  }

  lemma LockedStepPreserves(s: State, a: Action, t: ThreadId)
    requires Inv(s) && Enabled(s, a) && t in Next(s, a).threads && !ByThread(a) && !ByCollector(a)
    ensures ThreadOk(Next(s, a), t)
  {
    if t in s.threads {
      assert ThreadOk(s, t);
    }
  }

  predicate Runs(s: State, run: seq<Action>, s': State)
    decreases |run|
  {
    if run == [] then s' == s
    else Enabled(s, run[0]) && Runs(Next(s, run[0]), run[1..], s')
  }

  lemma {:induction false} RunPreserves(s: State, run: seq<Action>, s': State)
    requires Inv(s) && Runs(s, run, s')
    ensures Inv(s')
    decreases |run|
  {
    hide Inv, Next, Enabled;
    if run != [] {
      Preserved(s, run[0]);
      RunPreserves(Next(s, run[0]), run[1..], s');
    }
  }

  // t waits in the handler's loop, and what it has published is its whole stack.
  predicate Parked(s: State, t: ThreadId)
    requires t in s.threads
  {
    s.threads[t].InLoop() && s.threads[t].saved == s.threads[t].sp
  }

  // Whatever the threads did before: past the acknowledgements every other
  // active thread is parked.
  lemma WorldStopped(s0: State, run: seq<Action>, s: State)
    requires Init(s0) && Runs(s0, run, s) && s.phase == Stopped
    ensures forall t :: t in s.threads && s.cur != Some(t) && !s.threads[t].inactive ==> Parked(s, t)
    ensures s.holder.Some? && s.cur == (if s.holder.value in s.threads then s.holder else None)
  {
    RunPreserves(s0, run, s);
    forall t | t in s.threads && s.cur != Some(t) && !s.threads[t].inactive ensures Parked(s, t) {
      assert ThreadOk(s, t);
    }
  }

  // And none of them gets away before GC_mutator_resume.
  lemma {:induction false} HeldUntilResume(s: State, run: seq<Action>, s': State)
    requires Inv(s) && s.phase == Stopped && Runs(s, run, s') && Resume !in run
    ensures Inv(s') && s'.phase == Stopped && s'.inside && s'.threads.Keys == s.threads.Keys && s'.cur == s.cur
    ensures forall t :: t in s.threads && !s.Spared(t) ==> Parked(s', t) && s'.threads[t].sp == s.threads[t].sp && !s'.Spared(t)
    decreases |run|
  {
    hide Inv, Next, Enabled, ThreadOk;
    if run == [] {
      StoppedParks(s);
    } else {
      Preserved(s, run[0]);
      assert run[0] in run;
      HeldStep(s, run[0]);
      HeldUntilResume(Next(s, run[0]), run[1..], s');
    }
  }

  lemma StoppedParks(s: State)
    requires Inv(s) && s.phase == Stopped
    ensures s.inside && forall t :: t in s.threads && !s.Spared(t) ==> Parked(s, t)
  {
    forall t | t in s.threads && !s.Spared(t) ensures Parked(s, t) {
      assert ThreadOk(s, t);
    }
  }

  lemma HeldStep(s: State, a: Action)
    requires Inv(s) && s.phase == Stopped && Enabled(s, a) && a != Resume
    ensures var s' := Next(s, a);
      && s'.phase == Stopped && s'.threads.Keys == s.threads.Keys && s'.cur == s.cur
      && forall t :: t in s.threads ==> s'.Spared(t) == s.Spared(t) && (!s.Spared(t) ==> s'.threads[t].sp == s.threads[t].sp)
  {
    forall t | t in s.threads && !s.Spared(t) ensures Parked(s, t) {
      assert ThreadOk(s, t);
    }
  }

  // How many steps of its handler t is away from acknowledging.
  function Distance(th: Thread): nat {
    match th.pc
    case LoopTop => 1
    case LoopTest => 2
    case Entered => 2
    case Mutator => 3
    case Leaving => 4
  }

  predicate HandlerStep(a: Action, t: ThreadId) {
    a == Deliver(t) || a == Enter(t) || a == Ack(t) || a == Test(t) || a == Leave(t)
  }

  // No wake-up is lost: a live thread the collector waits for has a handler
  // step to take.
  lemma CanAnswer(s: State, t: ThreadId)
    requires Inv(s) && s.phase.Waiting? && t in s.threads && s.threads[t].ack && s.threads[t].alive
    ensures exists a :: HandlerStep(a, t) && Enabled(s, a)
  {
    assert ThreadOk(s, t);
    var a := match s.threads[t].pc
      case Mutator => Deliver(t)
      case Entered => Enter(t)
      case LoopTop => Ack(t)
      case LoopTest => Test(t)
      case Leaving => Leave(t);
    assert HandlerStep(a, t) && Enabled(s, a);
  }

  function Answers(run: seq<Action>, t: ThreadId): nat {
    if run == [] then 0 else (if HandlerStep(run[0], t) then 1 else 0) + Answers(run[1..], t)
  }

  // One step: nobody else can set t back, and its own steps bring it closer.
  lemma Closer(s: State, a: Action, t: ThreadId)
    requires Inv(s) && Enabled(s, a) && (s.phase.Waiting? || s.phase == Stopped) && a != Resume && t in s.threads
    ensures var s' := Next(s, a);
      && (s'.phase.Waiting? || s'.phase == Stopped) && t in s'.threads
      && (s'.threads[t].ack ==> s.threads[t].ack)
      && (s'.threads[t].ack ==> Distance(s'.threads[t]) + Answers([a], t) <= Distance(s.threads[t]))
  {
    assert ThreadOk(s, t);
    assert Answers([a], t) == if HandlerStep(a, t) then 1 else 0 by {
      assert [a][1..] == [];
    }
  }

  // Four steps of its handler, whatever happens in between, and t has
  // acknowledged.
  lemma AnswersWithinFour(s: State, run: seq<Action>, s': State, t: ThreadId)
    requires Inv(s) && s.phase.Waiting? && t in s.threads && Runs(s, run, s') && Resume !in run
    requires Answers(run, t) >= 4
    ensures t in s'.threads && !s'.threads[t].ack
  {
    hide Inv, Next, Enabled, Answers, Runs;
    DistanceLeft(s, run, s', t);
  }

  lemma {:induction false} DistanceLeft(s: State, run: seq<Action>, s': State, t: ThreadId)
    requires Inv(s) && (s.phase.Waiting? || s.phase == Stopped) && t in s.threads && Runs(s, run, s') && Resume !in run
    ensures t in s'.threads
    ensures s'.threads[t].ack ==> s.threads[t].ack && Distance(s'.threads[t]) + Answers(run, t) <= Distance(s.threads[t])
    decreases |run|
  {
    hide Inv, Next, Enabled, Distance, HandlerStep;
    if run != [] {
      assert run[0] in run;
      Closer(s, run[0], t);
      Preserved(s, run[0]);
      assert [run[0]][1..] == [];
      DistanceLeft(Next(s, run[0]), run[1..], s', t);
    }
  }

  // The collector itself always gets back to its work.
  lemma CollectorGoesOn(s: State)
    requires Inv(s) && s.phase != Idle && s.holder.value in s.threads && s.threads[s.holder.value].alive
    ensures s.Collecting(s.phase) || Enabled(s, Enter(s.holder.value)) || Enabled(s, Leave(s.holder.value))
    ensures Enabled(s, Enter(s.holder.value)) ==> Enabled(Next(s, Enter(s.holder.value)), Leave(s.holder.value))
  {
    assert ThreadOk(s, s.holder.value);
  }

  // Once everybody has answered the wait is over after a look at each thread.
  lemma {:induction false} WaitEnds(s: State) returns (run: seq<Action>, s': State)
    requires Inv(s) && s.phase.Waiting? && s.Collecting(s.phase)
    requires forall t :: t in s.threads ==> !s.threads[t].ack
    ensures Runs(s, run, s') && Resume !in run && s'.phase == Stopped && s'.threads == s.threads
    decreases |s.phase.todo|
  {
    hide ThreadOk;
    if s.phase.todo == {} {
      run, s' := [EndWait], Next(s, EndWait);
      assert run[1..] == [];
    } else {
      var t :| t in s.phase.todo;
      var next := Next(s, WaitDone(t));
      Preserved(s, WaitDone(t));
      var more;
      more, s' := WaitEnds(next);
      run := [WaitDone(t)] + more;
      assert run[1..] == more;
    }
  }

  // The wait does end only if every thread that was signalled lives to answer:
  // one that exits before it does is waited for forever, whatever happens.
  lemma {:induction false} DeadThreadBlocks(s: State, run: seq<Action>, s': State, t: ThreadId)
    requires Inv(s) && Runs(s, run, s') && t in s.threads && !s.threads[t].alive && s.threads[t].ack
    requires s.phase.Waiting? && t in s.phase.todo
    ensures t in s'.threads && !s'.threads[t].alive && s'.threads[t].ack && s'.phase.Waiting? && t in s'.phase.todo
    decreases |run|
  {
    hide Inv;
    if run != [] {
      Preserved(s, run[0]);
      StillBlocked(s, run[0], t);
      DeadThreadBlocks(Next(s, run[0]), run[1..], s', t);
    }
  }

  lemma StillBlocked(s: State, a: Action, t: ThreadId)
    requires Inv(s) && Enabled(s, a) && t in s.threads && !s.threads[t].alive && s.threads[t].ack
    requires s.phase.Waiting? && t in s.phase.todo
    ensures var s' := Next(s, a);
      t in s'.threads && !s'.threads[t].alive && s'.threads[t].ack && s'.phase.Waiting? && t in s'.phase.todo
  {
    assert ThreadOk(s, t);
  }

  lemma {:induction false} OneMore(s: State, run: seq<Action>, s': State, a: Action)
    requires Runs(s, run, s') && Enabled(s', a)
    ensures Runs(s, run + [a], Next(s', a))
    decreases |run|
  {
    hide Next, Enabled;
    if run == [] {
      assert [a][1..] == [];
    } else {
      assert (run + [a])[1..] == run[1..] + [a];
      OneMore(Next(s, run[0]), run[1..], s', a);
    }
  }

  lemma Then(s: State, run: seq<Action>, t: State, a: Action) returns (more: seq<Action>, next: State)
    requires Runs(s, run, t) && Enabled(t, a)
    ensures Runs(s, more, next) && next == Next(t, a) && more == run + [a]
  {
    OneMore(s, run, t, a);
    more, next := run + [a], Next(t, a);
  }

  lemma NoSteps(s: State)
    ensures Runs(s, [], s)
  {
  }

  lemma {:induction false} OneAfter(s: State, run: seq<Action>, t: State, more: seq<Action>, u: State)
    requires Runs(s, run, t) && Runs(t, more, u)
    ensures Runs(s, run + more, u)
    decreases |run|
  {
    hide Next, Enabled;
    if run == [] {
      assert run + more == more;
    } else {
      assert (run + more)[1..] == run[1..] + more;
      OneAfter(Next(s, run[0]), run[1..], t, more, u);
    }
  }

  // The next step of t's handler on its way to the acknowledgement.
  function TowardsAnswer(t: ThreadId, pc: Pc): Action {
    match pc
    case Mutator => Deliver(t)
    case Entered => Enter(t)
    case LoopTop => Ack(t)
    case LoopTest => Test(t)
    case Leaving => Leave(t)
  }

  // Everything but the state of t is as it was, and t is alive.
  predicate OnlyMoved(s: State, s': State, t: ThreadId)
    requires t in s.threads
  {
    && s'.phase == s.phase && s'.cur == s.cur && s'.holder == s.holder
    && s'.threads.Keys == s.threads.Keys && s'.threads[t].alive
    && forall u :: u in s.threads && u != t ==> s'.threads[u] == s.threads[u]
  }

  lemma TowardsAnswerStep(s: State, t: ThreadId)
    requires Inv(s) && s.phase.Waiting? && t in s.threads && s.threads[t].ack && s.threads[t].alive
    ensures var a := TowardsAnswer(t, s.threads[t].pc);
      && Enabled(s, a) && a != Resume && OnlyMoved(s, Next(s, a), t)
      && (Next(s, a).threads[t].ack ==> Distance(Next(s, a).threads[t]) < Distance(s.threads[t]))
  {
    assert ThreadOk(s, t);
  }

  // A live thread answers while nothing else happens.
  lemma {:induction false} Answer(s: State, t: ThreadId) returns (run: seq<Action>, s': State)
    requires Inv(s) && s.phase.Waiting? && t in s.threads && s.threads[t].ack && s.threads[t].alive
    ensures Runs(s, run, s') && Resume !in run && Inv(s') && OnlyMoved(s, s', t) && !s'.threads[t].ack
    decreases Distance(s.threads[t])
  {
    hide Inv, Enabled, Next, TowardsAnswer, Distance;
    var a := TowardsAnswer(t, s.threads[t].pc);
    TowardsAnswerStep(s, t);
    Preserved(s, a);
    var next := Next(s, a);
    var more: seq<Action> := [];
    s' := next;
    if next.threads[t].ack {
      more, s' := Answer(next, t);
    }
    run := [a] + more;
    assert run[1..] == more;
  }

  // The threads that have been asked and have not answered.
  ghost function Awaited(s: State): set<ThreadId> {
    set t | t in s.threads && s.threads[t].ack
  }

  // All answer, one by one.
  lemma {:induction false} AllAnswer(s: State) returns (run: seq<Action>, s': State)
    requires Inv(s) && s.phase.Waiting? && forall t :: t in Awaited(s) ==> s.threads[t].alive
    requires LiveHolder(s)
    ensures Runs(s, run, s') && Resume !in run && Inv(s') && s'.phase.Waiting? && Awaited(s') == {} && LiveHolder(s')
    decreases |Awaited(s)|
  {
    hide Inv, Enabled, Next;
    if Awaited(s) == {} {
      run, s' := [], s;
    } else {
      var t :| t in Awaited(s);
      var first, next := Answer(s, t);
      assert Awaited(next) == Awaited(s) - {t};
      var more;
      more, s' := AllAnswer(next);
      OneAfter(s, first, next, more, s');
      run := first + more;
    }
  }

  // The collecting thread has not exited; it need not be registered.
  predicate LiveHolder(s: State) {
    s.holder.Some? && (s.holder.value in s.threads ==> s.threads[s.holder.value].alive)
  }

  // The collecting thread gets back to its work, if a late signal has taken it
  // to the handler.
  lemma Return(s: State) returns (run: seq<Action>, s': State)
    requires Inv(s) && s.phase.Waiting? && Awaited(s) == {} && LiveHolder(s)
    ensures Runs(s, run, s') && Resume !in run && Inv(s') && s'.phase == s.phase && Awaited(s') == {} && s'.Collecting(s'.phase)
  {
    hide Inv, Runs;
    NoSteps(s);
    var h := s.holder.value;
    run, s' := [], s;
    if h in s.threads {
      CollectorGoesOn(s);
      if s'.threads[h].pc == Entered {
        Preserved(s', Enter(h));
        run, s' := Then(s, run, s', Enter(h));
      }
      if s'.threads[h].pc == Leaving {
        Preserved(s', Leave(h));
        run, s' := Then(s, run, s', Leave(h));
      }
    }
  }

  // GC_mutator_suspend can return.
  ghost predicate CanStop(s: State) {
    exists run, s' :: Runs(s, run, s') && Resume !in run && s'.phase == Stopped
  }

  /**
    The wait in GC_mutator_suspend can end if and only if every thread that it
    has yet to look at and that has not answered is alive.
  */
  lemma SuspendReturns(s: State)
    requires Inv(s) && s.phase.Waiting? && LiveHolder(s)
    ensures CanStop(s) <==> forall t :: t in s.phase.todo && t in s.threads && s.threads[t].ack ==> s.threads[t].alive
  {
    hide Inv, Enabled, Next;
    if CanStop(s) {
      var run, s' :| Runs(s, run, s') && Resume !in run && s'.phase == Stopped;
      forall t | t in s.phase.todo && t in s.threads && s.threads[t].ack
        ensures s.threads[t].alive
      {
        if !s.threads[t].alive {
          DeadThreadBlocks(s, run, s', t);
        }
      }
    } else if forall t :: t in s.phase.todo && t in s.threads && s.threads[t].ack ==> s.threads[t].alive {
      StoppedInTheEnd(s);
    }
  }

  lemma AwaitedAhead(s: State)
    requires Inv(s) && s.phase.Waiting?
    ensures Awaited(s) <= s.phase.todo
  {
    forall t | t in Awaited(s) ensures t in s.phase.todo {
      assert ThreadOk(s, t);
    }
  }

  lemma StoppedInTheEnd(s: State)
    requires Inv(s) && s.phase.Waiting? && LiveHolder(s)
    requires forall t :: t in s.phase.todo && t in s.threads && s.threads[t].ack ==> s.threads[t].alive
    ensures CanStop(s)
  {
    hide Inv, Enabled, Next, Runs;
    AwaitedAhead(s);
    var first, quiet := AllAnswer(s);
    var second, back := Return(quiet);
    forall t | t in back.threads ensures !back.threads[t].ack {
      assert t !in Awaited(back);
    }
    var third, done := WaitEnds(back);
    OneAfter(s, first, quiet, second, back);
    OneAfter(s, first + second, back, third, done);
    assert Resume !in first + second + third;
  }

  // This can happen: two threads register, one begins a collection, and the
  // other exits between the signal and its answer.
  lemma DeadThreadWaitedFor(s: State) returns (run: seq<Action>, t: State)
    requires Init(s)
    ensures Runs(s, run, t) && t.phase.Waiting? && 2 in t.phase.todo && 2 in t.threads && !t.threads[2].alive && t.threads[2].ack
  {
    hide Runs;
    run, t := FirstCollects(s);
    run, t := Then(s, run, t, Skip(1));
    run, t := Then(s, run, t, SetAck(2));
    run, t := Then(s, run, t, Kill(2));
    run, t := Then(s, run, t, Exit(2));
    run, t := Then(s, run, t, EndSignalling);
  }

  lemma FirstCollects(s: State) returns (run: seq<Action>, t: State)
    requires Init(s)
    ensures Runs(s, run, t) && t.threads.Keys == {1, 2} && t.holder == Some(1) && t.cur == Some(1) && t.phase == Signalling({1, 2}, None)
    ensures forall k :: k in t.threads ==> t.threads[k] == Thread(true, 0, 0, false, false, false, Mutator)
  {
    hide Runs;
    run, t := TwoThreads(s);
    run, t := Then(s, run, t, Lock(1));
    run, t := Then(s, run, t, SetCur(1));
    assert |t.threads.Keys| == 2;
    run, t := Then(s, run, t, Begin);
  }

  lemma TwoThreads(s: State) returns (run: seq<Action>, t: State)
    requires Init(s)
    ensures Runs(s, run, t) && t.threads.Keys == {1, 2} && t.holder == None && t.phase == Idle && !t.inside
    ensures forall k :: k in t.threads ==> t.threads[k] == Thread(true, 0, 0, false, false, false, Mutator)
  {
    hide Runs;
    assert Runs(s, [], s) by {
      NoSteps(s);
    }
    run, t := [], s;
    run, t := Then(s, run, t, Lock(1));
    run, t := Then(s, run, t, Register(1, 0, false));
    run, t := Then(s, run, t, Unlock(1));
    run, t := Then(s, run, t, Lock(2));
    run, t := Then(s, run, t, SetCur(2));
    run, t := Then(s, run, t, Register(2, 0, false));
    run, t := Then(s, run, t, Unlock(2));
  }
}
