/** Whether the worker of a session gets on: when cleanup's join returns and when it never does,
    how a queued command is reached, and what happens once the worker's loop has ended. */
module SessionProgress {
  import opened Machine
  import opened SessionQueue

  predicate IsWorkerEvent(e: Event) {
    e.TakeFront? || e.BeginTask? || e.FinishTask? || e.ThrowTask? || e.PopFront? || e.TestEmpty? ||
    e.TestStop? || e.Drain? || e.Loop?
  }

  ghost predicate SomeWorkerEvent(s: State) {
    exists w :: IsWorkerEvent(w) && CanStep(s, w)
  }

  // ---------------------------------------------------------------------------------------
  // The join of cleanup

  /** The worker's own steps still to come once taskQueueRunning is false. */
  function StepsLeft(w: Worker): nat {
    match w
    case Looping(run) => if run then 9 else 1
    case Draining => 2
    case Stopping(run) => if run then 10 else 3
    case Testing(run) => if run then 11 else 4
    case Executed(_) => 5
    case Executing(_) => 6
    case Taken(_) => 7
    case Taking => 8
    case Absent => 0
    case Ended => 0
    case Threw(_) => 0
  }

  /** cleanup waits for the worker, and the worker for the mutex that cleanup's caller holds. */
  predicate Stuck(s: State) {
    s.cleanup.Joining? && WaitsForSession(s.worker)
  }

  predicate FrontParses(q: seq<Slot>) {
    q != [] && q[0].Held? && q[0].cmd.ParseCmd?
  }

  /** The worker has taken a ParseCmd, or is past its last look at the flag with one in front. */
  predicate CanStick(s: State) {
    || WaitsForSession(s.worker)
    || (FrontParses(s.queue) &&
        (s.worker == Taking || s.worker == Testing(true) || s.worker == Looping(true) ||
         (s.worker == Stopping(true) && !s.pendingStop)))
  }

  /** While cleanup waits to join, each step of the worker brings its end nearer, no other step
      moves it, and until it has ended one of its own steps is possible unless the two wait for
      each other.  A command that runs is taken to return or throw. */
  lemma JoinIsReached(tr: seq<State>, es: seq<Event>, i: nat, e: Event)
    requires IsRun(tr, es) && i < |tr| && tr[i].cleanup.Joining?
    ensures CanStep(tr[i], e) && IsWorkerEvent(e) ==> StepsLeft(Step(tr[i], e).worker) < StepsLeft(tr[i].worker)
    ensures CanStep(tr[i], e) && !IsWorkerEvent(e) && !e.JoinThread? ==> Step(tr[i], e).worker == tr[i].worker
    ensures !CanStep(tr[i], JoinThread) ==> (SomeWorkerEvent(tr[i]) <==> !Stuck(tr[i]))
  {
    hide *;
    RunKeepsInv(tr, es, i);
    InvThread(tr[i]);
    if CanStep(tr[i], e) {
      WorkerMoves(tr[i], e);
    }
    if !CanStep(tr[i], JoinThread) {
      WorkerIsReady(tr[i]);
    }
  }

  lemma WorkerMoves(s: State, e: Event)
    requires ThreadShape(s) && s.cleanup.Joining? && CanStep(s, e)
    ensures IsWorkerEvent(e) ==> StepsLeft(Step(s, e).worker) < StepsLeft(s.worker)
    ensures !IsWorkerEvent(e) && !e.JoinThread? ==> Step(s, e).worker == s.worker
  {
    hide Pending, Push;
  }

  /** The worker's next step. */
  function NextEvent(w: Worker): Event {
    match w
    case Taking => TakeFront
    case Taken(_) => BeginTask
    case Executing(_) => FinishTask
    case Executed(_) => PopFront
    case Testing(_) => TestEmpty
    case Stopping(_) => TestStop
    case Draining => Drain
    case _ => Loop
  }

  lemma WorkerIsReady(s: State)
    requires ThreadShape(s) && s.cleanup.Joining? && !CanStep(s, JoinThread)
    ensures SomeWorkerEvent(s) <==> !Stuck(s)
  {
    if !Stuck(s) {
      assert IsWorkerEvent(NextEvent(s.worker)) && CanStep(s, NextEvent(s.worker));
    }
  }

  // ---------------------------------------------------------------------------------------
  // Paths from a state

  ghost predicate IsPath(s: State, es: seq<Event>)
    decreases |es|
  {
    es == [] || (CanStep(s, es[0]) && IsPath(Step(s, es[0]), es[1..]))
  }

  function End(s: State, es: seq<Event>): State
    requires IsPath(s, es)
    decreases |es|
  {
    if es == [] then s else End(Step(s, es[0]), es[1..])
  }

  /** A path that ends in a deadlock before the join. */
  ghost predicate LeadsToStuck(s: State, es: seq<Event>) {
    JoinThread !in es && IsPath(s, es) && Stuck(End(s, es))
  }

  // ---------------------------------------------------------------------------------------
  // The deadlock

  /** Nothing ends it. */
  lemma StuckStays(s: State, e: Event)
    requires ThreadShape(s) && Stuck(s) && CanStep(s, e)
    ensures Stuck(Step(s, e))
  {
    hide Pending, Push;
  }

  lemma {:induction false} DeadlockIsForEver(tr: seq<State>, es: seq<Event>, i: nat, j: nat)
    requires IsRun(tr, es) && i <= j < |tr| && Stuck(tr[i])
    ensures Stuck(tr[j])
    decreases j
  {
    hide Stuck, Step, CanStep, Inv;
    if i < j {
      DeadlockIsForEver(tr, es, i, j - 1);
      RunKeepsInv(tr, es, j - 1);
      InvThread(tr[j - 1]);
      assert CanStep(tr[j - 1], es[j - 1]) && tr[j] == Step(tr[j - 1], es[j - 1]);
      StuckStays(tr[j - 1], es[j - 1]);
    }
  }

  /** What cannot come to a deadlock stays so until the join. */
  lemma SafeStays(s: State, e: Event)
    requires ThreadShape(s) && QueueShape(s) && s.cleanup.Joining? && !CanStick(s) && CanStep(s, e) && !e.JoinThread?
    ensures Step(s, e).cleanup.Joining? && !CanStick(Step(s, e))
  {
    hide Pending, Push;
    match e
    case TakeFront =>
    case BeginTask =>
    case PopFront =>
    case TestEmpty =>
    case TestStop =>
    case Drain =>
    case Loop =>
    case _ =>
  }

  lemma {:induction false} SafePathIsNotStuck(s: State, es: seq<Event>)
    requires Inv(s) && s.cleanup.Joining? && !CanStick(s) && JoinThread !in es && IsPath(s, es)
    ensures !Stuck(End(s, es))
    decreases |es|
  {
    if es != [] {
      hide Step, CanStep, CanStick, Inv;
      StepKeepsInv(s, es[0]);
      InvShapes(s);
      SafeStays(s, es[0]);
      SafePathIsNotStuck(Step(s, es[0]), es[1..]);
    }
  }

  lemma InvShapes(s: State)
    requires Inv(s)
    ensures ThreadShape(s) && QueueShape(s)
  {
  }

  lemma NearerToStuck(s: State)
    requires s.cleanup.Joining? && CanStick(s) && !WaitsForSession(s.worker)
    ensures var e := NextEvent(s.worker);
      && CanStep(s, e) && StepsLeft(Step(s, e).worker) < StepsLeft(s.worker)
      && Step(s, e).cleanup.Joining? && CanStick(Step(s, e)) && !e.JoinThread?
  {
    hide Pending, Push;
  }

  /** The worker's own next steps lead there. */
  lemma {:induction false} StuckPath(s: State) returns (es: seq<Event>)
    requires s.cleanup.Joining? && CanStick(s)
    ensures LeadsToStuck(s, es)
    decreases StepsLeft(s.worker)
  {
    hide Step, CanStep, CanStick;
    if WaitsForSession(s.worker) {
      es := [];
    } else {
      NearerToStuck(s);
      var e := NextEvent(s.worker);
      var rest := StuckPath(Step(s, e));
      es := [e] + rest;
      assert es[1..] == rest;
    }
    StuckNeedsWait(s);
  }

  lemma StuckNeedsWait(s: State)
    ensures s.cleanup.Joining? && WaitsForSession(s.worker) ==> LeadsToStuck(s, [])
  {
  }

  lemma ClearChangesNothingElse(s: State)
    requires CanStep(s, ClearRunning)
    ensures Step(s, ClearRunning).cleanup.Joining? && CanStick(Step(s, ClearRunning)) == CanStick(s)
  {
  }

  /** From the moment at which cleanup clears the flag, some run ends in a deadlock before the
      join exactly when the worker has taken a ParseCmd, or is past its last look at the flag
      with one in front of the queue. */
  lemma CleanupDeadlocksExactly(s: State)
    requires Inv(s) && CanStep(s, ClearRunning)
    ensures CanStick(s) <==> exists es :: LeadsToStuck(Step(s, ClearRunning), es)
  {
    hide Step, CanStep, CanStick, Inv, IsPath, Stuck;
    ClearChangesNothingElse(s);
    StepKeepsInv(s, ClearRunning);
    var t := Step(s, ClearRunning);
    if CanStick(s) {
      var es := StuckPath(t);
    } else {
      forall es ensures !LeadsToStuck(t, es) {
        if JoinThread !in es && IsPath(t, es) {
          SafePathIsNotStuck(t, es);
        }
      }
    }
  }

  /** Unless a stop request can still come in between, the deadlock is then certain. */
  predicate MustStick(s: State) {
    CanStick(s) && !s.worker.Stopping?
  }

  lemma DoomedStays(s: State, e: Event)
    requires ThreadShape(s) && s.cleanup.Joining? && MustStick(s) && CanStep(s, e)
    ensures !e.JoinThread? && Step(s, e).cleanup.Joining? && MustStick(Step(s, e))
  {
    hide Pending, Push;
    match e
    case TakeFront =>
    case TestEmpty =>
    case Loop =>
    case _ =>
  }

  /** cleanup that clears the flag in such a state never comes to its join. */
  lemma {:induction false} CleanupNeverReturns(tr: seq<State>, es: seq<Event>, i: nat, j: nat)
    requires IsRun(tr, es) && i <= j < |es| && tr[i].cleanup.Joining? && MustStick(tr[i])
    ensures !es[j].JoinThread? && tr[j].cleanup.Joining? && MustStick(tr[j])
    decreases j
  {
    hide MustStick, Step, CanStep, Inv;
    RunKeepsInv(tr, es, j);
    InvThread(tr[j]);
    assert CanStep(tr[j], es[j]);
    if i < j {
      CleanupNeverReturns(tr, es, i, j - 1);
      RunKeepsInv(tr, es, j - 1);
      InvThread(tr[j - 1]);
      assert CanStep(tr[j - 1], es[j - 1]) && tr[j] == Step(tr[j - 1], es[j - 1]);
      DoomedStays(tr[j - 1], es[j - 1]);
    }
    DoomedStays(tr[j], es[j]);
  }

  // ---------------------------------------------------------------------------------------
  // A run that ends in the deadlock

  function Trace(s: State, es: seq<Event>): (tr: seq<State>)
    requires IsPath(s, es)
    ensures |tr| == |es| + 1 && tr[0] == s
    decreases |es|
  {
    if es == [] then [s] else [s] + Trace(Step(s, es[0]), es[1..])
  }

  lemma {:induction false} TraceSteps(s: State, es: seq<Event>)
    requires IsPath(s, es)
    ensures var tr := Trace(s, es);
      && (forall i :: 0 <= i < |es| ==> CanStep(tr[i], es[i]) && tr[i + 1] == Step(tr[i], es[i]))
      && tr[|es|] == End(s, es)
    decreases |es|
  {
    hide Step, CanStep;
    if es != [] {
      var t, rest := Step(s, es[0]), es[1..];
      TraceSteps(t, rest);
      var tr, more := Trace(s, es), Trace(t, rest);
      assert tr == [s] + more;
      forall i | 0 <= i < |es| ensures CanStep(tr[i], es[i]) && tr[i + 1] == Step(tr[i], es[i]) {
        if i > 0 {
          assert es[i] == rest[i - 1] && tr[i] == more[i - 1] && tr[i + 1] == more[i];
        }
      }
    }
  }

  lemma {:induction false} PathConcat(s: State, a: seq<Event>, b: seq<Event>)
    requires IsPath(s, a) && IsPath(End(s, a), b)
    ensures IsPath(s, a + b) && End(s, a + b) == End(End(s, a), b)
    decreases |a|
  {
    hide Step, CanStep;
    if a == [] {
      assert a + b == b;
    } else {
      assert (a + b)[1..] == a[1..] + b;
      PathConcat(Step(s, a[0]), a[1..], b);
    }
  }

  /** A compile request queues two commands. */
  const QUEUE_BOTH: seq<Event> := [Enqueue(OtherCmd(0)), Enqueue(ParseCmd(1))]
  const BOTH_QUEUED := State([Held(OtherCmd(0)), Held(ParseCmd(1))], true, true, false, false, Taking, Idle, Unlocked,
    false, Log([OtherCmd(0), ParseCmd(1)], [], [], [], []), [], 0, 0)

  /** The worker runs the first and looks at the flag. */
  const RUN_FIRST: seq<Event> := [TakeFront, BeginTask, FinishTask, PopFront]
  const FIRST_RUN := State([Held(ParseCmd(1))], true, true, false, false, Testing(true), Idle, Unlocked,
    false, Log([OtherCmd(0), ParseCmd(1)], [OtherCmd(0)], [OtherCmd(0)], [], []), [], 0, 0)

  /** cleanup clears the flag, and the worker goes on to take the second. */
  const CLEAR_AND_TAKE: seq<Event> := [ClearRunning, TestEmpty, Loop, TakeFront]

  const COMPILE_THEN_CLEANUP := QUEUE_BOTH + RUN_FIRST + CLEAR_AND_TAKE

  lemma OneStep(s: State, e: Event)
    requires CanStep(s, e)
    ensures IsPath(s, [e]) && End(s, [e]) == Step(s, e)
  {
    hide Step, CanStep;
    assert [e][1..] == [];
  }

  lemma BothAreQueued()
    ensures IsPath(INITIAL, QUEUE_BOTH) && End(INITIAL, QUEUE_BOTH) == BOTH_QUEUED
  {
    var a, b := Enqueue(OtherCmd(0)), Enqueue(ParseCmd(1));
    OneStep(INITIAL, a);
    OneStep(Step(INITIAL, a), b);
    PathConcat(INITIAL, [a], [b]);
    assert [a] + [b] == QUEUE_BOTH;
  }

  lemma FirstIsRun()
    ensures IsPath(BOTH_QUEUED, RUN_FIRST) && End(BOTH_QUEUED, RUN_FIRST) == FIRST_RUN
  {
    var s := BOTH_QUEUED;
    var s1 := Step(s, TakeFront);
    var s2 := Step(s1, BeginTask);
    var s3 := Step(s2, FinishTask);
    OneStep(s, TakeFront);
    OneStep(s1, BeginTask);
    PathConcat(s, [TakeFront], [BeginTask]);
    OneStep(s2, FinishTask);
    PathConcat(s, [TakeFront] + [BeginTask], [FinishTask]);
    OneStep(s3, PopFront);
    PathConcat(s, [TakeFront] + [BeginTask] + [FinishTask], [PopFront]);
    assert [TakeFront] + [BeginTask] + [FinishTask] + [PopFront] == RUN_FIRST;
  }

  lemma SecondIsTaken()
    ensures IsPath(FIRST_RUN, CLEAR_AND_TAKE) && Stuck(End(FIRST_RUN, CLEAR_AND_TAKE))
  {
    var s := FIRST_RUN;
    var s1 := Step(s, ClearRunning);
    var s2 := Step(s1, TestEmpty);
    var s3 := Step(s2, Loop);
    OneStep(s, ClearRunning);
    OneStep(s1, TestEmpty);
    PathConcat(s, [ClearRunning], [TestEmpty]);
    OneStep(s2, Loop);
    PathConcat(s, [ClearRunning] + [TestEmpty], [Loop]);
    OneStep(s3, TakeFront);
    PathConcat(s, [ClearRunning] + [TestEmpty] + [Loop], [TakeFront]);
    assert [ClearRunning] + [TestEmpty] + [Loop] + [TakeFront] == CLEAR_AND_TAKE;
  }

  /** A compile followed by a cleanup can end in the deadlock, in ten steps from the start. */
  lemma DeadlockIsReachable()
    ensures IsPath(INITIAL, COMPILE_THEN_CLEANUP) && |COMPILE_THEN_CLEANUP| == 10
    ensures IsRun(Trace(INITIAL, COMPILE_THEN_CLEANUP), COMPILE_THEN_CLEANUP)
    ensures Stuck(End(INITIAL, COMPILE_THEN_CLEANUP))
  {
    hide Step, CanStep, Stuck, IsPath;
    BothAreQueued();
    FirstIsRun();
    SecondIsTaken();
    PathConcat(INITIAL, QUEUE_BOTH, RUN_FIRST);
    PathConcat(INITIAL, QUEUE_BOTH + RUN_FIRST, CLEAR_AND_TAKE);
    TraceSteps(INITIAL, COMPILE_THEN_CLEANUP);
  }

  // ---------------------------------------------------------------------------------------
  // After the loop has ended

  /** A drain or an exception has ended the worker's loop, or is about to. */
  predicate Over(w: Worker) {
    w == Looping(false) || w.Ended? || w.Threw?
  }

  lemma OverStays(s: State, e: Event)
    requires ThreadShape(s) && Over(s.worker) && CanStep(s, e) && !e.JoinThread?
    ensures Over(Step(s, e).worker) && Step(s, e).log.started == s.log.started
    ensures e.Enqueue? ==> Step(s, e).queue == s.queue + [Held(e.cmd)]
    ensures !e.Enqueue? ==> Step(s, e).queue == s.queue && Step(s, e).log.enqueued == s.log.enqueued
    ensures e.Enqueue? ==> Step(s, e).log.enqueued == s.log.enqueued + [e.cmd]
  {
    hide Pending, Push;
    match e
    case Enqueue(c) => PushMeans(s, c);
    case Loop =>
    case _ =>
  }

  /** The flag and the thread stay set, so that no later enqueueCommand starts another worker:
      until cleanup joins the thread no command starts, and every one that is enqueued stays in
      the queue, where pendingCommands sees it. */
  lemma {:induction false} NothingStartsOnceOver(tr: seq<State>, es: seq<Event>, i: nat, j: nat)
    requires IsRun(tr, es) && i <= j < |tr| && Over(tr[i].worker)
    requires forall k :: i <= k < j ==> !es[k].JoinThread?
    ensures Over(tr[j].worker) && tr[j].log.started == tr[i].log.started
    ensures tr[i].queue <= tr[j].queue && tr[i].log.enqueued <= tr[j].log.enqueued
    ensures |tr[j].queue| - |tr[i].queue| == |tr[j].log.enqueued| - |tr[i].log.enqueued|
    decreases j
  {
    hide Step, CanStep, Inv, Over;
    if i < j {
      NothingStartsOnceOver(tr, es, i, j - 1);
      RunKeepsInv(tr, es, j - 1);
      InvThread(tr[j - 1]);
      assert CanStep(tr[j - 1], es[j - 1]) && tr[j] == Step(tr[j - 1], es[j - 1]);
      OverStays(tr[j - 1], es[j - 1]);
    }
  }

  /** That is what a drain and an exception come to. */
  lemma DrainAndThrowEnd(s: State, e: Event)
    requires CanStep(s, e) && (e.Drain? || e.ThrowTask?)
    ensures Over(Step(s, e).worker) && Step(s, e).hasThread == s.hasThread && Step(s, e).running == s.running
  {
  }

  // ---------------------------------------------------------------------------------------
  // A stop request

  lemma StopPersists(s: State, e: Event)
    requires CanStep(s, e) && (s.pendingStop || e.Stop?)
    ensures Step(s, e).pendingStop
  {
    hide Pending;
  }

  lemma StoppedWorkerDrains(s: State)
    requires CanStep(s, TestStop)
    ensures Step(s, TestStop).worker.Draining? <==> s.pendingStop
  {
  }

  /** A stop request is never forgotten, and the worker's next look at it ends in a drain. */
  lemma {:induction false} StopIsHonoured(tr: seq<State>, es: seq<Event>, i: nat, j: nat)
    requires IsRun(tr, es) && i < j < |tr| && es[i].Stop?
    ensures tr[j].pendingStop
    ensures j < |es| && es[j].TestStop? ==> tr[j + 1].worker.Draining?
    decreases j
  {
    hide Step, CanStep;
    if i < j - 1 {
      StopIsHonoured(tr, es, i, j - 1);
    }
    assert CanStep(tr[j - 1], es[j - 1]) && tr[j] == Step(tr[j - 1], es[j - 1]);
    StopPersists(tr[j - 1], es[j - 1]);
    if j < |es| && es[j].TestStop? {
      assert CanStep(tr[j], es[j]) && tr[j + 1] == Step(tr[j], es[j]);
      StoppedWorkerDrains(tr[j]);
    }
  }

  /** What a task that ends is counted as, and what a request is answered. */
  lemma EndsAreCounted(s: State, c: Command)
    requires s.worker == Executing(c)
    ensures Step(s, FinishTask).log == s.log.(ran := s.log.ran + [c])
    ensures Step(s, ThrowTask).log == s.log.(failed := s.log.failed + [c])
  {
  }

  /** When a request or an enqueuer gets the session: not while cleanup, another request or a
      running ParseCmd has it. */
  lemma SessionIsLockable(s: State, c: Command)
    ensures CanStep(s, LockSession) <==>
      s.cleanup == Idle && s.request == Unlocked && !(s.worker.Executing? && s.worker.cmd.ParseCmd?)
    ensures CanStep(s, Enqueue(c)) <==> CanStep(s, LockSession) && c !in s.log.enqueued
  {
  }

  lemma RequestIsAnswered(s: State)
    requires CanStep(s, TestPending)
    ensures Step(s, TestPending).request.Serialising? <==> s.queue == []
  {
  }

  // ---------------------------------------------------------------------------------------
  // Until then

  /** The worker's loop goes on. */
  predicate Alive(w: Worker) {
    match w
    case Testing(run) => run
    case Stopping(run) => run
    case Looping(run) => run
    case Taking => true
    case Taken(_) => true
    case Executing(_) => true
    case Executed(_) => true
    case _ => false
  }

  /** No cleanup has begun, no stop has been asked for, and the loop goes on. */
  predicate Undisturbed(s: State) {
    s.cleanup.Idle? && !s.pendingStop && Alive(s.worker)
  }

  predicate Disturbs(e: Event) {
    e.ClearRunning? || e.Stop? || e.ThrowTask?
  }

  /** Entries in front of a command. */
  function Ahead(q: seq<Slot>, c: Command): nat {
    if q == [] || q[0] == Held(c) then 0 else 1 + Ahead(q[1..], c)
  }

  function Phase(w: Worker): nat {
    match w
    case Taken(task) => if task.Some? then 3 else 9
    case Executed(task) => if task.Some? then 1 else 8
    case Testing(_) => 7
    case Stopping(_) => 6
    case Looping(_) => 5
    case Taking => 4
    case Executing(_) => 2
    case _ => 0
  }

  /** A bound on the worker's steps until it takes a command. */
  function Distance(s: State, c: Command): nat {
    10 * Ahead(s.queue, c) + Phase(s.worker)
  }

  lemma {:induction false} AheadAppend(q: seq<Slot>, c: Command, d: Command)
    requires Held(c) in q
    ensures Ahead(q + [Held(d)], c) == Ahead(q, c)
  {
    if q[0] != Held(c) {
      assert (q + [Held(d)])[1..] == q[1..] + [Held(d)];
      AheadAppend(q[1..], c, d);
    }
  }

  lemma TakeGoesOn(s: State, c: Command)
    requires QueueShape(s) && Undisturbed(s) && Held(c) in s.queue && CanStep(s, TakeFront)
    ensures var t := Step(s, TakeFront);
      && Undisturbed(t)
      && (t.worker == Taken(Some(c)) || (Held(c) in t.queue && Distance(t, c) < Distance(s, c)))
  {
    hide Pending, Push;
    var q := s.queue;
    assert q[0].Held?;
    if q[0] != Held(c) {
      assert q[0 := Moved][1..] == q[1..];
      assert Held(c) in q[1..];
      assert q[0 := Moved] == [Moved] + q[1..];
    }
  }

  lemma PopGoesOn(s: State, c: Command)
    requires QueueShape(s) && ThreadShape(s) && Undisturbed(s) && Held(c) in s.queue && CanStep(s, PopFront)
    ensures var t := Step(s, PopFront);
      Undisturbed(t) && Held(c) in t.queue && Distance(t, c) < Distance(s, c)
  {
    hide Pending, Push;
    if s.worker.task.Some? {
      assert s.queue[0].Moved?;
      assert Held(c) in s.queue[1..];
    }
  }

  lemma OthersGoOn(s: State, e: Event, c: Command)
    requires ThreadShape(s) && Undisturbed(s) && Held(c) in s.queue && CanStep(s, e) && !Disturbs(e)
    requires !e.TakeFront? && !e.PopFront?
    ensures var t := Step(s, e);
      && Undisturbed(t) && Held(c) in t.queue
      && (if IsWorkerEvent(e) then Distance(t, c) < Distance(s, c) else Distance(t, c) == Distance(s, c))
  {
    hide Pending, Push, Ahead;
    match e
    case Enqueue(d) =>
      PushMeans(s, d);
      AheadAppend(s.queue, c, d);
    case BeginTask =>
    case FinishTask =>
    case TestEmpty =>
    case TestStop =>
    case Loop =>
    case _ =>
  }

  /** Each step of the worker brings it nearer to a queued command, and no other step takes it
      further away. */
  lemma WorkerGoesOn(s: State, e: Event, c: Command)
    requires Inv(s) && Undisturbed(s) && Held(c) in s.queue && CanStep(s, e) && !Disturbs(e)
    ensures var t := Step(s, e);
      && Undisturbed(t)
      && (t.worker == Taken(Some(c)) ||
          (Held(c) in t.queue &&
           (if IsWorkerEvent(e) then Distance(t, c) < Distance(s, c) else Distance(t, c) == Distance(s, c))))
  {
    hide Step, CanStep, Inv, Undisturbed;
    InvShapes(s);
    match e
    case TakeFront => TakeGoesOn(s, c);
    case PopFront => PopGoesOn(s, c);
    case _ => OthersGoOn(s, e, c);
  }

  /** One of those steps is possible, unless the worker waits for a request to give the
      session's mutex back, which it can. */
  lemma WorkerCanGoOn(s: State)
    requires Undisturbed(s)
    ensures SomeWorkerEvent(s) || (WaitsForSession(s.worker) && CanStep(s, Unlock))
  {
    if WaitsForSession(s.worker) && !s.request.Unlocked? {
    } else {
      assert IsWorkerEvent(NextEvent(s.worker)) && CanStep(s, NextEvent(s.worker));
    }
  }

  function WorkerEvents(es: seq<Event>, i: nat, j: nat): nat
    requires i <= j <= |es|
    decreases j
  {
    if i == j then 0 else WorkerEvents(es, i, j - 1) + if IsWorkerEvent(es[j - 1]) then 1 else 0
  }

  ghost predicate TakenBetween(tr: seq<State>, i: nat, j: nat, c: Command) {
    exists k :: i < k <= j && k < |tr| && tr[k].worker == Taken(Some(c))
  }

  /** Every command in the queue is taken after at most Distance steps of the worker, while
      nothing disturbs it. */
  lemma {:induction false} EachCommandIsReached(tr: seq<State>, es: seq<Event>, i: nat, j: nat, c: Command)
    requires IsRun(tr, es) && i <= j < |tr| && Undisturbed(tr[i]) && Held(c) in tr[i].queue
    requires forall k :: i <= k < j ==> !Disturbs(es[k])
    ensures TakenBetween(tr, i, j, c) ||
      (Undisturbed(tr[j]) && Held(c) in tr[j].queue &&
       WorkerEvents(es, i, j) + Distance(tr[j], c) <= Distance(tr[i], c))
    decreases j
  {
    hide Step, CanStep, Inv, Undisturbed, Distance, Disturbs;
    if i < j {
      EachCommandIsReached(tr, es, i, j - 1, c);
      if TakenBetween(tr, i, j - 1, c) {
        var k :| i < k <= j - 1 && k < |tr| && tr[k].worker == Taken(Some(c));
        assert tr[k].worker == Taken(Some(c)) && i < k <= j;
      } else {
        RunKeepsInv(tr, es, j - 1);
        assert CanStep(tr[j - 1], es[j - 1]) && tr[j] == Step(tr[j - 1], es[j - 1]);
        WorkerGoesOn(tr[j - 1], es[j - 1], c);
      }
    }
  }
}
