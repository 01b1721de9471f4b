/** The command queue of a session as a state machine.  Each locked region of the worker, of
    enqueueCommand, enqueueStop and cleanup, and the unlocked emptiness test, is one step.  Two
    mutexes of the session manager are held for longer: its own, which every caller of cleanup
    holds from beginning to end, and the session's, which a request or a running ParseCmd holds.
    lockSession takes both, and gives the first back once it has the second. */
module SessionQueue {
  import opened Machine

  /** A queued command; a unique_ptr keeps identities distinct.  A ParseCmd starts with
      lockSession. */
  datatype Command = ParseCmd(id: nat) | OtherCmd(id: nat)

  /** An entry of the task queue; moving the pointer out leaves a null entry behind. */
  datatype Slot = Held(cmd: Command) | Moved

  /** Where the worker thread is in processTaskQueueImpl. */
  datatype Worker =
    | Absent
    | Taking
    | Taken(task: Option<Command>)
    | Executing(cmd: Command)
    | Executed(task: Option<Command>)
    | Testing(run: bool)
    | Stopping(run: bool)
    | Draining
    | Looping(run: bool)
    | Ended
    | Threw(cmd: Command)

  datatype Cleanup = Idle | Joining | Popping

  /** A request that reports the state holds the session lock and may serialise the session. */
  datatype Request = Unlocked | Locked | Serialising

  /** The history of a session since its last cleanup. */
  datatype Log = Log(enqueued: seq<Command>, started: seq<Command>, ran: seq<Command>,
                     failed: seq<Command>, discarded: seq<Command>)

  const EMPTY_LOG := Log([], [], [], [], [])

  datatype State = State(
    queue: seq<Slot>,
    running: bool,
    hasThread: bool,
    pendingStop: bool,
    pendingRemove: bool,
    worker: Worker,
    cleanup: Cleanup,
    request: Request,
    terminated: bool,
    log: Log,
    past: seq<Log>,
    tested: nat,
    clearedAt: nat)

  const INITIAL := State([], false, false, false, false, Absent, Idle, Unlocked, false, EMPTY_LOG, [], 0, 0)

  datatype Event =
    | Enqueue(cmd: Command)
    | Stop
    | TakeFront
    | BeginTask
    | FinishTask
    | ThrowTask
    | PopFront
    | TestEmpty
    | TestStop
    | Drain
    | Loop
    | ClearRunning
    | JoinThread
    | PopLeftover
    | FinishCleanup
    | LockSession
    | TestPending
    | Unlock

  /** The worker has taken a command that starts with lockSession. */
  predicate WaitsForSession(w: Worker) {
    w.Taken? && w.task.Some? && w.task.value.ParseCmd?
  }

  /** The worker holds the session's mutex. */
  predicate HoldsSession(w: Worker) {
    w.Executing? && w.cmd.ParseCmd?
  }

  /** lockSession gets both mutexes. */
  predicate CanLockSession(s: State) {
    s.cleanup.Idle? && s.request.Unlocked? && !HoldsSession(s.worker)
  }

  predicate CanStep(s: State, e: Event) {
    match e
    case Enqueue(c) => CanLockSession(s) && c !in s.log.enqueued
    case Stop => !s.worker.Draining?
    case TakeFront => s.worker.Taking?
    case BeginTask => s.worker.Taken? && (WaitsForSession(s.worker) ==> CanLockSession(s))
    case FinishTask => s.worker.Executing?
    case ThrowTask => s.worker.Executing?
    case PopFront => s.worker.Executed?
    case TestEmpty => s.worker.Testing?
    case TestStop => s.worker.Stopping?
    case Drain => s.worker.Draining?
    case Loop => s.worker.Looping?
    case ClearRunning => s.cleanup.Idle?
    case JoinThread => s.cleanup.Joining? && (s.hasThread ==> s.worker.Ended? || s.worker.Threw?)
    case PopLeftover => s.cleanup.Popping? && s.queue != []
    case FinishCleanup => s.cleanup.Popping? && s.queue == []
    case LockSession => CanLockSession(s)
    case TestPending => s.request.Locked?
    case Unlock => !s.request.Unlocked?
  }

  function Push(s: State, c: Command): State {
    var t := if !s.running && s.hasThread then s.(hasThread := false, terminated := true) else s;
    var u := if !t.hasThread then t.(running := true, hasThread := true, worker := Taking) else t;
    u.(queue := u.queue + [Held(c)], log := u.log.(enqueued := u.log.enqueued + [c]))
  }

  function Step(s: State, e: Event): State
    requires CanStep(s, e)
  {
    match e
    case Enqueue(c) => Push(s, c)
    case Stop => s.(pendingStop := true)
    case TakeFront =>
      if s.queue == [] then s.(worker := Taken(None))
      else if s.queue[0].Held? then s.(worker := Taken(Some(s.queue[0].cmd)), queue := s.queue[0 := Moved])
      else s.(worker := Taken(None))
    case BeginTask =>
      (match s.worker.task
       case Some(c) => s.(worker := Executing(c), log := s.log.(started := s.log.started + [c]))
       case None => s.(worker := Executed(None)))
    case FinishTask =>
      s.(worker := Executed(Some(s.worker.cmd)), log := s.log.(ran := s.log.ran + [s.worker.cmd]))
    case ThrowTask =>
      s.(worker := Threw(s.worker.cmd), log := s.log.(failed := s.log.failed + [s.worker.cmd]))
    case PopFront =>
      s.(worker := Testing(s.running),
         queue := if s.worker.task.Some? && s.queue != [] then s.queue[1..] else s.queue)
    case TestEmpty =>
      if s.queue == [] then s.(worker := Stopping(s.worker.run), tested := |s.log.enqueued|)
      else s.(worker := Looping(s.worker.run))
    case TestStop => s.(worker := if s.pendingStop then Draining else Looping(s.worker.run))
    case Drain =>
      s.(worker := Looping(false), queue := [], pendingRemove := true,
         log := s.log.(discarded := s.log.discarded + Pending(s.queue)))
    case Loop => s.(worker := if s.worker.run then Taking else Ended)
    case ClearRunning => s.(running := false, cleanup := Joining, clearedAt := |s.log.started|)
    case JoinThread => s.(hasThread := false, worker := Absent, cleanup := Popping)
    case PopLeftover =>
      s.(queue := s.queue[1..], log := s.log.(discarded := s.log.discarded + Pending(s.queue[..1])))
    case FinishCleanup =>
      s.(cleanup := Idle, pendingRemove := true, log := EMPTY_LOG, past := s.past + [s.log])
    case LockSession => s.(request := Locked)
    case TestPending => s.(request := if s.queue == [] then Serialising else Unlocked)
    case Unlock => s.(request := Unlocked)
  }

  /** The commands still held by the queue, oldest first. */
  function Pending(q: seq<Slot>): seq<Command> {
    if q == [] then []
    else (if q[0].Held? then [q[0].cmd] else []) + Pending(q[1..])
  }

  /** The command the worker has taken but not completed. */
  function InFlight(w: Worker): seq<Command> {
    match w
    case Taken(Some(c)) => [c]
    case Executing(c) => [c]
    case _ => []
  }

  /** The worker has moved the front of the queue out and not yet popped the empty entry. */
  predicate OwnsFront(w: Worker) {
    InFlight(w) != [] || (w.Executed? && w.task.Some?) || w.Threw?
  }

  // ---------------------------------------------------------------------------------------
  // The invariant

  ghost predicate Distinct(q: seq<Command>) {
    forall i, j :: 0 <= i < j < |q| ==> q[i] != q[j]
  }

  /** Every command enqueued since the last cleanup, oldest first, is run, failed, in flight,
      discarded or queued. */
  ghost predicate Accounted(s: State) {
    && s.log.enqueued == s.log.ran + s.log.failed + InFlight(s.worker) + s.log.discarded + Pending(s.queue)
    && s.log.started == s.log.ran + s.log.failed + (if s.worker.Executing? then [s.worker.cmd] else [])
    && (s.log.failed != [] ==> s.worker.Threw? || s.cleanup.Popping?)
    && (s.log.discarded != [] ==> s.worker == Looping(false) || s.worker.Ended? || s.worker.Absent?)
    && Distinct(s.log.enqueued)
  }

  /** Only the front entry can be empty, and it is empty while the worker owns it. */
  ghost predicate QueueShape(s: State) {
    && (forall i :: 1 <= i < |s.queue| ==> s.queue[i].Held?)
    && (OwnsFront(s.worker) ==> s.queue != [] && s.queue[0].Moved?)
    && (s.queue != [] && s.queue[0].Moved? ==> OwnsFront(s.worker) || s.cleanup.Popping?)
  }

  /** How the flag, the thread and cleanup agree. */
  ghost predicate ThreadShape(s: State) {
    && (s.hasThread <==> !s.worker.Absent?)
    && (s.cleanup.Idle? ==> s.running == s.hasThread)
    && (s.cleanup.Idle? && !s.hasThread ==> s.queue == [] && s.log == EMPTY_LOG)
    && (s.cleanup.Joining? ==> !s.running)
    && (s.cleanup.Popping? ==> !s.running && !s.hasThread)
    && !s.terminated
  }

  /** While the worker looks at the stop request the queue holds only what arrived after its
      last emptiness test. */
  ghost predicate DrainShape(s: State) {
    s.worker.Stopping? || s.worker.Draining? ==>
      && s.tested <= |s.log.enqueued|
      && s.log.failed == [] && s.log.discarded == []
      && s.log.ran == s.log.enqueued[..s.tested]
      && Pending(s.queue) == s.log.enqueued[s.tested..]
  }

  /** One more command may start in this pass over the loop. */
  predicate MayStart(w: Worker) {
    w.Taking? || (w.Taken? && w.task.Some?) ||
    ((w.Testing? || w.Stopping? || w.Looping?) && w.run)
  }

  ghost predicate ClearShape(s: State) {
    !s.cleanup.Idle? ==>
      s.clearedAt <= |s.log.started| && |s.log.started| + (if MayStart(s.worker) then 1 else 0) <= s.clearedAt + 1
  }

  /** A request serialises the session only while its queue is empty. */
  ghost predicate RequestShape(s: State) {
    s.request.Serialising? ==> s.queue == []
  }

  ghost predicate PastShape(s: State) {
    forall l :: l in s.past ==> l.enqueued == l.ran + l.failed + l.discarded && l.started == l.ran + l.failed
  }

  ghost predicate Inv(s: State) {
    && Accounted(s) && QueueShape(s) && ThreadShape(s) && DrainShape(s)
    && ClearShape(s) && RequestShape(s) && PastShape(s)
  }

  // ---------------------------------------------------------------------------------------
  // Each step keeps the invariant

  lemma {:induction false} PendingAppend(q: seq<Slot>, c: Command)
    ensures Pending(q + [Held(c)]) == Pending(q) + [c]
  {
    if q != [] {
      assert (q + [Held(c)])[1..] == q[1..] + [Held(c)];
      PendingAppend(q[1..], c);
    }
  }

  /** What an enqueue does outside cleanup. */
  lemma PushMeans(s: State, c: Command)
    requires ThreadShape(s) && CanStep(s, Enqueue(c))
    ensures Push(s, c) == s.(queue := s.queue + [Held(c)], log := s.log.(enqueued := s.log.enqueued + [c]),
      running := true, hasThread := true, worker := if s.worker.Absent? then Taking else s.worker)
  {
  }

  lemma PushKeepsAccounted(s: State, c: Command)
    requires Inv(s) && CanStep(s, Enqueue(c))
    ensures Accounted(Push(s, c))
  {
    hide Push, Pending;
    PushMeans(s, c);
    var t := Push(s, c);
    PendingAppend(s.queue, c);
    var front := s.log.ran + s.log.failed + InFlight(s.worker) + s.log.discarded;
    assert InFlight(t.worker) == InFlight(s.worker);
    assert t.log.enqueued == front + (Pending(s.queue) + [c]);
  }

  lemma TakeKeepsAccounted(s: State)
    requires Inv(s) && CanStep(s, TakeFront)
    ensures Accounted(Step(s, TakeFront))
  {
    if s.queue != [] {
      var c := s.queue[0].cmd;
      assert s.queue[0 := Moved][1..] == s.queue[1..];
      assert Pending(s.queue) == [c] + Pending(s.queue[1..]);
      assert s.log.failed == [] && s.log.discarded == [];
    }
  }

  lemma FinishKeepsAccounted(s: State)
    requires Inv(s) && CanStep(s, FinishTask)
    ensures Accounted(Step(s, FinishTask)) && Accounted(Step(s, ThrowTask))
  {
    hide DrainShape, ClearShape, PastShape, RequestShape, QueueShape, Distinct, Push, Pending;
    assert s.log.failed == [] && s.log.discarded == [];
  }

  lemma PopKeepsAccounted(s: State)
    requires Inv(s) && CanStep(s, PopFront)
    ensures Accounted(Step(s, PopFront))
  {
  }

  lemma LeftoverKeepsAccounted(s: State)
    requires Accounted(s) && s.worker.Absent? && CanStep(s, PopLeftover)
    ensures Accounted(Step(s, PopLeftover))
  {
    PendingSplit(s.queue);
    var l, p := s.log, Pending(s.queue[..1]);
    assert InFlight(s.worker) == [];
    var t := Step(s, PopLeftover);
    assert t.log.discarded == l.discarded + p;
    assert l.ran + l.failed + [] + l.discarded + (p + Pending(s.queue[1..]))
        == l.ran + l.failed + [] + (l.discarded + p) + Pending(s.queue[1..]);
  }

  lemma PendingSplit(q: seq<Slot>)
    requires q != []
    ensures Pending(q) == Pending(q[..1]) + Pending(q[1..])
  {
  }

  lemma DrainKeepsAccounted(s: State)
    requires Inv(s) && CanStep(s, Drain)
    ensures Accounted(Step(s, Drain))
  {
    hide DrainShape, ClearShape, PastShape, RequestShape, QueueShape, Distinct, Push;
    assert s.log.discarded == [];
  }

  lemma NothingIsDistinct()
    ensures Distinct([])
  {
  }

  lemma BeginKeepsAccounted(s: State)
    requires Accounted(s) && CanStep(s, BeginTask)
    ensures Accounted(Step(s, BeginTask))
  {
    hide Pending, Distinct, Push;
    assert s.log.ran + s.log.failed + [] == s.log.ran + s.log.failed;
    var t := Step(s, BeginTask);
    assert InFlight(t.worker) == InFlight(s.worker) && t.queue == s.queue;
  }

  lemma ResetKeepsAccounted(s: State)
    requires ThreadShape(s) && CanStep(s, FinishCleanup)
    ensures Accounted(Step(s, FinishCleanup))
  {
    hide Push;
    NothingIsDistinct();
  }

  /** The steps of the worker that run nothing, of cleanup's join, of a stop and of requests. */
  predicate IsQuiet(e: Event) {
    match e
    case TestEmpty => true
    case TestStop => true
    case Loop => true
    case ClearRunning => true
    case JoinThread => true
    case Stop => true
    case LockSession => true
    case TestPending => true
    case Unlock => true
    case _ => false
  }

  lemma QuietKeepsAccounted(s: State, e: Event)
    requires Accounted(s) && ThreadShape(s) && CanStep(s, e) && IsQuiet(e)
    ensures Accounted(Step(s, e))
  {
    hide Pending, Distinct, Push;
    match e
    case TestEmpty =>
    case TestStop =>
    case Loop =>
    case JoinThread =>
    case _ =>
  }

  lemma StepKeepsAccounted(s: State, e: Event)
    requires Inv(s) && CanStep(s, e)
    ensures Accounted(Step(s, e))
  {
    hide Step, Accounted, DrainShape, ClearShape, PastShape, RequestShape, QueueShape;
    match e
    case Enqueue(c) =>
      PushKeepsAccounted(s, c);
      EnqueueStep(s, c);
    case TakeFront => TakeKeepsAccounted(s);
    case BeginTask => BeginKeepsAccounted(s);
    case FinishTask => FinishKeepsAccounted(s);
    case ThrowTask => FinishKeepsAccounted(s);
    case PopFront => PopKeepsAccounted(s);
    case PopLeftover =>
      InvThread(s);
      LeftoverKeepsAccounted(s);
    case Drain => DrainKeepsAccounted(s);
    case FinishCleanup => ResetKeepsAccounted(s);
    case _ => QuietKeepsAccounted(s, e);
  }

  lemma EnqueueStep(s: State, c: Command)
    requires CanStep(s, Enqueue(c))
    ensures Step(s, Enqueue(c)) == Push(s, c)
  {
    hide Push;
  }

  lemma TakeKeepsQueueShape(s: State)
    requires QueueShape(s) && CanStep(s, TakeFront) && !s.cleanup.Popping?
    ensures QueueShape(Step(s, TakeFront))
  {
    hide Pending, Push;
  }

  lemma PopKeepsQueueShape(s: State)
    requires QueueShape(s) && CanStep(s, PopFront)
    ensures QueueShape(Step(s, PopFront))
  {
    hide Pending, Push;
  }

  /** The steps that leave the queue and its owner as they are. */
  lemma OthersKeepQueueShape(s: State, e: Event)
    requires QueueShape(s) && CanStep(s, e) && LeavesQueue(e)
    ensures QueueShape(Step(s, e))
  {
    hide Pending, Push, QueueShape, OwnsFront;
    OthersKeepQueue(s, e);
    OthersKeepOwner(s, e);
    SameQueueShape(s, Step(s, e));
  }

  /** The steps that neither add to the queue nor take from it, and end no phase of cleanup. */
  predicate LeavesQueue(e: Event) {
    !e.Enqueue? && !e.TakeFront? && !e.PopFront? && !e.Drain? && !e.PopLeftover? && !e.JoinThread? && !e.FinishCleanup?
  }

  lemma OthersKeepQueue(s: State, e: Event)
    requires CanStep(s, e) && LeavesQueue(e)
    ensures Step(s, e).queue == s.queue
    ensures s.cleanup.Popping? ==> Step(s, e).cleanup.Popping?
  {
    hide Pending, Push;
    match e
    case BeginTask =>
    case _ =>
  }

  lemma OthersKeepOwner(s: State, e: Event)
    requires CanStep(s, e) && LeavesQueue(e)
    ensures OwnsFront(Step(s, e).worker) == OwnsFront(s.worker)
  {
    hide Pending, Push;
    match e
    case BeginTask =>
    case FinishTask =>
    case ThrowTask =>
    case TestEmpty =>
    case TestStop =>
    case Loop =>
    case _ =>
  }

  lemma SameQueueShape(s: State, t: State)
    requires QueueShape(s) && t.queue == s.queue && OwnsFront(t.worker) == OwnsFront(s.worker)
    requires s.cleanup.Popping? ==> t.cleanup.Popping?
    ensures QueueShape(t)
  {
    hide OwnsFront;
  }

  lemma StepKeepsQueueShape(s: State, e: Event)
    requires Inv(s) && CanStep(s, e)
    ensures QueueShape(Step(s, e))
  {
    hide Accounted, DrainShape, ClearShape, PastShape, RequestShape, Pending, Distinct, Push;
    match e
    case Enqueue(c) => PushMeans(s, c);
    case TakeFront => TakeKeepsQueueShape(s);
    case PopFront => PopKeepsQueueShape(s);
    case Drain =>
    case PopLeftover =>
    case JoinThread =>
    case FinishCleanup =>
    case _ => OthersKeepQueueShape(s, e);
  }

  lemma StepKeepsRequestShape(s: State, e: Event)
    requires Inv(s) && CanStep(s, e)
    ensures RequestShape(Step(s, e))
  {
    hide Accounted, DrainShape, ClearShape, PastShape, Pending, Distinct, Push, OwnsFront;
    match e
    case Enqueue(c) => PushMeans(s, c);
    case _ =>
  }

  lemma StepKeepsThreadShape(s: State, e: Event)
    requires Inv(s) && CanStep(s, e)
    ensures ThreadShape(Step(s, e))
  {
    hide DrainShape, ClearShape, PastShape, RequestShape, Distinct, Push;
    match e
    case Enqueue(c) => PushMeans(s, c);
    case _ =>
  }

  lemma StepKeepsDrainShape(s: State, e: Event)
    requires Inv(s) && CanStep(s, e)
    ensures DrainShape(Step(s, e))
  {
    hide ClearShape, PastShape, RequestShape, QueueShape, Distinct, Pending, Push;
    match e
    case Enqueue(c) =>
      PushMeans(s, c);
      PendingAppend(s.queue, c);
    case TestEmpty => if s.queue == [] { EmptyTestFindsAllRun(s); }
    case _ =>
  }

  /** When the worker finds the queue empty, everything enqueued has run. */
  lemma EmptyTestFindsAllRun(s: State)
    requires Inv(s) && s.worker.Testing? && s.queue == []
    ensures s.log.failed == [] && s.log.discarded == [] && s.log.ran == s.log.enqueued && Pending(s.queue) == []
  {
    hide ClearShape, PastShape, RequestShape, QueueShape, DrainShape, Distinct;
  }

  lemma StepKeepsClearShape(s: State, e: Event)
    requires Inv(s) && CanStep(s, e)
    ensures ClearShape(Step(s, e))
  {
    hide DrainShape, RequestShape, PastShape, Distinct, QueueShape, OwnsFront, Pending, Push;
    match e
    case Enqueue(c) => PushMeans(s, c);
    case _ =>
  }

  lemma StepKeepsPastShape(s: State, e: Event)
    requires Inv(s) && CanStep(s, e)
    ensures PastShape(Step(s, e))
  {
    hide DrainShape, RequestShape, ClearShape, Distinct, QueueShape, OwnsFront, Push;
    match e
    case Enqueue(c) => PushMeans(s, c);
    case _ =>
  }

  lemma StepKeepsInv(s: State, e: Event)
    requires Inv(s) && CanStep(s, e)
    ensures Inv(Step(s, e))
  {
    hide Step, CanStep;
    StepKeepsAccounted(s, e);
    StepKeepsQueueShape(s, e);
    StepKeepsRequestShape(s, e);
    StepKeepsThreadShape(s, e);
    StepKeepsDrainShape(s, e);
    StepKeepsClearShape(s, e);
    StepKeepsPastShape(s, e);
  }

  lemma PushKeepsInv(s: State, c: Command)
    requires Inv(s) && CanStep(s, Enqueue(c))
    ensures Inv(Push(s, c))
  {
    hide Inv, Push;
    StepKeepsInv(s, Enqueue(c));
  }

  // ---------------------------------------------------------------------------------------
  // Runs: every interleaving of the steps

  ghost predicate IsRun(tr: seq<State>, es: seq<Event>) {
    && |tr| == |es| + 1 && tr[0] == INITIAL
    && forall i :: 0 <= i < |es| ==> CanStep(tr[i], es[i]) && tr[i + 1] == Step(tr[i], es[i])
  }

  lemma {:induction false} RunKeepsInv(tr: seq<State>, es: seq<Event>, i: nat)
    requires IsRun(tr, es) && i < |tr|
    ensures Inv(tr[i])
  {
    if i > 0 {
      RunKeepsInv(tr, es, i - 1);
      StepKeepsInv(tr[i - 1], es[i - 1]);
    }
  }

  predicate ExactlyOne(a: bool, b: bool, c: bool, d: bool, e: bool) {
    var n := (x: bool) => if x then 1 else 0;
    n(a) + n(b) + n(c) + n(d) + n(e) == 1
  }

  /** Each command is in exactly one place, and what has been started is a prefix of what has
      been enqueued since the last cleanup. */
  lemma EachCommandInOnePlace(tr: seq<State>, es: seq<Event>, i: nat, c: Command)
    requires IsRun(tr, es) && i < |tr| && c in tr[i].log.enqueued
    ensures var l := tr[i].log;
      && ExactlyOne(c in l.ran, c in l.failed, c in InFlight(tr[i].worker), c in l.discarded,
                    c in Pending(tr[i].queue))
      && l.ran <= l.started <= l.enqueued
  {
    hide Step, CanStep, Inv, Pending, InFlight, IsRun, Distinct;
    RunKeepsInv(tr, es, i);
    var s := tr[i];
    InvAccounts(s);
    var l := s.log;
    var d, e := l.discarded, Pending(s.queue);
    var f := InFlight(s.worker);
    assert l.enqueued == l.ran + (l.failed + (f + (d + e)));
    ConcatDistinct(l.ran, l.failed + (f + (d + e)));
    ConcatDistinct(l.failed, f + (d + e));
    ConcatDistinct(f, d + e);
    ConcatDistinct(d, e);
  }

  lemma InvAccounts(s: State)
    requires Inv(s)
    ensures s.log.enqueued == s.log.ran + s.log.failed + InFlight(s.worker) + s.log.discarded + Pending(s.queue)
    ensures Distinct(s.log.enqueued)
    ensures s.log.ran <= s.log.started <= s.log.enqueued
  {
    hide QueueShape, DrainShape, ClearShape, PastShape, RequestShape, Pending, Distinct;
  }

  lemma ConcatDistinct(a: seq<Command>, b: seq<Command>)
    requires Distinct(a + b)
    ensures Distinct(b)
    ensures forall c :: c in a ==> c !in b
  {
    var ab := a + b;
    assert forall i :: 0 <= i < |a| ==> ab[i] == a[i];
    assert forall i :: 0 <= i < |b| ==> ab[|a| + i] == b[i];
  }

  /** pendingCommands() answering false means that no command is executing, and none starts
      before the next enqueueCommand. */
  lemma {:induction false} IdleUntilNextEnqueue(tr: seq<State>, es: seq<Event>, i: nat, j: nat)
    requires IsRun(tr, es) && i <= j < |tr| && tr[i].queue == []
    requires forall k :: i <= k < j ==> !es[k].Enqueue?
    ensures tr[j].queue == [] && InFlight(tr[j].worker) == [] && !OwnsFront(tr[j].worker)
    decreases j - i
  {
    hide Step, CanStep, Inv;
    RunKeepsInv(tr, es, j);
    if i < j {
      RunKeepsInv(tr, es, j - 1);
      IdleUntilNextEnqueue(tr, es, i, j - 1);
      assert CanStep(tr[j - 1], es[j - 1]) && tr[j] == Step(tr[j - 1], es[j - 1]);
      EmptyStaysEmpty(tr[j - 1], es[j - 1]);
    }
    EmptyIsIdle(tr[j]);
  }

  lemma EmptyStaysEmpty(s: State, e: Event)
    requires CanStep(s, e) && s.queue == [] && !e.Enqueue?
    ensures Step(s, e).queue == []
  {
    hide Pending, Push;
    match e
    case TakeFront =>
    case PopFront =>
    case Drain =>
    case _ =>
  }

  lemma EmptyIsIdle(s: State)
    requires Inv(s) && s.queue == []
    ensures InFlight(s.worker) == [] && !OwnsFront(s.worker)
  {
    hide Accounted, ThreadShape, DrainShape, ClearShape, PastShape, RequestShape, Pending;
  }

  /** A request that serialises the session state does so while no command is executing. */
  lemma SerialisesOnlyWhileIdle(tr: seq<State>, es: seq<Event>, i: nat)
    requires IsRun(tr, es) && i < |tr| && tr[i].request.Serialising?
    ensures !tr[i].worker.Executing? && InFlight(tr[i].worker) == []
  {
    RunKeepsInv(tr, es, i);
    assert RequestShape(tr[i]) && QueueShape(tr[i]);
  }

  /** The state in which the worker last found the queue empty before it looks at a stop. */
  lemma {:induction false} LastEmptyTest(tr: seq<State>, es: seq<Event>, i: nat) returns (k: nat)
    requires IsRun(tr, es) && i < |tr| && (tr[i].worker.Stopping? || tr[i].worker.Draining?)
    ensures k < i && es[k].TestEmpty? && tr[k].queue == []
    ensures forall m :: k < m < i ==> !es[m].TestEmpty?
    ensures tr[k].log.enqueued <= tr[i].log.enqueued && |tr[k].log.enqueued| == tr[i].tested
  {
    hide Step, CanStep, Inv;
    RunKeepsInv(tr, es, i - 1);
    var s, e := tr[i - 1], es[i - 1];
    assert CanStep(s, e) && tr[i] == Step(s, e);
    EmptyTestStep(s, e);
    if e.TestEmpty? {
      k := i - 1;
    } else {
      k := LastEmptyTest(tr, es, i - 1);
    }
  }

  /** The worker comes to the stop request only from an empty queue. */
  lemma EmptyTestStep(s: State, e: Event)
    requires Inv(s) && CanStep(s, e)
    requires Step(s, e).worker.Stopping? || Step(s, e).worker.Draining?
    ensures e.TestEmpty? ==> s.queue == [] && Step(s, e).log == s.log && Step(s, e).tested == |s.log.enqueued|
    ensures !e.TestEmpty? ==> s.worker.Stopping? || s.worker.Draining?
    ensures !e.TestEmpty? ==> s.log.enqueued <= Step(s, e).log.enqueued && Step(s, e).tested == s.tested
  {
    hide Accounted, QueueShape, DrainShape, ClearShape, PastShape, RequestShape, Pending;
  }

  /** A stop discards exactly the commands enqueued after the worker's last emptiness test;
      everything enqueued before that test has run. */
  lemma StopDiscardsOnlyLateArrivals(tr: seq<State>, es: seq<Event>, i: nat) returns (k: nat)
    requires IsRun(tr, es) && i < |es| && es[i].Drain?
    ensures k < i && es[k].TestEmpty? && tr[k].queue == []
    ensures forall m :: k < m < i ==> !es[m].TestEmpty?
    ensures tr[i + 1].log.ran == tr[k].log.enqueued
    ensures tr[k].log.enqueued + tr[i + 1].log.discarded == tr[i + 1].log.enqueued
    ensures tr[i + 1].queue == [] && tr[i + 1].pendingRemove
  {
    RunKeepsInv(tr, es, i);
    assert CanStep(tr[i], es[i]) && tr[i + 1] == Step(tr[i], es[i]);
    k := LastEmptyTest(tr, es, i);
    assert DrainShape(tr[i]);
  }

  /** After cleanup clears taskQueueRunning at most one more command starts. */
  lemma {:induction false} AtMostOneStartsAfterClear(tr: seq<State>, es: seq<Event>, i: nat, j: nat)
    requires IsRun(tr, es) && i < |es| && es[i].ClearRunning? && i < j < |tr|
    requires forall k :: i <= k < j ==> !es[k].FinishCleanup?
    ensures tr[i].log.started <= tr[j].log.started && |tr[j].log.started| <= |tr[i].log.started| + 1
  {
    ClearedAtStays(tr, es, i, j);
    RunKeepsInv(tr, es, j);
    assert ClearShape(tr[j]);
  }

  lemma NoEnqueueInsideCleanup(s: State, e: Event)
    requires CanStep(s, e) && !s.cleanup.Idle?
    ensures !e.Enqueue?
  {
  }

  lemma CleanupGoesOn(s: State, e: Event)
    requires CanStep(s, e) && !s.cleanup.Idle? && !e.FinishCleanup?
    ensures !Step(s, e).cleanup.Idle? && Step(s, e).clearedAt == s.clearedAt
  {
    hide Pending, Push;
    match e
    case ClearRunning =>
    case JoinThread =>
    case _ =>
  }

  lemma StartedGrows(s: State, e: Event)
    requires CanStep(s, e) && !e.Enqueue? && !e.FinishCleanup?
    ensures s.log.started <= Step(s, e).log.started
  {
    hide Pending, Push;
    match e
    case BeginTask =>
    case FinishTask =>
    case ThrowTask =>
    case Drain =>
    case PopLeftover =>
    case _ =>
  }

  lemma {:induction false} ClearedAtStays(tr: seq<State>, es: seq<Event>, i: nat, j: nat)
    requires IsRun(tr, es) && i < |es| && es[i].ClearRunning? && i < j < |tr|
    requires forall k :: i <= k < j ==> !es[k].FinishCleanup?
    ensures !tr[j].cleanup.Idle? && tr[j].clearedAt == |tr[i].log.started|
    ensures tr[i].log.started <= tr[j].log.started
    decreases j
  {
    hide Step, CanStep;
    assert CanStep(tr[j - 1], es[j - 1]);
    if j > i + 1 {
      ClearedAtStays(tr, es, i, j - 1);
      CleanupGoesOn(tr[j - 1], es[j - 1]);
      NoEnqueueInsideCleanup(tr[j - 1], es[j - 1]);
      StartedGrows(tr[j - 1], es[j - 1]);
    } else {
      ClearStep(tr[i]);
    }
  }

  lemma ClearStep(s: State)
    requires CanStep(s, ClearRunning)
    ensures Step(s, ClearRunning) == s.(running := false, cleanup := Joining, clearedAt := |s.log.started|)
  {
  }

  lemma LeftoverStep(s: State)
    requires CanStep(s, PopLeftover)
    ensures var t := Step(s, PopLeftover);
      && t.cleanup == s.cleanup && t.past == s.past && t.queue == s.queue[1..]
      && t.log.enqueued == s.log.enqueued && t.log.ran == s.log.ran
  {
  }

  lemma FinishStep(s: State)
    requires Inv(s) && CanStep(s, FinishCleanup)
    ensures Step(s, FinishCleanup) ==
      s.(cleanup := Idle, pendingRemove := true, log := EMPTY_LOG, past := s.past + [s.log])
    ensures s.log.enqueued == s.log.ran + s.log.failed + s.log.discarded
  {
  }

  /** enqueueCommand destroys a joinable thread, which ends the process, exactly when it runs
      between cleanup's clearing of the flag and its join of a thread. */
  lemma EnqueueTerminatesOnlyInsideCleanup(tr: seq<State>, es: seq<Event>, i: nat, c: Command)
    requires IsRun(tr, es) && i < |tr|
    ensures Push(tr[i], c).terminated <==> tr[i].cleanup.Joining? && tr[i].hasThread
  {
    RunKeepsInv(tr, es, i);
    assert ThreadShape(tr[i]);
  }

  lemma InvThread(s: State)
    requires Inv(s)
    ensures ThreadShape(s)
  {
  }

  // ---------------------------------------------------------------------------------------
  // The session object: each method is one locked region

  class Session {
    var taskQueue: seq<Slot>
    var taskQueueRunning: bool
    var thread: bool
    var pendingStop: bool
    var pendingRemove: bool
    /** The state-machine state that the fields are part of. */
    ghost var state: State

    ghost predicate Valid()
      reads this
    {
      Matches() && Inv(state)
    }

    ghost predicate Matches()
      reads this
    {
      && taskQueue == state.queue && taskQueueRunning == state.running && thread == state.hasThread
      && pendingStop == state.pendingStop && pendingRemove == state.pendingRemove
    }

    constructor ()
      ensures Valid() && state == INITIAL
    {
      taskQueue, taskQueueRunning, thread, pendingStop, pendingRemove := [], false, false, false, false;
      state := INITIAL;
    }

    /** The only region that is meaningful outside the invariant: it may overlap cleanup. */
    method EnqueueCommand(c: Command)
      requires Matches()
      modifies this
      ensures Matches() && state == Push(old(state), c)
      ensures taskQueue == old(taskQueue) + [Held(c)] && taskQueueRunning && thread
      ensures pendingStop == old(pendingStop) && pendingRemove == old(pendingRemove)
      ensures state.terminated <==> old(state.terminated) || (old(thread) && !old(taskQueueRunning))
      ensures old(Inv(state) && CanStep(state, Enqueue(c))) ==> Valid()
    {
      hide Inv, Step, CanStep;
      if Inv(state) && CanStep(state, Enqueue(c)) {
        PushKeepsInv(state, c);
      }
      if !taskQueueRunning && thread {
        thread := false;
      }
      if !thread {
        taskQueueRunning := true;
        thread := true;
      }
      taskQueue := taskQueue + [Held(c)];
      state := Push(state, c);
    }

    method EnqueueStop()
      requires Valid() && CanStep(state, Stop)
      modifies this`pendingStop, this`state
      ensures Valid() && state == Step(old(state), Stop)
      ensures pendingStop && state == old(state).(pendingStop := true)
    {
      StepKeepsInv(state, Stop);
      pendingStop := true;
      state := Step(state, Stop);
    }

    method PendingCommands() returns (pending: bool)
      requires Valid()
      ensures pending <==> state.queue != []
      ensures !pending ==> InFlight(state.worker) == []
    {
      pending := taskQueue != [];
    }

    /** processTaskQueueImpl, first locked region: move the front of the queue out. */
    method TakeTask() returns (task: Option<Command>)
      requires Valid() && CanStep(state, TakeFront)
      modifies this
      ensures Valid() && state == Step(old(state), TakeFront) && state.worker == Taken(task)
      ensures old(taskQueue) == [] ==> task == None && taskQueue == []
      ensures old(taskQueue) != [] ==>
        old(taskQueue)[0].Held? && task == Some(old(taskQueue)[0].cmd) && taskQueue == [Moved] + old(taskQueue)[1..]
    {
      StepKeepsInv(state, TakeFront);
      task := None;
      if taskQueue != [] {
        if taskQueue[0].Held? {
          task := Some(taskQueue[0].cmd);
          taskQueue := taskQueue[0 := Moved];
        }
      }
      state := Step(state, TakeFront);
    }

    /** processTaskQueueImpl, after the task has run: pop its entry and read the flag. */
    method PopTask(task: Option<Command>) returns (run: bool)
      requires Valid() && CanStep(state, PopFront) && state.worker == Executed(task)
      modifies this
      ensures Valid() && state == Step(old(state), PopFront) && state.worker == Testing(run)
      ensures run == taskQueueRunning == old(taskQueueRunning)
      ensures task.None? ==> taskQueue == old(taskQueue)
      ensures task.Some? ==> old(taskQueue) != [] && taskQueue == old(taskQueue)[1..]
    {
      StepKeepsInv(state, PopFront);
      if task.Some? {
        taskQueue := taskQueue[1..];
      }
      run := taskQueueRunning;
      state := Step(state, PopFront);
    }

    /** processTaskQueueImpl: the emptiness test made without a lock. */
    method TestQueue(run: bool) returns (empty: bool)
      requires Valid() && CanStep(state, TestEmpty) && state.worker == Testing(run)
      modifies this`state
      ensures Valid() && state == Step(old(state), TestEmpty)
      ensures state.worker == if empty then Stopping(run) else Looping(run)
      ensures empty <==> taskQueue == []
    {
      StepKeepsInv(state, TestEmpty);
      empty := taskQueue == [];
      state := Step(state, TestEmpty);
    }

    /** processTaskQueueImpl: read the stop request under its own lock. */
    method TestStopRequest(run: bool) returns (stop: bool)
      requires Valid() && CanStep(state, TestStop) && state.worker == Stopping(run)
      modifies this`state
      ensures Valid() && state == Step(old(state), TestStop)
      ensures state.worker == if stop then Draining else Looping(run)
      ensures stop <==> pendingStop
    {
      StepKeepsInv(state, TestStop);
      stop := pendingStop;
      state := Step(state, TestStop);
    }

    /** processTaskQueueImpl, once a stop is seen: drop what has arrived since the test. */
    method DrainQueue() returns (run: bool)
      requires Valid() && CanStep(state, Drain)
      modifies this
      ensures Valid() && state == Step(old(state), Drain) && state.worker == Looping(run)
      ensures !run && taskQueue == [] && pendingRemove
      ensures taskQueueRunning == old(taskQueueRunning) && thread == old(thread) && pendingStop == old(pendingStop)
    {
      StepKeepsInv(state, Drain);
      run := false;
      while taskQueue != []
        invariant state == old(state)
        invariant taskQueueRunning == old(taskQueueRunning) && thread == old(thread) && pendingStop == old(pendingStop)
        decreases |taskQueue|
      {
        taskQueue := taskQueue[1..];
      }
      pendingRemove := true;
      state := Step(state, Drain);
    }

    /** cleanup, first region: clear the flag. */
    method CleanupClear()
      requires Valid() && CanStep(state, ClearRunning)
      modifies this`taskQueueRunning, this`state
      ensures Valid() && state == Step(old(state), ClearRunning)
      ensures !taskQueueRunning
    {
      StepKeepsInv(state, ClearRunning);
      taskQueueRunning := false;
      state := Step(state, ClearRunning);
    }

    /** cleanup, once the join has returned: drop the thread. */
    method CleanupReset()
      requires Valid() && CanStep(state, JoinThread)
      modifies this`thread, this`state
      ensures Valid() && state == Step(old(state), JoinThread)
      ensures !thread
    {
      StepKeepsInv(state, JoinThread);
      thread := false;
      state := Step(state, JoinThread);
    }

    /** cleanup, the loop over the leftovers: the worker is gone, so nothing else changes the queue. */
    method CleanupDrop()
      requires Valid() && state.cleanup.Popping?
      modifies this
      ensures Valid() && state.cleanup.Idle? && taskQueue == [] && pendingRemove
      ensures state.log == EMPTY_LOG && |state.past| == |old(state.past)| + 1 && old(state.past) <= state.past
      ensures var l := state.past[|old(state.past)|];
        && l.enqueued == old(state.log.enqueued) && l.ran == old(state.log.ran)
        && l.enqueued == l.ran + l.failed + l.discarded
    {
      hide Step, Inv;
      while taskQueue != []
        invariant Valid() && state.cleanup.Popping? && state.past == old(state.past)
        invariant state.log.enqueued == old(state.log.enqueued) && state.log.ran == old(state.log.ran)
        decreases |taskQueue|
      {
        LeftoverStep(state);
        PopOne();
      }
      StepKeepsInv(state, FinishCleanup);
      FinishStep(state);
      pendingRemove := true;
      state := Step(state, FinishCleanup);
    }

    method PopOne()
      requires Valid() && state.cleanup.Popping? && taskQueue != []
      modifies this
      ensures Valid() && state == Step(old(state), PopLeftover)
      ensures taskQueue == old(taskQueue)[1..]
    {
      StepKeepsInv(state, PopLeftover);
      state := Step(state, PopLeftover);
      taskQueue := taskQueue[1..];
    }
  }
}
