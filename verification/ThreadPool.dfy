/**
 The thread pool as a labelled step system: workers run `threadStarter`, producers run `addTask`, and any
 interleaving of their steps is a run. A condition variable may wake a sleeper at any time without a signal.
 The body of a critical section is one step, which `MutualExclusion` justifies.
 */
module ThreadPool {
  import opened Bytes
  import opened Counting

  const MAX_TASK_NUM := 1000

  /** The function pointer and its argument, as opaque numbers. */
  datatype Task = Task(work: nat, args: nat)

  datatype Thread = Worker(i: nat) | Producer(j: nat)

  /** Where a worker stands in `threadStarter` and `executeTask`. */
  datatype WorkerPc =
    | WLock
    | WCheck
    | WSleep
    | WWoken
    | WTake
    | WUnlock(task: Task)
    | WSignal(task: Task)
    | IncLock(task: Task)
    | IncLoad(task: Task)
    | IncStore(task: Task, seen: int)
    | IncUnlock(task: Task)
    | Run(task: Task)
    | DecLock
    | DecLoad
    | DecStore(seen: int)
    | DecUnlock

  /** Where a producer stands in `addTask`. */
  datatype ProducerPc =
    | Idle
    | PLock(task: Task)
    | PCheck(task: Task)
    | PSleep(task: Task)
    | PWoken(task: Task)
    | PPut(task: Task)
    | PUnlock
    | PSignal

  /** `added`, `taken` and `finished` record the run; no step depends on them. */
  datatype State = State(
    mutex: Option<Thread>, execMutex: Option<Thread>,
    queue: seq<Task>, executing: int,
    workers: seq<WorkerPc>, producers: seq<ProducerPc>,
    added: seq<Task>, taken: seq<Task>, finished: multiset<Task>)

  datatype Step =
    | WorkerStep(i: nat)
    | WorkerSignal(i: nat, woken: Option<nat>)
    | ProducerStep(j: nat)
    | ProducerSignal(j: nat, woken: Option<nat>)
    | Submit(j: nat, task: Task)
    | SpuriousWorker(i: nat)
    | SpuriousProducer(j: nat)

  // ---------------------------------------------------------------- steps

  function SetWorker(s: State, i: nat, pc: WorkerPc): (t: State)
    requires i < |s.workers|
    ensures |t.workers| == |s.workers| && t.workers[i] == pc
  {
    s.(workers := s.workers[i := pc])
  }

  function SetProducer(s: State, j: nat, pc: ProducerPc): State
    requires j < |s.producers|
  {
    s.(producers := s.producers[j := pc])
  }

  /** A thread can move unless it sleeps or waits for a mutex that is taken. */
  predicate WorkerReady(s: State, i: nat) {
    i < |s.workers| &&
    match s.workers[i]
    case WLock => s.mutex.None?
    case WWoken => s.mutex.None?
    case IncLock(_) => s.execMutex.None?
    case DecLock => s.execMutex.None?
    case WTake => s.queue != []
    case WSleep => false
    case WSignal(_) => false
    case _ => true
  }

  predicate ProducerReady(s: State, j: nat) {
    j < |s.producers| &&
    match s.producers[j]
    case PLock(_) => s.mutex.None?
    case PWoken(_) => s.mutex.None?
    case PPut(_) => |s.queue| < MAX_TASK_NUM
    case Idle => false
    case PSleep(_) => false
    case PSignal => false
    case _ => true
  }

  /** A signal wakes one sleeper if there is any. */
  predicate WakesProducer(s: State, woken: Option<nat>) {
    match woken
    case Some(j) => j < |s.producers| && s.producers[j].PSleep?
    case None => forall j :: 0 <= j < |s.producers| ==> !s.producers[j].PSleep?
  }

  predicate WakesWorker(s: State, woken: Option<nat>) {
    match woken
    case Some(i) => i < |s.workers| && s.workers[i].WSleep?
    case None => forall i :: 0 <= i < |s.workers| ==> !s.workers[i].WSleep?
  }

  predicate Enabled(s: State, step: Step) {
    match step
    case WorkerStep(i) => WorkerReady(s, i)
    case WorkerSignal(i, woken) => i < |s.workers| && s.workers[i].WSignal? && WakesProducer(s, woken)
    case ProducerStep(j) => ProducerReady(s, j)
    case ProducerSignal(j, woken) => j < |s.producers| && s.producers[j].PSignal? && WakesWorker(s, woken)
    case Submit(j, _) => j < |s.producers| && s.producers[j].Idle?
    case SpuriousWorker(i) => i < |s.workers| && s.workers[i].WSleep?
    case SpuriousProducer(j) => j < |s.producers| && s.producers[j].PSleep?
  }

  function WorkerMove(s: State, i: nat): State
    requires WorkerReady(s, i)
  {
    match s.workers[i]
    case WLock => SetWorker(s.(mutex := Some(Worker(i))), i, WCheck)
    case WWoken => SetWorker(s.(mutex := Some(Worker(i))), i, WCheck)
    case WCheck =>
      if |s.queue| == 0 then SetWorker(s.(mutex := None), i, WSleep) else SetWorker(s, i, WTake)
    case WTake =>
      var task := s.queue[0];
      SetWorker(s.(queue := s.queue[1..], taken := s.taken + [task]), i, WUnlock(task))
    case WUnlock(task) => SetWorker(s.(mutex := None), i, WSignal(task))
    case IncLock(task) => SetWorker(s.(execMutex := Some(Worker(i))), i, IncLoad(task))
    case IncLoad(task) => SetWorker(s, i, IncStore(task, s.executing))
    case IncStore(task, seen) => SetWorker(s.(executing := seen + 1), i, IncUnlock(task))
    case IncUnlock(task) => SetWorker(s.(execMutex := None), i, Run(task))
    case Run(task) => SetWorker(s.(finished := s.finished + multiset{task}), i, DecLock)
    case DecLock => SetWorker(s.(execMutex := Some(Worker(i))), i, DecLoad)
    case DecLoad => SetWorker(s, i, DecStore(s.executing))
    case DecStore(seen) => SetWorker(s.(executing := seen - 1), i, DecUnlock)
    case DecUnlock => SetWorker(s.(execMutex := None), i, WLock)
  }

  function ProducerMove(s: State, j: nat): State
    requires ProducerReady(s, j)
  {
    match s.producers[j]
    case PLock(task) => SetProducer(s.(mutex := Some(Producer(j))), j, PCheck(task))
    case PWoken(task) => SetProducer(s.(mutex := Some(Producer(j))), j, PCheck(task))
    case PCheck(task) =>
      if |s.queue| == MAX_TASK_NUM then SetProducer(s.(mutex := None), j, PSleep(task))
      else SetProducer(s, j, PPut(task))
    case PPut(task) => SetProducer(s.(queue := s.queue + [task], added := s.added + [task]), j, PUnlock)
    case PUnlock => SetProducer(s.(mutex := None), j, PSignal)
  }

  function WakeProducer(s: State, woken: Option<nat>): State
    requires WakesProducer(s, woken)
  {
    match woken
    case Some(j) => SetProducer(s, j, PWoken(s.producers[j].task))
    case None => s
  }

  function WakeWorker(s: State, woken: Option<nat>): State
    requires WakesWorker(s, woken)
  {
    match woken
    case Some(i) => SetWorker(s, i, WWoken)
    case None => s
  }

  function Apply(s: State, step: Step): State
    requires Enabled(s, step)
  {
    match step
    case WorkerStep(i) => WorkerMove(s, i)
    case WorkerSignal(i, woken) => WakeProducer(SetWorker(s, i, IncLock(s.workers[i].task)), woken)
    case ProducerStep(j) => ProducerMove(s, j)
    case ProducerSignal(j, woken) => WakeWorker(SetProducer(s, j, Idle), woken)
    case Submit(j, task) => SetProducer(s, j, PLock(task))
    case SpuriousWorker(i) => SetWorker(s, i, WWoken)
    case SpuriousProducer(j) => SetProducer(s, j, PWoken(s.producers[j].task))
  }

  /** `initThreadPoolVariables` and `initializeThreadPool`, with any numbers of threads. */
  predicate Initial(s: State) {
    && s.mutex.None? && s.execMutex.None? && s.queue == [] && s.executing == 0
    && (forall i :: 0 <= i < |s.workers| ==> s.workers[i] == WLock)
    && (forall j :: 0 <= j < |s.producers| ==> s.producers[j] == Idle)
    && s.added == [] && s.taken == [] && s.finished == multiset{}
  }

  /** A run: the states passed through and the steps between them. */
  ghost predicate IsRun(states: seq<State>, steps: seq<Step>) {
    && |states| == |steps| + 1 && Initial(states[0])
    && forall k :: 0 <= k < |steps| ==> Enabled(states[k], steps[k]) && states[k + 1] == Apply(states[k], steps[k])
  }

  // ---------------------------------------------------------------- mutual exclusion

  predicate WorkerInside(pc: WorkerPc) {
    pc.WCheck? || pc.WTake? || pc.WUnlock?
  }

  predicate ProducerInside(pc: ProducerPc) {
    pc.PCheck? || pc.PPut? || pc.PUnlock?
  }

  predicate ExecInside(pc: WorkerPc) {
    pc.IncLoad? || pc.IncStore? || pc.IncUnlock? || pc.DecLoad? || pc.DecStore? || pc.DecUnlock?
  }

  ghost predicate MutexHeld(s: State) {
    && (forall i :: 0 <= i < |s.workers| ==> (WorkerInside(s.workers[i]) <==> s.mutex == Some(Worker(i))))
    && (forall j :: 0 <= j < |s.producers| ==> (ProducerInside(s.producers[j]) <==> s.mutex == Some(Producer(j))))
    && (s.mutex.Some? ==>
          if s.mutex.value.Worker? then s.mutex.value.i < |s.workers| else s.mutex.value.j < |s.producers|)
  }

  ghost predicate ExecMutexHeld(s: State) {
    && (forall i :: 0 <= i < |s.workers| ==> (ExecInside(s.workers[i]) <==> s.execMutex == Some(Worker(i))))
    && (s.execMutex.Some? ==> s.execMutex.value.Worker? && s.execMutex.value.i < |s.workers|)
  }

  /** The bounds of the queue; and what a thread has seen of it under the lock is still so. */
  ghost predicate Bounded(s: State) {
    && |s.queue| <= MAX_TASK_NUM
    && (forall i :: 0 <= i < |s.workers| ==> s.workers[i].WTake? ==> s.queue != [])
    && (forall j :: 0 <= j < |s.producers| ==> s.producers[j].PPut? ==> |s.queue| < MAX_TASK_NUM)
  }

  // ---------------------------------------------------------------- tasks

  /** What a worker has taken and not finished. */
  function InHand(pc: WorkerPc): multiset<Task> {
    match pc
    case WUnlock(task) => multiset{task}
    case WSignal(task) => multiset{task}
    case IncLock(task) => multiset{task}
    case IncLoad(task) => multiset{task}
    case IncStore(task, _) => multiset{task}
    case IncUnlock(task) => multiset{task}
    case Run(task) => multiset{task}
    case _ => multiset{}
  }

  function InHands(workers: seq<WorkerPc>): multiset<Task> {
    if workers == [] then multiset{} else InHand(workers[0]) + InHands(workers[1..])
  }

  /** First in, first out; and every task is in one place only. */
  ghost predicate Conserved(s: State) {
    && s.taken + s.queue == s.added
    && multiset(s.taken) == s.finished + InHands(s.workers)
  }

  // ---------------------------------------------------------------- the counter

  /** Between the two counter sections of `executeTask`. */
  predicate Executing(pc: WorkerPc) {
    pc.IncUnlock? || pc.Run? || pc.DecLock? || pc.DecLoad? || pc.DecStore?
  }

  ghost predicate Counted(s: State) {
    && s.executing == Count(s.workers, Executing)
    && forall i :: 0 <= i < |s.workers| ==>
         s.workers[i].IncStore? || s.workers[i].DecStore? ==> s.workers[i].seen == s.executing
  }

  // ---------------------------------------------------------------- wake-ups

  /** Producers that have put a task and are about to signal it. */
  predicate Announcing(pc: ProducerPc) { pc.PUnlock? || pc.PSignal? }

  /** Workers that will look at the queue before they can sleep. */
  predicate Looking(pc: WorkerPc) { pc.WWoken? || pc.WCheck? || pc.WTake? }

  predicate Freeing(pc: WorkerPc) { pc.WUnlock? || pc.WSignal? }

  predicate Retrying(pc: ProducerPc) { pc.PWoken? || pc.PCheck? || pc.PPut? }

  ghost predicate NoTaskForgotten(s: State) {
    (exists i :: 0 <= i < |s.workers| && s.workers[i].WSleep?) ==>
      |s.queue| <= Count(s.producers, Announcing) + Count(s.workers, Looking)
  }

  ghost predicate NoSlotForgotten(s: State) {
    (exists j :: 0 <= j < |s.producers| && s.producers[j].PSleep?) ==>
      MAX_TASK_NUM - |s.queue| <= Count(s.workers, Freeing) + Count(s.producers, Retrying)
  }

  /** A step changes at most one worker and at most one producer. */
  function WorkerOf(step: Step): Option<nat> {
    match step
    case WorkerStep(i) => Some(i)
    case WorkerSignal(i, _) => Some(i)
    case ProducerSignal(_, woken) => woken
    case SpuriousWorker(i) => Some(i)
    case _ => None
  }

  function ProducerOf(step: Step): Option<nat> {
    match step
    case ProducerStep(j) => Some(j)
    case ProducerSignal(j, _) => Some(j)
    case WorkerSignal(_, woken) => woken
    case Submit(j, _) => Some(j)
    case SpuriousProducer(j) => Some(j)
    case _ => None
  }

  lemma WorkersChange(s: State, step: Step)
    requires Enabled(s, step)
    ensures var t, c := Apply(s, step), WorkerOf(step);
            if c.None? then t.workers == s.workers
            else c.value < |s.workers| == |t.workers| && t.workers == s.workers[c.value := t.workers[c.value]]
  {
  }

  lemma ProducersChange(s: State, step: Step)
    requires Enabled(s, step)
    ensures var t, c := Apply(s, step), ProducerOf(step);
            if c.None? then t.producers == s.producers
            else c.value < |s.producers| == |t.producers| && t.producers == s.producers[c.value := t.producers[c.value]]
  {
  }

  lemma WorkersCounted(s: State, step: Step, p: WorkerPc -> bool)
    requires Enabled(s, step)
    ensures var t, c := Apply(s, step), WorkerOf(step);
            && |t.workers| == |s.workers|
            && (c.None? ==> Count(t.workers, p) == Count(s.workers, p))
            && (c.Some? ==>
                 c.value < |s.workers| &&
                 Count(t.workers, p) == Count(s.workers, p) - One(p(s.workers[c.value])) + One(p(t.workers[c.value])))
  {
    WorkersChange(s, step);
    hide Apply, Enabled;
    var t, c := Apply(s, step), WorkerOf(step);
    if c.Some? {
      CountUpdate(s.workers, c.value, t.workers[c.value], p);
    }
  }

  lemma ProducersCounted(s: State, step: Step, p: ProducerPc -> bool)
    requires Enabled(s, step)
    ensures var t, c := Apply(s, step), ProducerOf(step);
            && |t.producers| == |s.producers|
            && (c.None? ==> Count(t.producers, p) == Count(s.producers, p))
            && (c.Some? ==>
                 c.value < |s.producers| &&
                 Count(t.producers, p) == Count(s.producers, p) - One(p(s.producers[c.value]))
                   + One(p(t.producers[c.value])))
  {
    ProducersChange(s, step);
    hide Apply, Enabled;
    var t, c := Apply(s, step), ProducerOf(step);
    if c.Some? {
      CountUpdate(s.producers, c.value, t.producers[c.value], p);
    }
  }

  /** What the step of a worker does to the locks. */
  lemma WorkerLocks(s: State, i: nat)
    requires WorkerReady(s, i)
    ensures var t := WorkerMove(s, i);
            && t.producers == s.producers && |t.workers| == |s.workers| && t.workers == s.workers[i := t.workers[i]]
            && (if WorkerInside(t.workers[i]) then
                  t.mutex == if WorkerInside(s.workers[i]) then s.mutex else Some(Worker(i))
                else
                  t.mutex == if WorkerInside(s.workers[i]) then None else s.mutex)
            && (if ExecInside(t.workers[i]) then
                  t.execMutex == if ExecInside(s.workers[i]) then s.execMutex else Some(Worker(i))
                else
                  t.execMutex == if ExecInside(s.workers[i]) then None else s.execMutex)
            && (WorkerInside(t.workers[i]) && !WorkerInside(s.workers[i]) ==> s.mutex.None?)
            && (ExecInside(t.workers[i]) && !ExecInside(s.workers[i]) ==> s.execMutex.None?)
  {
  }

  lemma ProducerLocks(s: State, j: nat)
    requires ProducerReady(s, j)
    ensures var t := ProducerMove(s, j);
            && t.workers == s.workers && |t.producers| == |s.producers|
              && t.producers == s.producers[j := t.producers[j]]
            && t.execMutex == s.execMutex
            && (if ProducerInside(t.producers[j]) then
                  t.mutex == if ProducerInside(s.producers[j]) then s.mutex else Some(Producer(j))
                else
                  t.mutex == if ProducerInside(s.producers[j]) then None else s.mutex)
            && (ProducerInside(t.producers[j]) && !ProducerInside(s.producers[j]) ==> s.mutex.None?)
  {
  }

  lemma WorkerMutexKept(s: State, i: nat)
    requires WorkerReady(s, i) && MutexHeld(s)
    ensures MutexHeld(WorkerMove(s, i))
  {
    WorkerLocks(s, i);
    assert WorkerInside(s.workers[i]) <==> s.mutex == Some(Worker(i));
    hide WorkerMove;
  }

  lemma ProducerMutexKept(s: State, j: nat)
    requires ProducerReady(s, j) && MutexHeld(s)
    ensures MutexHeld(ProducerMove(s, j))
  {
    ProducerLocks(s, j);
    assert ProducerInside(s.producers[j]) <==> s.mutex == Some(Producer(j));
    hide ProducerMove;
  }

  lemma MutexKept(s: State, step: Step)
    requires Enabled(s, step) && MutexHeld(s)
    ensures MutexHeld(Apply(s, step))
  {
    hide WorkerMove, ProducerMove;
    match step
    case WorkerStep(i) =>
      WorkerMutexKept(s, i);
    case ProducerStep(j) =>
      ProducerMutexKept(s, j);
    case _ =>
  }

  lemma ExecMutexKept(s: State, step: Step)
    requires Enabled(s, step) && ExecMutexHeld(s)
    ensures ExecMutexHeld(Apply(s, step))
  {
    hide WorkerMove, ProducerMove;
    match step
    case WorkerStep(i) =>
      WorkerLocks(s, i);
      assert ExecInside(s.workers[i]) <==> s.execMutex == Some(Worker(i));
    case ProducerStep(j) =>
      ProducerLocks(s, j);
    case _ =>
  }

  /** What the step of a worker does to the queue, against where the worker stands. */
  lemma WorkerWork(s: State, i: nat)
    requires WorkerReady(s, i)
    ensures var t, pc, pc' := WorkerMove(s, i), s.workers[i], WorkerMove(s, i).workers[i];
            && t.producers == s.producers && t.workers == s.workers[i := pc']
            && !pc.WSleep? && (pc'.WSleep? ==> t.queue == [])
            && (!pc'.WSleep? ==> |t.queue| - One(Looking(pc')) <= |s.queue| - One(Looking(pc)))
            && |s.queue| + One(Freeing(pc)) <= |t.queue| + One(Freeing(pc'))
  {
  }

  lemma ProducerWork(s: State, j: nat)
    requires ProducerReady(s, j)
    ensures var t, pc, pc' := ProducerMove(s, j), s.producers[j], ProducerMove(s, j).producers[j];
            && t.workers == s.workers && t.producers == s.producers[j := pc']
            && !pc.PSleep? && (pc'.PSleep? ==> |t.queue| == MAX_TASK_NUM)
            && (!pc'.PSleep? ==> |s.queue| + One(Retrying(pc)) <= |t.queue| + One(Retrying(pc')))
            && |t.queue| - One(Announcing(pc')) <= |s.queue| - One(Announcing(pc))
  {
  }

  lemma NoTaskForgottenKept(s: State, step: Step)
    requires Enabled(s, step) && NoTaskForgotten(s)
    ensures NoTaskForgotten(Apply(s, step))
  {
    WorkersCounted(s, step, Looking);
    ProducersCounted(s, step, Announcing);
    hide WorkerMove, ProducerMove, Count;
    match step
    case WorkerStep(i) =>
      WorkerWork(s, i);
    case ProducerStep(j) =>
      ProducerWork(s, j);
    case _ =>
  }

  lemma NoSlotForgottenKept(s: State, step: Step)
    requires Enabled(s, step) && NoSlotForgotten(s)
    ensures NoSlotForgotten(Apply(s, step))
  {
    WorkersCounted(s, step, Freeing);
    ProducersCounted(s, step, Retrying);
    hide WorkerMove, ProducerMove, Count;
    match step
    case WorkerStep(i) =>
      WorkerWork(s, i);
    case ProducerStep(j) =>
      ProducerWork(s, j);
    case _ =>
  }

  // ---------------------------------------------------------------- bounds, tasks and the counter are kept

  lemma WorkerBounds(s: State, i: nat)
    requires WorkerReady(s, i)
    ensures var t, pc' := WorkerMove(s, i), WorkerMove(s, i).workers[i];
            && (t.queue != s.queue ==> WorkerInside(s.workers[i]) && |t.queue| < |s.queue|)
            && (pc'.WTake? ==> t.queue != [])
  {
  }

  lemma ProducerBounds(s: State, j: nat)
    requires ProducerReady(s, j) && |s.queue| <= MAX_TASK_NUM
    ensures var t, pc' := ProducerMove(s, j), ProducerMove(s, j).producers[j];
            && (t.queue != s.queue ==> ProducerInside(s.producers[j]) && |t.queue| > |s.queue|)
            && |t.queue| <= MAX_TASK_NUM && (pc'.PPut? ==> |t.queue| < MAX_TASK_NUM)
  {
  }

  lemma BoundedKept(s: State, step: Step)
    requires Enabled(s, step) && MutexHeld(s) && Bounded(s)
    ensures Bounded(Apply(s, step))
  {
    hide WorkerMove, ProducerMove;
    match step
    case WorkerStep(i) =>
      WorkerLocks(s, i);
      WorkerBounds(s, i);
      assert WorkerInside(s.workers[i]) <==> s.mutex == Some(Worker(i));
    case ProducerStep(j) =>
      ProducerLocks(s, j);
      ProducerBounds(s, j);
      assert ProducerInside(s.producers[j]) <==> s.mutex == Some(Producer(j));
    case _ =>
  }

  lemma Regroup(h: multiset<Task>, r: multiset<Task>, r': multiset<Task>, x: multiset<Task>, y: multiset<Task>)
    requires r' + x == r + y
    ensures (h + r') + x == (h + r) + y
  {
    assert (h + r') + x == h + (r' + x);
    assert (h + r) + y == h + (r + y);
  }

  lemma {:induction false} InHandsUpdate(ws: seq<WorkerPc>, i: nat, pc: WorkerPc)
    requires i < |ws|
    ensures InHands(ws[i := pc]) + InHand(ws[i]) == InHands(ws) + InHand(pc)
  {
    hide InHand;
    if i == 0 {
      assert ws[i := pc][1..] == ws[1..];
    } else {
      InHandsUpdate(ws[1..], i - 1, pc);
      assert ws[i := pc][1..] == ws[1..][i - 1 := pc];
      Regroup(InHand(ws[0]), InHands(ws[1..]), InHands(ws[1..][i - 1 := pc]), InHand(ws[i]), InHand(pc));
    }
  }

  lemma CarryQueue(s: State, i: nat)
    requires WorkerReady(s, i) && !s.workers[i].WTake? && !s.workers[i].Run?
    ensures var t := WorkerMove(s, i);
            t.added == s.added && t.taken == s.taken && t.queue == s.queue && t.finished == s.finished
  {
    hide InHand;
  }

  lemma CarryHand(s: State, i: nat)
    requires WorkerReady(s, i) && !s.workers[i].WTake? && !s.workers[i].Run?
    ensures InHand(WorkerMove(s, i).workers[i]) == InHand(s.workers[i])
  {
    hide SetWorker;
  }

  /** A worker that takes nothing and finishes nothing leaves all tasks where they are. */
  lemma CarryTask(s: State, i: nat)
    requires WorkerReady(s, i) && !s.workers[i].WTake? && !s.workers[i].Run?
    ensures var t := WorkerMove(s, i);
            && t.added == s.added && t.taken == s.taken && t.queue == s.queue
            && t.finished == s.finished && InHand(t.workers[i]) == InHand(s.workers[i])
  {
    hide WorkerMove, InHand;
    CarryQueue(s, i);
    CarryHand(s, i);
  }

  lemma FinishTask(s: State, i: nat)
    requires WorkerReady(s, i) && s.workers[i].Run?
    ensures var t := WorkerMove(s, i);
            && t.added == s.added && t.taken == s.taken && t.queue == s.queue
            && t.finished == s.finished + InHand(s.workers[i]) && InHand(t.workers[i]) == multiset{}
  {
  }

  lemma TakeTask(s: State, i: nat)
    requires WorkerReady(s, i) && s.workers[i].WTake?
    ensures var t, task := WorkerMove(s, i), s.queue[0];
            && t.added == s.added && t.taken == s.taken + [task] && t.taken + t.queue == s.taken + s.queue
            && t.finished == s.finished && InHand(s.workers[i]) == multiset{} && InHand(t.workers[i]) == multiset{task}
  {
    assert s.queue == [s.queue[0]] + s.queue[1..];
  }

  lemma ProducerTasks(s: State, j: nat)
    requires ProducerReady(s, j)
    ensures var t := ProducerMove(s, j);
            && t.taken == s.taken && t.finished == s.finished && t.executing == s.executing
            && (s.taken + s.queue == s.added ==> t.taken + t.queue == t.added)
  {
  }

  /** The account of taken tasks, when one worker's hand and one of the two records change. */
  lemma Account(taken: seq<Task>, done: multiset<Task>, hands: multiset<Task>, old_: multiset<Task>,
                taken': seq<Task>, done': multiset<Task>, hands': multiset<Task>, new_: multiset<Task>)
    requires multiset(taken) == done + hands && hands' + old_ == hands + new_
    requires (taken' == taken && done' + new_ == done + old_)
             || (exists task ::
                   taken' == taken + [task] && done' == done && old_ == multiset{} && new_ == multiset{task})
    ensures multiset(taken') == done' + hands'
  {
    if taken' == taken && done' + new_ == done + old_ {
      assert forall x :: hands'[x] + old_[x] == (hands' + old_)[x] == (hands + new_)[x] == hands[x] + new_[x];
      assert forall x :: done'[x] + new_[x] == (done' + new_)[x] == (done + old_)[x] == done[x] + old_[x];
      assert forall x :: (done' + hands')[x] == done'[x] + hands'[x];
      assert forall x :: (done + hands)[x] == done[x] + hands[x];
    } else {
      assert multiset(taken') == multiset(taken) + new_;
      assert hands' == hands + new_;
    }
  }

  lemma ConservedKept(s: State, step: Step)
    requires Enabled(s, step) && Conserved(s)
    ensures Conserved(Apply(s, step))
  {
    var t, c := Apply(s, step), WorkerOf(step);
    WorkersChange(s, step);
    if c.Some? {
      InHandsUpdate(s.workers, c.value, t.workers[c.value]);
      var pc, pc' := s.workers[c.value], t.workers[c.value];
      StepTasks(s, step);
      hide Apply, Enabled, InHands, InHand;
      Account(s.taken, s.finished, InHands(s.workers), InHand(pc), t.taken, t.finished, InHands(t.workers),
              InHand(pc'));
    }
    if step.ProducerStep? {
      ProducerTasks(s, step.j);
    }
  }

  lemma StepTasks(s: State, step: Step)
    requires Enabled(s, step) && WorkerOf(step).Some?
    ensures var t, i := Apply(s, step), WorkerOf(step).value;
            && i < |s.workers| == |t.workers|
            && (s.taken + s.queue == s.added ==> t.taken + t.queue == t.added)
            && (if s.workers[i].WTake? then
                  && s.queue != [] && t.taken == s.taken + [s.queue[0]] && t.finished == s.finished
                  && InHand(s.workers[i]) == multiset{} && InHand(t.workers[i]) == multiset{s.queue[0]}
                else
                  t.taken == s.taken && t.finished + InHand(t.workers[i]) == s.finished + InHand(s.workers[i]))
  {
    WorkersChange(s, step);
    hide WorkerMove, ProducerMove;
    if step.WorkerStep? {
      if s.workers[step.i].WTake? {
        TakeTask(s, step.i);
      } else if s.workers[step.i].Run? {
        FinishTask(s, step.i);
      } else {
        CarryTask(s, step.i);
      }
    }
  }

  lemma WorkerCounter(s: State, i: nat)
    requires WorkerReady(s, i)
    requires var pc := s.workers[i]; pc.IncStore? || pc.DecStore? ==> pc.seen == s.executing
    ensures var t, pc, pc' := WorkerMove(s, i), s.workers[i], WorkerMove(s, i).workers[i];
            && t.executing == s.executing - One(Executing(pc)) + One(Executing(pc'))
            && (t.executing != s.executing ==> ExecInside(pc))
            && (pc'.IncStore? || pc'.DecStore? ==> pc'.seen == t.executing)
  {
  }

  lemma CountedKept(s: State, step: Step)
    requires Enabled(s, step) && ExecMutexHeld(s) && Counted(s)
    ensures Counted(Apply(s, step))
  {
    WorkersCounted(s, step, Executing);
    hide WorkerMove, ProducerMove, Count;
    match step
    case WorkerStep(i) =>
      WorkerLocks(s, i);
      WorkerCounter(s, i);
      assert ExecInside(s.workers[i]) <==> s.execMutex == Some(Worker(i));
    case ProducerStep(j) =>
      ProducerLocks(s, j);
      ProducerTasks(s, j);
    case _ =>
  }
}
