/**
 What holds at every point of every run of the thread pool.
 */
module PoolRuns {
  import opened Bytes
  import opened Counting
  import opened ThreadPool

  ghost predicate Sound(s: State) {
    MutexHeld(s) && ExecMutexHeld(s) && Bounded(s) && Conserved(s) && Counted(s) && NoTaskForgotten(s)
      && NoSlotForgotten(s)
  }

  lemma {:induction false} NothingInHand(ws: seq<WorkerPc>)
    requires forall i :: 0 <= i < |ws| ==> ws[i].WLock? || ws[i].WSleep?
    ensures InHands(ws) == multiset{}
  {
    if ws == [] {
    } else {
      NothingInHand(ws[1..]);
    }
  }

  lemma InitialSound(s: State)
    requires Initial(s)
    ensures Sound(s)
  {
    CountNone(s.workers, Executing);
    NothingInHand(s.workers);
  }

  lemma SoundKept(s: State, step: Step)
    requires Enabled(s, step) && Sound(s)
    ensures Sound(Apply(s, step))
  {
    MutexKept(s, step);
    ExecMutexKept(s, step);
    BoundedKept(s, step);
    ConservedKept(s, step);
    CountedKept(s, step);
    NoTaskForgottenKept(s, step);
    NoSlotForgottenKept(s, step);
  }

  lemma {:induction false} RunIsSound(states: seq<State>, steps: seq<Step>, k: nat)
    requires IsRun(states, steps) && k < |states|
    ensures Sound(states[k])
  {
    hide Sound, Enabled, Apply;
    if k == 0 {
      InitialSound(states[0]);
    } else {
      RunIsSound(states, steps, k - 1);
      SoundKept(states[k - 1], steps[k - 1]);
    }
  }

  /** At most one thread is inside the sections of each mutex. */
  lemma MutualExclusion(states: seq<State>, steps: seq<Step>, k: nat)
    requires IsRun(states, steps) && k < |states|
    ensures var ws, ps := states[k].workers, states[k].producers;
            && (forall a, b :: 0 <= a < b < |ws| ==> !(WorkerInside(ws[a]) && WorkerInside(ws[b])))
            && (forall a, b :: 0 <= a < b < |ps| ==> !(ProducerInside(ps[a]) && ProducerInside(ps[b])))
            && (forall a, b :: 0 <= a < |ws| && 0 <= b < |ps| ==> !(WorkerInside(ws[a]) && ProducerInside(ps[b])))
            && (forall a, b :: 0 <= a < b < |ws| ==> !(ExecInside(ws[a]) && ExecInside(ws[b])))
  {
    hide Enabled, Apply;
    RunIsSound(states, steps, k);
  }

  /**
   While a worker sleeps, the signals still to come and the workers that will look at the queue first are
   enough for every queued task; while a producer sleeps, the same holds of the free slots.
   */
  lemma NoWakeUpIsLost(states: seq<State>, steps: seq<Step>, k: nat)
    requires IsRun(states, steps) && k < |states|
    ensures var s := states[k];
            && ((exists i :: 0 <= i < |s.workers| && s.workers[i].WSleep?) ==>
                  |s.queue| <= Count(s.producers, Announcing) + Count(s.workers, Looking))
            && ((exists j :: 0 <= j < |s.producers| && s.producers[j].PSleep?) ==>
                  1000 - |s.queue| <= Count(s.workers, Freeing) + Count(s.producers, Retrying))
  {
    hide Enabled, Apply;
    RunIsSound(states, steps, k);
  }

  /**
   Tasks leave in the order in which they came; each is queued, in one hand, or finished; the queue fits its array.
   */
  lemma FirstInFirstOut(states: seq<State>, steps: seq<Step>, k: nat)
    requires IsRun(states, steps) && k < |states|
    ensures var s := states[k];
            && s.taken + s.queue == s.added && |s.queue| <= 1000
            && multiset(s.added) == multiset(s.queue) + InHands(s.workers) + s.finished
  {
    hide Enabled, Apply;
    RunIsSound(states, steps, k);
    assert multiset(states[k].taken + states[k].queue) == multiset(states[k].taken) + multiset(states[k].queue);
  }

  /** The records only grow, so the order of taking over a run is the order of adding. */
  lemma {:induction false} RecordsGrow(states: seq<State>, steps: seq<Step>, j: nat, k: nat)
    requires IsRun(states, steps) && j <= k < |states|
    ensures states[j].taken <= states[k].taken && states[j].added <= states[k].added
    ensures states[j].finished <= states[k].finished
    ensures |states[j].workers| == |states[k].workers| && |states[j].producers| == |states[k].producers|
  {
    hide Enabled, Apply, Initial;
    if j == k {
    } else {
      RecordsGrow(states, steps, j, k - 1);
      assert states[k] == Apply(states[k - 1], steps[k - 1]);
      StepRecords(states[k - 1], steps[k - 1]);
    }
  }

  lemma StepRecords(s: State, step: Step)
    requires Enabled(s, step)
    ensures var t := Apply(s, step);
            && s.taken <= t.taken && s.added <= t.added && s.finished <= t.finished
            && |s.workers| == |t.workers| && |s.producers| == |t.producers|
  {
  }

  /** `num_threads_executing` is the number of workers between the two counter sections. */
  lemma CounterIsExact(states: seq<State>, steps: seq<Step>, k: nat)
    requires IsRun(states, steps) && k < |states|
    ensures states[k].executing == Count(states[k].workers, Executing)
    ensures 0 <= states[k].executing <= |states[0].workers|
  {
    hide Enabled, Apply;
    RunIsSound(states, steps, k);
    RecordsGrow(states, steps, 0, k);
  }

  // ---------------------------------------------------------------- no deadlock

  /** The steps threads take of themselves: no new task, no wake-up without a signal. */
  predicate Ordinary(step: Step) {
    step.WorkerStep? || step.WorkerSignal? || step.ProducerStep? || step.ProducerSignal?
  }

  ghost predicate Stuck(s: State) {
    forall step :: Enabled(s, step) ==> !Ordinary(step)
  }

  /** All work is done and everybody waits for more. */
  ghost predicate Quiet(s: State) {
    && s.queue == []
    && (forall i :: 0 <= i < |s.workers| ==> s.workers[i].WSleep?)
    && (forall j :: 0 <= j < |s.producers| ==> s.producers[j].Idle?)
  }

  /** The holder of a lock can move. */
  lemma HolderMoves(s: State) returns (step: Step)
    requires Sound(s) && (s.mutex.Some? || s.execMutex.Some?)
    ensures Enabled(s, step) && Ordinary(step)
  {
    if s.mutex.Some? && s.mutex.value.Worker? {
      var i := s.mutex.value.i;
      assert WorkerInside(s.workers[i]);
      step := WorkerStep(i);
    } else if s.mutex.Some? {
      var j := s.mutex.value.j;
      assert ProducerInside(s.producers[j]);
      step := ProducerStep(j);
    } else {
      var i := s.execMutex.value.i;
      assert ExecInside(s.workers[i]);
      step := WorkerStep(i);
    }
  }

  /** With the locks free, a worker that does not sleep can move: a signal can always be sent. */
  lemma WorkerMoves(s: State, i: nat) returns (step: Step)
    requires s.mutex.None? && s.execMutex.None? && i < |s.workers| && !s.workers[i].WSleep?
    requires s.workers[i].WTake? ==> s.queue != []
    ensures Enabled(s, step) && Ordinary(step)
  {
    if !s.workers[i].WSignal? {
      step := WorkerStep(i);
    } else if j :| 0 <= j < |s.producers| && s.producers[j].PSleep? {
      step := WorkerSignal(i, Some(j));
    } else {
      step := WorkerSignal(i, None);
    }
  }

  lemma ProducerMoves(s: State, j: nat) returns (step: Step)
    requires s.mutex.None? && j < |s.producers| && !s.producers[j].PSleep? && !s.producers[j].Idle?
    requires s.producers[j].PPut? ==> |s.queue| < MAX_TASK_NUM
    ensures Enabled(s, step) && Ordinary(step)
  {
    if !s.producers[j].PSignal? {
      step := ProducerStep(j);
    } else if i :| 0 <= i < |s.workers| && s.workers[i].WSleep? {
      step := ProducerSignal(j, Some(i));
    } else {
      step := ProducerSignal(j, None);
    }
  }

  /** If nobody can move then nobody holds a lock. */
  lemma StuckLocksFree(s: State)
    requires Sound(s) && Stuck(s)
    ensures s.mutex.None? && s.execMutex.None?
  {
    hide Enabled, MutexHeld, ExecMutexHeld;
    if s.mutex.Some? || s.execMutex.Some? {
      var step := HolderMoves(s);
    }
  }

  /** A thread that cannot move waits. */
  lemma StuckWorkerSleeps(s: State, i: nat)
    requires Sound(s) && Stuck(s) && i < |s.workers|
    ensures s.workers[i].WSleep?
  {
    StuckLocksFree(s);
    assert !s.workers[i].WTake?;
    hide Enabled;
    if !s.workers[i].WSleep? {
      var step := WorkerMoves(s, i);
    }
  }

  lemma StuckProducerWaits(s: State, j: nat)
    requires Sound(s) && Stuck(s) && j < |s.producers|
    ensures s.producers[j].PSleep? || s.producers[j].Idle?
  {
    StuckLocksFree(s);
    assert !s.producers[j].PPut?;
    hide Enabled;
    if !s.producers[j].PSleep? && !s.producers[j].Idle? {
      var step := ProducerMoves(s, j);
    }
  }

  lemma StuckIsQuiet(s: State)
    requires Sound(s) && Stuck(s) && s.workers != []
    ensures Quiet(s)
  {
    hide Enabled, MutexHeld, ExecMutexHeld, Conserved, Counted, Stuck;
    forall i | 0 <= i < |s.workers| ensures s.workers[i].WSleep? {
      StuckWorkerSleeps(s, i);
    }
    forall j | 0 <= j < |s.producers| ensures s.producers[j].PSleep? || s.producers[j].Idle? {
      StuckProducerWaits(s, j);
    }
    assert s.workers[0].WSleep?;
    CountNone(s.workers, Looking);
    CountNone(s.producers, Announcing);
    CountNone(s.workers, Freeing);
    CountNone(s.producers, Retrying);
  }

  /** The pool never stops with work to do: it is stuck exactly when all is done. */
  lemma NoDeadlock(states: seq<State>, steps: seq<Step>, k: nat)
    requires IsRun(states, steps) && k < |states| && states[0].workers != []
    ensures Stuck(states[k]) <==> Quiet(states[k])
    ensures Quiet(states[k]) ==>
              states[k].taken == states[k].added && states[k].finished == multiset(states[k].added)
                && states[k].executing == 0
  {
    hide Enabled, Apply, Sound;
    var s := states[k];
    RunIsSound(states, steps, k);
    RecordsGrow(states, steps, 0, k);
    if Stuck(s) {
      StuckIsQuiet(s);
    }
    if Quiet(s) {
      QuietIsStuck(s);
      NothingInHand(s.workers);
      CountNone(s.workers, Executing);
      FirstInFirstOut(states, steps, k);
      CounterIsExact(states, steps, k);
    }
  }

  lemma QuietIsStuck(s: State)
    requires Quiet(s)
    ensures Stuck(s)
  {
  }

  // ---------------------------------------------------------------- progress

  /** How many ordinary steps a thread can still take on its own account. */
  function WorkerRank(pc: WorkerPc): nat {
    match pc
    case WSleep => 0
    case WTake => 1
    case WCheck => 2
    case WLock => 3
    case WWoken => 3
    case DecUnlock => 4
    case DecStore(_) => 5
    case DecLoad => 6
    case DecLock => 7
    case Run(_) => 8
    case IncUnlock(_) => 9
    case IncStore(_, _) => 10
    case IncLoad(_) => 11
    case IncLock(_) => 12
    case WSignal(_) => 15
    case WUnlock(_) => 16
  }

  function ProducerRank(pc: ProducerPc): nat {
    match pc
    case Idle => 0
    case PSignal => 4
    case PUnlock => 5
    case PPut(_) => 22
    case PSleep(_) => 22
    case PCheck(_) => 23
    case PLock(_) => 24
    case PWoken(_) => 24
  }

  function Remaining(s: State): nat {
    16 * |s.queue| + Sum(s.workers, WorkerRank) + Sum(s.producers, ProducerRank)
  }

  lemma WorkersSummed(s: State, step: Step)
    requires Enabled(s, step)
    ensures var t, c := Apply(s, step), WorkerOf(step);
            if c.None? then t.workers == s.workers
            else
              && c.value < |s.workers| == |t.workers|
              && Sum(t.workers, WorkerRank) + WorkerRank(s.workers[c.value])
                == Sum(s.workers, WorkerRank) + WorkerRank(t.workers[c.value])
  {
    WorkersChange(s, step);
    hide Apply, Enabled, WorkerRank;
    if WorkerOf(step).Some? {
      var i := WorkerOf(step).value;
      SumUpdate(s.workers, i, Apply(s, step).workers[i], WorkerRank);
    }
  }

  lemma ProducersSummed(s: State, step: Step)
    requires Enabled(s, step)
    ensures var t, c := Apply(s, step), ProducerOf(step);
            if c.None? then t.producers == s.producers
            else
              && c.value < |s.producers| == |t.producers|
              && Sum(t.producers, ProducerRank) + ProducerRank(s.producers[c.value])
                 == Sum(s.producers, ProducerRank) + ProducerRank(t.producers[c.value])
  {
    ProducersChange(s, step);
    hide Apply, Enabled, ProducerRank;
    if ProducerOf(step).Some? {
      var j := ProducerOf(step).value;
      SumUpdate(s.producers, j, Apply(s, step).producers[j], ProducerRank);
    }
  }

  lemma WorkerProgress(s: State, i: nat)
    requires WorkerReady(s, i)
    ensures var t := WorkerMove(s, i);
            i < |t.workers| && 16 * |t.queue| + WorkerRank(t.workers[i]) < 16 * |s.queue| + WorkerRank(s.workers[i])
  {
  }

  lemma ProducerProgress(s: State, j: nat)
    requires ProducerReady(s, j)
    ensures var t := ProducerMove(s, j);
            j < |t.producers|
            && 16 * |t.queue| + ProducerRank(t.producers[j]) < 16 * |s.queue| + ProducerRank(s.producers[j])
  {
  }

  lemma StepProgress(s: State, step: Step)
    requires Enabled(s, step) && Ordinary(step)
    ensures Remaining(Apply(s, step)) < Remaining(s)
  {
    WorkersSummed(s, step);
    ProducersSummed(s, step);
    hide WorkerMove, ProducerMove, Sum;
    match step
    case WorkerStep(i) => WorkerProgress(s, i);
    case ProducerStep(j) => ProducerProgress(s, j);
    case _ =>
  }

  /** A new task or a spurious wake-up gives a thread at most 24 more ordinary steps. */
  lemma StepDisturbs(s: State, step: Step)
    requires Enabled(s, step) && !Ordinary(step)
    ensures Remaining(Apply(s, step)) <= Remaining(s) + 24
  {
    WorkersSummed(s, step);
    ProducersSummed(s, step);
    hide WorkerMove, ProducerMove, Sum;
  }

  /** The new tasks and spurious wake-ups among some steps. */
  function Disturbances(steps: seq<Step>): nat {
    if steps == [] then 0 else (if Ordinary(steps[0]) then 0 else 1) + Disturbances(steps[1..])
  }

  /** A run goes on for only so long, and 25 steps more for each new task and spurious wake-up. */
  lemma {:induction false} RunsEnd(states: seq<State>, steps: seq<Step>, k: nat)
    requires IsRun(states, steps) && k < |states|
    ensures |steps| - k <= Remaining(states[k]) + 25 * Disturbances(steps[k..])
    decreases |steps| - k
  {
    hide Enabled, Apply, Remaining;
    if k == |steps| {
    } else {
      RunsEnd(states, steps, k + 1);
      assert steps[k..][1..] == steps[k + 1..];
      if Ordinary(steps[k]) {
        StepProgress(states[k], steps[k]);
      } else {
        StepDisturbs(states[k], steps[k]);
      }
    }
  }

  /**
   Every task is finished: from any point of any run on, the number of steps is bounded by what was left to do there
   and the new tasks and spurious wake-ups since; and where no thread can go on by itself, every task ever added
   has been taken and run.
   */
  lemma EveryTaskIsFinished(states: seq<State>, steps: seq<Step>, k: nat)
    requires IsRun(states, steps) && k < |states| && states[0].workers != []
    ensures |steps| - k <= Remaining(states[k]) + 25 * Disturbances(steps[k..])
    ensures var last := states[|steps|]; Stuck(last) ==> last.finished == multiset(last.added) && last.queue == []
  {
    hide Enabled, Apply, Remaining, Stuck, Disturbances;
    RunsEnd(states, steps, k);
    NoDeadlock(states, steps, |steps|);
  }
}
