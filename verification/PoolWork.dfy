/**
 Where the tasks are that producers were given, and that there are runs in which any work gets done.
 */
module PoolWork {
  import opened Bytes
  import opened ThreadPool
  import opened PoolRuns

  // ---------------------------------------------------------------- every task given to a producer

  /** What a producer has not put into the queue yet. */
  function Carried(pc: ProducerPc): multiset<Task> {
    match pc
    case PLock(task) => multiset{task}
    case PCheck(task) => multiset{task}
    case PSleep(task) => multiset{task}
    case PWoken(task) => multiset{task}
    case PPut(task) => multiset{task}
    case _ => multiset{}
  }

  function AllCarried(producers: seq<ProducerPc>): multiset<Task> {
    if producers == [] then multiset{} else Carried(producers[0]) + AllCarried(producers[1..])
  }

  lemma {:induction false} AllCarriedUpdate(ps: seq<ProducerPc>, j: nat, pc: ProducerPc)
    requires j < |ps|
    ensures AllCarried(ps[j := pc]) + Carried(ps[j]) == AllCarried(ps) + Carried(pc)
  {
    hide Carried;
    if j == 0 {
      assert ps[j := pc][1..] == ps[1..];
    } else {
      AllCarriedUpdate(ps[1..], j - 1, pc);
      assert ps[j := pc][1..] == ps[1..][j - 1 := pc];
      Regroup(Carried(ps[0]), AllCarried(ps[1..]), AllCarried(ps[1..][j - 1 := pc]), Carried(ps[j]), Carried(pc));
    }
  }

  lemma {:induction false} NothingCarried(ps: seq<ProducerPc>)
    requires forall j :: 0 <= j < |ps| ==> ps[j].Idle?
    ensures AllCarried(ps) == multiset{}
  {
    if ps == [] {
    } else {
      NothingCarried(ps[1..]);
    }
  }

  function New(step: Step): multiset<Task> {
    if step.Submit? then multiset{step.task} else multiset{}
  }

  /** The tasks that producers were given. */
  function Given(steps: seq<Step>): multiset<Task> {
    if steps == [] then multiset{} else Given(steps[..|steps| - 1]) + New(steps[|steps| - 1])
  }

  lemma CarriedByEach(task: Task)
    ensures Carried(Idle) == Carried(PUnlock) == Carried(PSignal) == multiset{}
    ensures Carried(PLock(task)) == Carried(PCheck(task)) == Carried(PSleep(task)) == multiset{task}
    ensures Carried(PWoken(task)) == Carried(PPut(task)) == multiset{task}
  {
  }

  lemma ProducerMoveCarries(s: State, j: nat)
    requires ProducerReady(s, j)
    ensures var t := ProducerMove(s, j);
            && |t.producers| == |s.producers|
            && multiset(t.added) + Carried(t.producers[j]) == multiset(s.added) + Carried(s.producers[j])
  {
    hide Carried;
    var pc := s.producers[j];
    if pc.PUnlock? {
      CarriedByEach(Task(0, 0));
    } else {
      CarriedByEach(pc.task);
      assert multiset(s.added + [pc.task]) == multiset(s.added) + multiset{pc.task};
    }
  }

  lemma WakeCarries(s: State, woken: nat)
    requires WakesProducer(s, Some(woken))
    ensures var t := WakeProducer(s, Some(woken));
            && t.added == s.added && |t.producers| == |s.producers|
            && Carried(t.producers[woken]) == Carried(s.producers[woken])
  {
    CarriedByEach(s.producers[woken].task);
    hide Carried;
  }

  lemma AddsNothing(s: State, i: nat)
    requires WorkerReady(s, i)
    ensures WorkerMove(s, i).added == s.added
  {
  }

  /** What a step does to one producer, and to the tasks added. */
  lemma ProducerCarries(s: State, step: Step)
    requires Enabled(s, step)
    ensures var t, c := Apply(s, step), ProducerOf(step);
            if c.None? then t.added == s.added && New(step) == multiset{}
            else
              c.value < |s.producers| == |t.producers|
              && multiset(t.added) + Carried(t.producers[c.value])
                 == multiset(s.added) + Carried(s.producers[c.value]) + New(step)
  {
    hide WorkerMove, ProducerMove, Carried, WakeProducer;
    match step
    case WorkerStep(i) =>
      AddsNothing(s, i);
    case WorkerSignal(i, woken) =>
      if woken.Some? {
        WakeCarries(SetWorker(s, i, IncLock(s.workers[i].task)), woken.value);
      } else {
        WakesNobody(SetWorker(s, i, IncLock(s.workers[i].task)));
      }
    case ProducerStep(j) =>
      ProducerMoveCarries(s, j);
    case ProducerSignal(j, woken) =>
      CarriedByEach(Task(0, 0));
    case Submit(j, task) =>
      CarriedByEach(task);
    case SpuriousWorker(_) =>
    case SpuriousProducer(j) =>
      CarriedByEach(s.producers[j].task);
  }

  lemma WakesNobody(s: State)
    requires WakesProducer(s, None)
    ensures WakeProducer(s, None) == s
  {
  }

  lemma Balance(a: multiset<Task>, a': multiset<Task>, all: multiset<Task>, all': multiset<Task>, x: multiset<Task>,
                x': multiset<Task>, new_: multiset<Task>)
    requires a' + x' == a + x + new_ && all' + x == all + x'
    ensures a' + all' == a + all + new_
  {
    forall task: Task ensures (a' + all')[task] == (a + all + new_)[task] {
      assert (a' + x')[task] == (a + x + new_)[task] && (all' + x)[task] == (all + x')[task];
    }
  }

  lemma StepCarries(s: State, step: Step)
    requires Enabled(s, step)
    ensures var t := Apply(s, step);
            multiset(t.added) + AllCarried(t.producers) == multiset(s.added) + AllCarried(s.producers) + New(step)
  {
    ProducersChange(s, step);
    ProducerCarries(s, step);
    hide Apply, Enabled, Carried, AllCarried, New;
    var t, c := Apply(s, step), ProducerOf(step);
    if c.Some? {
      AllCarriedUpdate(s.producers, c.value, t.producers[c.value]);
      Balance(multiset(s.added), multiset(t.added), AllCarried(s.producers), AllCarried(t.producers),
              Carried(s.producers[c.value]), Carried(t.producers[c.value]), New(step));
    }
  }

  lemma {:induction false} GivenIsAddedOrCarried(states: seq<State>, steps: seq<Step>, k: nat)
    requires IsRun(states, steps) && k < |states|
    ensures Given(steps[..k]) == multiset(states[k].added) + AllCarried(states[k].producers)
  {
    hide Enabled, Apply, New;
    if k == 0 {
      NothingCarried(states[0].producers);
    } else {
      GivenIsAddedOrCarried(states, steps, k - 1);
      StepCarries(states[k - 1], steps[k - 1]);
      assert steps[..k][..k - 1] == steps[..k - 1];
    }
  }

  /** At any point of any run each task given to a producer is with it, queued, in one hand, or finished. */
  lemma NoTaskIsLost(states: seq<State>, steps: seq<Step>, k: nat)
    requires IsRun(states, steps) && k < |states|
    ensures var s := states[k];
            Given(steps[..k]) == AllCarried(s.producers) + multiset(s.queue) + InHands(s.workers) + s.finished
  {
    hide Enabled, Apply, Given, AllCarried, InHands;
    GivenIsAddedOrCarried(states, steps, k);
    FirstInFirstOut(states, steps, k);
  }

  // ---------------------------------------------------------------- what threads are free to do

  /** A sleeper may wake at any time, and an idle producer may be given any task; nothing else changes then. */
  lemma AnyTime(s: State, task: Task)
    ensures forall i :: 0 <= i < |s.workers| && s.workers[i].WSleep? ==>
              exists step :: Enabled(s, step) && Apply(s, step) == s.(workers := s.workers[i := WWoken])
    ensures forall j :: 0 <= j < |s.producers| && s.producers[j].PSleep? ==>
              exists step :: Enabled(s, step)
                             && Apply(s, step) == s.(producers := s.producers[j := PWoken(s.producers[j].task)])
    ensures forall j :: 0 <= j < |s.producers| && s.producers[j].Idle? ==>
              exists step :: Enabled(s, step) && Apply(s, step) == s.(producers := s.producers[j := PLock(task)])
  {
    forall i | 0 <= i < |s.workers| && s.workers[i].WSleep?
      ensures exists step :: Enabled(s, step) && Apply(s, step) == s.(workers := s.workers[i := WWoken])
    {
      assert Enabled(s, SpuriousWorker(i));
    }
    forall j | 0 <= j < |s.producers| && s.producers[j].PSleep?
      ensures exists step :: Enabled(s, step)
                             && Apply(s, step) == s.(producers := s.producers[j := PWoken(s.producers[j].task)])
    {
      assert Enabled(s, SpuriousProducer(j));
    }
    forall j | 0 <= j < |s.producers| && s.producers[j].Idle?
      ensures exists step :: Enabled(s, step) && Apply(s, step) == s.(producers := s.producers[j := PLock(task)])
    {
      assert Enabled(s, Submit(j, task));
    }
  }

  lemma {:induction false} Longer(states: seq<State>, steps: seq<Step>, step: Step)
    requires IsRun(states, steps) && Enabled(states[|steps|], step)
    ensures IsRun(states + [Apply(states[|steps|], step)], steps + [step])
    ensures Given(steps + [step]) == Given(steps) + New(step)
  {
    hide Enabled, Apply, Initial, New;
    assert (steps + [step])[..|steps|] == steps;
  }

  /** Any run goes on to a point at which no thread can go on by itself. */
  lemma {:induction false} RunOn(states: seq<State>, steps: seq<Step>)
    returns (states': seq<State>, steps': seq<Step>)
    requires IsRun(states, steps)
    ensures IsRun(states', steps') && states <= states' && Stuck(states'[|steps'|])
    ensures Given(steps') == Given(steps)
    decreases Remaining(states[|steps|])
  {
    hide Enabled, Apply, Remaining, IsRun, Given;
    assert |states| == |steps| + 1 by {
      RunLength(states, steps);
    }
    var s := states[|steps|];
    if step :| Enabled(s, step) && Ordinary(step) {
      Longer(states, steps, step);
      StepProgress(s, step);
      states', steps' := RunOn(states + [Apply(s, step)], steps + [step]);
    } else {
      states', steps' := states, steps;
    }
  }

  lemma RunLength(states: seq<State>, steps: seq<Step>)
    requires IsRun(states, steps)
    ensures |states| == |steps| + 1
  {
  }

  /** A queue and its contents, one task longer. */
  lemma OneMore(added: seq<Task>, tasks: seq<Task>, task: Task)
    requires tasks <= added && multiset(added) == multiset(tasks) + multiset{task}
    ensures added == tasks + [task]
  {
    var rest := added[|tasks|..];
    assert added == tasks + rest;
    assert multiset(added) == multiset(tasks) + multiset(rest);
    forall t: Task ensures multiset(rest)[t] == multiset{task}[t] {
      assert (multiset(tasks) + multiset(rest))[t] == (multiset(tasks) + multiset{task})[t];
    }
    assert multiset(rest) == multiset{task};
    assert |rest| == |multiset(rest)| == 1 && rest[0] in multiset(rest);
  }

  /** Where no thread can go on, all that producers were given is finished. */
  lemma {:induction false} AtTheEnd(states: seq<State>, steps: seq<Step>)
    requires IsRun(states, steps) && states[0].workers != [] && Stuck(states[|steps|])
    ensures var last := states[|steps|];
            && Quiet(last) && last.taken == last.added
            && last.finished == multiset(last.added) == Given(steps)
  {
    hide Enabled, Apply, Stuck, Given, AllCarried;
    NoDeadlock(states, steps, |steps|);
    GivenIsAddedOrCarried(states, steps, |steps|);
    NothingCarried(states[|steps|].producers);
    assert steps[..|steps|] == steps;
  }

  function Start(workers: nat, producers: nat): (s: State)
    ensures Initial(s) && |s.workers| == workers && |s.producers| == producers
  {
    State(None, None, [], 0, seq(workers, _ => WLock), seq(producers, _ => Idle), [], [], multiset{})
  }

  /** One more task, given to the first producer at the end of a run. */
  lemma {:induction false} OneMoreTask(states: seq<State>, steps: seq<Step>, task: Task)
    returns (states': seq<State>, steps': seq<Step>)
    requires IsRun(states, steps) && states[0].workers != [] && states[0].producers != [] && Stuck(states[|steps|])
    ensures IsRun(states', steps') && states'[0] == states[0] && Stuck(states'[|steps'|])
    ensures states'[|steps'|].added == states[|steps|].added + [task]
  {
    hide Enabled, Apply, Stuck, Given, Initial;
    AtTheEnd(states, steps);
    RecordsGrow(states, steps, 0, |steps|);
    var last := states[|steps|];
    GivenToFirst(last, task);
    Longer(states, steps, Submit(0, task));
    states', steps' := RunOn(states + [Apply(last, Submit(0, task))], steps + [Submit(0, task)]);
    AtTheEnd(states', steps');
    assert states'[|steps|] == last && states'[0] == states[0];
    RecordsGrow(states', steps', |steps|, |steps'|);
    OneMore(states'[|steps'|].added, last.added, task);
  }

  lemma GivenToFirst(s: State, task: Task)
    requires Quiet(s) && s.producers != []
    ensures Enabled(s, Submit(0, task))
  {
  }

  /** With a worker and a producer, any tasks are added, taken and finished, in their order, in some run. */
  lemma {:induction false} AnyWorkIsDone(workers: nat, producers: nat, tasks: seq<Task>)
    returns (states: seq<State>, steps: seq<Step>)
    requires workers > 0 && producers > 0
    ensures IsRun(states, steps) && |states[0].workers| == workers && |states[0].producers| == producers
    ensures var last := states[|steps|];
            Stuck(last) && Quiet(last) && last.added == last.taken == tasks && last.finished == multiset(tasks)
    decreases |tasks|
  {
    hide Enabled, Apply, Stuck, Given, Quiet, Initial;
    if tasks == [] {
      states, steps := RunOn([Start(workers, producers)], []);
      AtTheEnd(states, steps);
      NothingGiven();
    } else {
      var n := |tasks| - 1;
      states, steps := AnyWorkIsDone(workers, producers, tasks[..n]);
      states, steps := OneMoreTask(states, steps, tasks[n]);
      AtTheEnd(states, steps);
      assert tasks == tasks[..n] + [tasks[n]];
    }
  }

  lemma NothingGiven()
    ensures Given([]) == multiset{}
  {
  }
}
