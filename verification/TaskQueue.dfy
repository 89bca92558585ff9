/**
 The array behind the task queue, and the critical sections of `threadStarter` and `addTask` that change it.
 */
module TaskQueue {
  import opened ThreadPool

  class Queue {
    const tasks: array<Task>
    var count: int

    ghost predicate Valid()
      reads this
    {
      tasks.Length == MAX_TASK_NUM && 0 <= count <= MAX_TASK_NUM
    }

    ghost function Contents(): seq<Task>
      reads this, tasks
      requires Valid()
    {
      tasks[..count]
    }

    constructor ()
      ensures Valid() && Contents() == [] && fresh(tasks)
    {
      tasks := new Task[MAX_TASK_NUM](_ => Task(0, 0));
      count := 0;
    }

    /** The oldest task leaves and all others move up by one. */
    method Take() returns (task: Task)
      requires Valid() && count > 0
      modifies `count, tasks
      ensures Valid() && task == old(Contents())[0] && Contents() == old(Contents())[1..]
    {
      task := tasks[0];
      var i := 0;
      while i < count - 1
        invariant count == old(count) && 0 <= i <= count - 1
        invariant forall k :: 0 <= k < i ==> tasks[k] == old(tasks[k + 1])
        invariant forall k :: i <= k < MAX_TASK_NUM ==> tasks[k] == old(tasks[k])
      {
        tasks[i] := tasks[i + 1];
        i := i + 1;
      }
      count := count - 1;
    }

    method Put(task: Task)
      requires Valid() && count < MAX_TASK_NUM
      modifies `count, tasks
      ensures Valid() && Contents() == old(Contents()) + [task]
    {
      tasks[count] := task;
      count := count + 1;
    }

    /** The two sections are the queue steps of the pool: what they leave behind is what the step does. */
    method TakeStep(ghost s: State, ghost i: nat) returns (task: Task)
      requires Valid() && Contents() == s.queue && WorkerReady(s, i) && s.workers[i].WTake?
      modifies `count, tasks
      ensures Valid() && Contents() == WorkerMove(s, i).queue && WorkerMove(s, i).workers[i] == WUnlock(task)
    {
      task := Take();
    }

    method PutStep(task: Task, ghost s: State, ghost j: nat)
      requires Valid() && Contents() == s.queue && ProducerReady(s, j) && s.producers[j] == PPut(task)
      modifies `count, tasks
      ensures Valid() && Contents() == ProducerMove(s, j).queue
    {
      Put(task);
    }
  }
}
