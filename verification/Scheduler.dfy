/** The bounded thread pool (src/modules/Scheduler): tasks registered in a queue, started on free or new threads in the
    order of registration, or dropped. */
module Scheduling {

  datatype Task = Task(func: nat, name: string)

  datatype Status = Free | Running | Init

  /** A thread with the task it was last given. */
  datatype Thread = Thread(status: Status, task: Task)

  datatype Fate = Started(thread: nat) | Dropped

  /** A task taken from the queue: the threads as they were when looked at for it, and what became of it. */
  datatype Event = Event(task: Task, seen: seq<Thread>, fate: Fate)

  /** The scheduler, with the threads looked at so far for the task at the front. */
  datatype State =
    State(queue: seq<Task>, threads: seq<Thread>, seen: seq<Thread>, log: seq<Event>, finished: seq<Task>)

  const INITIAL: State := State([], [], [], [], [])

  /** The steps that interleave: registration, one look at a thread by assign_task, and what a thread does by itself. */
  datatype Step = Register(task: Task) | Look | Begin(thread: nat) | Finish(thread: nat)

  function Decide(s: State, threads: seq<Thread>, fate: Fate): State
    requires s.queue != []
  {
    State(s.queue[1..], threads, [], s.log + [Event(s.queue[0], s.seen, fate)], s.finished)
  }

  /** assign_task goes on by one thread: a free one gets the task; behind the last one a new thread gets it if there
      may be one more. */
  function Looked(s: State, max: nat): State {
    if s.queue == [] then s
    else
      var i, t := |s.seen|, s.queue[0];
      if i < |s.threads| then
        if s.threads[i].status != Free then s.(seen := s.seen + [s.threads[i]])
        else Decide(s, s.threads[i := Thread(Init, t)], Started(i))
      else if |s.threads| < max then Decide(s, s.threads + [Thread(Init, t)], Started(|s.threads|))
      else Decide(s, s.threads, Dropped)
  }

  function Next(s: State, step: Step, max: nat): State {
    match step
    case Register(t) => s.(queue := s.queue + [t])
    case Look => Looked(s, max)
    case Begin(i) =>
      if i < |s.threads| && s.threads[i].status == Init
      then s.(threads := s.threads[i := s.threads[i].(status := Running)])
      else s
    case Finish(i) =>
      if i < |s.threads| && s.threads[i].status == Running
      then s.(threads := s.threads[i := s.threads[i].(status := Free)], finished := s.finished + [s.threads[i].task])
      else s
  }

  function Run(steps: seq<Step>, max: nat): State
    decreases |steps|
  {
    if steps == [] then INITIAL else Next(Run(steps[..|steps| - 1], max), steps[|steps| - 1], max)
  }

  // ----- What every interleaving keeps -----

  function Registered(steps: seq<Step>): seq<Task>
    decreases |steps|
  {
    if steps == [] then []
    else
      var last := steps[|steps| - 1];
      Registered(steps[..|steps| - 1]) + if last.Register? then [last.task] else []
  }

  function TasksOf(log: seq<Event>): (r: seq<Task>)
    ensures |r| == |log| && forall i :: 0 <= i < |log| ==> r[i] == log[i].task
  {
    seq(|log|, i requires 0 <= i < |log| => log[i].task)
  }

  /** How often a task has been started. */
  function Starts(log: seq<Event>, x: Task): nat
    decreases |log|
  {
    if log == [] then 0
    else
      var e := log[|log| - 1];
      Starts(log[..|log| - 1], x) + if e.fate.Started? && e.task == x then 1 else 0
  }

  function Occurs(tasks: seq<Task>, x: Task): nat
    decreases |tasks|
  {
    if tasks == [] then 0 else Occurs(tasks[..|tasks| - 1], x) + if tasks[|tasks| - 1] == x then 1 else 0
  }

  function Held(t: Thread, x: Task): nat {
    if t.status != Free && t.task == x then 1 else 0
  }

  /** How many threads have been given a task and have not finished it. */
  function Busy(threads: seq<Thread>, x: Task): nat
    decreases |threads|
  {
    if threads == [] then 0 else Busy(threads[..|threads| - 1], x) + Held(threads[|threads| - 1], x)
  }

  predicate NoneFree(threads: seq<Thread>) {
    forall i :: 0 <= i < |threads| ==> threads[i].status != Free
  }

  /** A started task went to the first thread seen free or to a new one below the limit; a dropped one found as many
      threads as there may be, none of them free. */
  predicate RightFate(e: Event, max: nat) {
    && NoneFree(e.seen)
    && match e.fate
       case Started(i) => |e.seen| == i < max
       case Dropped => |e.seen| == max
  }

  /** The pool is bounded; each registered task has one fate or is queued, in the order of registration; and every
      fate is right. */
  ghost predicate Ordered(s: State, registered: seq<Task>, max: nat) {
    && |s.threads| <= max && |s.seen| <= |s.threads| && NoneFree(s.seen) && (s.queue == [] ==> s.seen == [])
    && TasksOf(s.log) + s.queue == registered
    && (forall i :: 0 <= i < |s.log| ==> RightFate(s.log[i], max))
  }

  /** Each start of a task has led to one finish of it, or a thread is still on it. */
  ghost predicate Conserved(s: State, x: Task) {
    Starts(s.log, x) == Occurs(s.finished, x) + Busy(s.threads, x)
  }

  lemma {:induction false} BusyUpdate(threads: seq<Thread>, i: nat, t: Thread, x: Task)
    requires i < |threads|
    ensures Busy(threads[i := t], x) + Held(threads[i], x) == Busy(threads, x) + Held(t, x)
    decreases |threads|
  {
    var n := |threads| - 1;
    if i < n {
      BusyUpdate(threads[..n], i, t, x);
      assert threads[i := t][..n] == threads[..n][i := t];
    } else {
      assert threads[i := t][..n] == threads[..n];
    }
  }

  lemma BusyNew(threads: seq<Thread>, t: Thread, x: Task)
    ensures Busy(threads + [t], x) == Busy(threads, x) + Held(t, x)
  {
    assert (threads + [t])[..|threads|] == threads;
  }

  lemma StartsNext(log: seq<Event>, e: Event, x: Task)
    ensures Starts(log + [e], x) == Starts(log, x) + if e.fate.Started? && e.task == x then 1 else 0
  {
    assert (log + [e])[..|log|] == log;
  }

  lemma OccursNext(tasks: seq<Task>, t: Task, x: Task)
    ensures Occurs(tasks + [t], x) == Occurs(tasks, x) + if t == x then 1 else 0
  {
    assert (tasks + [t])[..|tasks|] == tasks;
  }

  lemma NextConserved(s: State, max: nat, step: Step, x: Task)
    requires Conserved(s, x)
    ensures Conserved(Next(s, step, max), x)
  {
    hide Starts, Occurs, Busy;
    match step
    case Register(t) =>
    case Look =>
      if s.queue != [] {
        var i, t := |s.seen|, Thread(Init, s.queue[0]);
        if i < |s.threads| {
          BusyUpdate(s.threads, i, t, x);
        }
        BusyNew(s.threads, t, x);
        StartsNext(s.log, Event(s.queue[0], s.seen, Started(i)), x);
        StartsNext(s.log, Event(s.queue[0], s.seen, Started(|s.threads|)), x);
        StartsNext(s.log, Event(s.queue[0], s.seen, Dropped), x);
      }
    case Begin(i) =>
      if i < |s.threads| {
        BusyUpdate(s.threads, i, s.threads[i].(status := Running), x);
      }
    case Finish(i) =>
      if i < |s.threads| {
        BusyUpdate(s.threads, i, s.threads[i].(status := Free), x);
        OccursNext(s.finished, s.threads[i].task, x);
      }
  }

  lemma {:induction false} RunConserved(steps: seq<Step>, max: nat, x: Task)
    ensures Conserved(Run(steps, max), x)
    decreases |steps|
  {
    if steps != [] {
      RunConserved(steps[..|steps| - 1], max, x);
      NextConserved(Run(steps[..|steps| - 1], max), max, steps[|steps| - 1], x);
    }
  }

  lemma DecideOrdered(s: State, registered: seq<Task>, max: nat, threads: seq<Thread>, fate: Fate)
    requires Ordered(s, registered, max) && s.queue != [] && |threads| <= max &&
             RightFate(Event(s.queue[0], s.seen, fate), max)
    ensures Ordered(Decide(s, threads, fate), registered, max)
  {
    hide RightFate;
    var e := Event(s.queue[0], s.seen, fate);
    assert s.queue == [s.queue[0]] + s.queue[1..];
    assert TasksOf(s.log + [e]) == TasksOf(s.log) + [s.queue[0]];
    assert TasksOf(s.log) + [s.queue[0]] + s.queue[1..] == TasksOf(s.log) + s.queue;
  }

  lemma LookOrdered(s: State, registered: seq<Task>, max: nat)
    requires Ordered(s, registered, max)
    ensures Ordered(Looked(s, max), registered, max)
  {
    if s.queue != [] {
      var i, t := |s.seen|, s.queue[0];
      if i == |s.threads| {
        if i < max {
          DecideOrdered(s, registered, max, s.threads + [Thread(Init, t)], Started(i));
        } else {
          DecideOrdered(s, registered, max, s.threads, Dropped);
        }
      } else if s.threads[i].status == Free {
        DecideOrdered(s, registered, max, s.threads[i := Thread(Init, t)], Started(i));
      }
    }
  }

  lemma {:induction false} RunOrdered(steps: seq<Step>, max: nat)
    ensures Ordered(Run(steps, max), Registered(steps), max)
    decreases |steps|
  {
    hide TasksOf, RightFate, Looked;
    if steps != [] {
      var before, step := steps[..|steps| - 1], steps[|steps| - 1];
      RunOrdered(before, max);
      var s := Run(before, max);
      match step {
        case Register(t) =>
          assert TasksOf(s.log) + (s.queue + [t]) == TasksOf(s.log) + s.queue + [t];
        case Look =>
          LookOrdered(s, Registered(before), max);
        case Begin(_) =>
        case Finish(_) =>
      }
    }
  }

  /** Over every interleaving the pool stays below its limit; the k-th registered task has its fate if k tasks have been
      decided before it and is queued otherwise; a task is dropped only if as many threads as there may be were all seen
      busy; and no start of a task is lost or repeated. */
  lemma EachTaskOnce(steps: seq<Step>, max: nat)
    ensures var s, all := Run(steps, max), Registered(steps);
            && |s.threads| <= max && |all| == |s.log| + |s.queue|
            && (forall k :: 0 <= k < |all| ==>
                  all[k] == if k < |s.log| then s.log[k].task else s.queue[k - |s.log|])
            && (forall k :: 0 <= k < |s.log| && s.log[k].fate == Dropped ==>
                 |s.log[k].seen| == max && NoneFree(s.log[k].seen))
            && (forall x: Task :: Starts(s.log, x) == Occurs(s.finished, x) + Busy(s.threads, x))
  {
    hide Busy, Starts, Occurs, Run, Registered;
    RunOrdered(steps, max);
    var s := Run(steps, max);
    forall x: Task
      ensures Starts(s.log, x) == Occurs(s.finished, x) + Busy(s.threads, x)
    {
      RunConserved(steps, max, x);
    }
    forall k | 0 <= k < |s.log|
      ensures s.log[k].fate == Dropped ==> |s.log[k].seen| == max && NoneFree(s.log[k].seen)
    {
      assert RightFate(s.log[k], max);
    }
  }

  // ----- The scheduler object -----

  predicate ThreadSteps(work: seq<Step>) {
    forall i :: 0 <= i < |work| ==> work[i].Begin? || work[i].Finish?
  }

  lemma RunAppend(steps: seq<Step>, step: Step, max: nat)
    ensures Run(steps + [step], max) == Next(Run(steps, max), step, max)
  {
    assert (steps + [step])[..|steps|] == steps;
  }

  class Scheduler {
    const maxThreads: nat
    var tasks: seq<Task>
    var threads: seq<Thread>
    /** All steps since the scheduler was made. */
    ghost var steps: seq<Step>

    /** The fields hold what the steps lead to. */
    ghost predicate Valid()
      reads this
    {
      var s := Run(steps, maxThreads);
      tasks == s.queue && threads == s.threads
    }

    constructor (maxThreads: nat)
      ensures Valid() && this.maxThreads == maxThreads && steps == []
    {
      this.maxThreads := maxThreads;
      tasks, threads, steps := [], [], [];
    }

    method RegistTask(task: Task)
      requires Valid()
      modifies this
      ensures Valid() && steps == old(steps) + [Register(task)]
      ensures tasks == old(tasks) + [task] && threads == old(threads)
    {
      RunAppend(steps, Register(task), maxThreads);
      tasks := tasks + [task];
      steps := steps + [Register(task)];
    }

    /** What the threads do while the scheduler is between two looks. */
    method Work(work: seq<Step>)
      requires Valid() && ThreadSteps(work)
      modifies this`threads, this`steps
      ensures Valid() && steps == old(steps) + work && |threads| == |old(threads)|
      ensures Run(steps, maxThreads).seen == old(Run(steps, maxThreads).seen)
    {
      hide Run;
      assert steps == steps + work[..0];
      for k := 0 to |work|
        invariant Valid() && steps == old(steps) + work[..k] && |threads| == |old(threads)|
        invariant Run(steps, maxThreads).seen == old(Run(steps, maxThreads).seen)
      {
        var i := work[k].thread;
        RunAppend(steps, work[k], maxThreads);
        assert work[..k + 1] == work[..k] + [work[k]];
        assert old(steps) + work[..k + 1] == steps + [work[k]];
        if i < |threads| {
          if work[k].Begin? && threads[i].status == Init {
            threads := threads[i := threads[i].(status := Running)];
          } else if work[k].Finish? && threads[i].status == Running {
            threads := threads[i := threads[i].(status := Free)];
          }
        }
        steps := steps + [work[k]];
      }
      assert work[..|work|] == work;
    }

    /** The task at the front is given to a free thread, to a new one, or to none; it stays in the queue until the
        caller removes it. The threads work on before each look. */
    method AssignTask(task: Task, work: nat -> seq<Step>, k: nat) returns (k': nat)
      requires Valid() && tasks != [] && task == tasks[0] && Run(steps, maxThreads).seen == []
      requires forall i: nat :: ThreadSteps(work(i))
      modifies this`threads, this`steps
      ensures var s := Run(steps, maxThreads);
              && threads == s.threads && tasks == [task] + s.queue && s.seen == []
              && Registered(steps) == Registered(old(steps)) && old(steps) <= steps
      ensures var log, log' := Run(old(steps), maxThreads).log, Run(steps, maxThreads).log;
              log <= log' && |log'| == |log| + 1 && log'[|log|].task == task
    {
      hide Run;
      k' := k;
      var i := 0;
      while i < |threads|
        invariant Valid() && i <= |threads| && |Run(steps, maxThreads).seen| == i
        invariant Registered(steps) == Registered(old(steps)) && old(steps) <= steps
        invariant Run(steps, maxThreads).log == Run(old(steps), maxThreads).log
        decreases |threads| - i
      {
        ghost var before := steps;
        Work(work(k'));
        WorkOnly(before, work(k'), maxThreads);
        k' := k' + 1;
        RunAppend(steps, Look, maxThreads);
        LookOnly(steps);
        if threads[i].status == Free {
          threads := threads[i := Thread(Init, task)];
          steps := steps + [Look];
          return;
        }
        steps := steps + [Look];
        i := i + 1;
      }
      RunAppend(steps, Look, maxThreads);
      LookOnly(steps);
      if |threads| < maxThreads {
        threads := threads + [Thread(Init, task)];
      }
      steps := steps + [Look];
    }

    /** Every task of the queue is taken from its front; when this ends the queue is empty, each of them has its fate,
        and the fates decided before stand. */
    method Manage(work: nat -> seq<Step>)
      requires Valid() && Run(steps, maxThreads).seen == [] && forall i: nat :: ThreadSteps(work(i))
      modifies this`tasks, this`threads, this`steps
      ensures Valid() && tasks == [] && Run(steps, maxThreads).seen == []
      ensures Registered(steps) == Registered(old(steps)) && old(steps) <= steps
      ensures Run(old(steps), maxThreads).log <= Run(steps, maxThreads).log
      ensures |Run(steps, maxThreads).log| == |Run(old(steps), maxThreads).log| + |old(tasks)| == |Registered(steps)|
    {
      hide Run, Registered;
      var k := 0;
      while tasks != []
        invariant Valid() && Run(steps, maxThreads).seen == [] && Registered(steps) == Registered(old(steps))
        invariant old(steps) <= steps && Run(old(steps), maxThreads).log <= Run(steps, maxThreads).log
        invariant |Run(steps, maxThreads).log| + |tasks| == |Run(old(steps), maxThreads).log| + |old(tasks)|
        decreases |tasks|
      {
        k := AssignTask(tasks[0], work, k);
        tasks := tasks[1..];
      }
      EachTaskOnce(steps, maxThreads);
    }
  }

  lemma LookOnly(steps: seq<Step>)
    ensures Registered(steps + [Look]) == Registered(steps)
  {
    assert (steps + [Look])[..|steps|] == steps;
  }

  lemma {:induction false} WorkOnly(steps: seq<Step>, work: seq<Step>, max: nat)
    requires ThreadSteps(work)
    ensures Registered(steps + work) == Registered(steps) && Run(steps + work, max).log == Run(steps, max).log
    decreases |work|
  {
    hide Run;
    if work == [] {
      assert steps + work == steps;
    } else {
      var init, last := work[..|work| - 1], work[|work| - 1];
      WorkOnly(steps, init, max);
      assert steps + work == (steps + init) + [last];
      assert (steps + work)[..|steps + init|] == steps + init;
      RunAppend(steps + init, last, max);
    }
  }
}
