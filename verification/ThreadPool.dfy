/** Fork/join on a thread pool: the caller queues all iterations but the first, runs the
    first itself and waits on a barrier that every queued iteration notifies once. */
module ThreadPool {
  import opened Prelude

  /** Where a queued iteration is; `Running(done)` has made `done` of its calls. */
  datatype Task = Unscheduled | Queued | Running(done: nat) | Notified

  datatype Caller = Scheduling(next: nat) | Own(done: nat) | Waiting | Returned

  /** `log` records the calls of the user's function in the order they happened. */
  datatype Pool = Pool(caller: Caller, tasks: seq<Task>, barrier: int, log: seq<int>)

  datatype Step =
    | Schedule
    | StartOwn
    | CallerCall
    | StartWaiting
    | Return
    | Take(id: nat)
    | WorkerCall(id: nat)
    | Notify(id: nat)

  /** `work[id]` are the arguments iteration `id` calls the user's function with.  With no
      iteration there is nothing to do, with one there is no barrier. */
  function Start(work: seq<seq<int>>): (s: Pool)
  {
    var n := |work|;
    Pool(if n == 0 then Returned else if n == 1 then Own(0) else Scheduling(1),
         seq(n, _ => Unscheduled),
         if n == 0 then 0 else n - 1,
         [])
  }

  function RunningTasks(tasks: seq<Task>): (n: nat)
  {
    if tasks == [] then 0
    else RunningTasks(tasks[..|tasks| - 1]) + if tasks[|tasks| - 1].Running? then 1 else 0
  }

  predicate Enabled(work: seq<seq<int>>, threads: nat, s: Pool, step: Step)
    requires |s.tasks| == |work|
  {
    match step
    case Schedule => s.caller.Scheduling? && s.caller.next < |work|
    case StartOwn => s.caller == Scheduling(|work|)
    case CallerCall => s.caller.Own? && |work| > 0 && s.caller.done < |work[0]|
    case StartWaiting => s.caller.Own? && |work| > 0 && s.caller.done == |work[0]|
    case Return => s.caller.Waiting? && s.barrier == 0
    case Take(id) => 0 < id < |work| && s.tasks[id].Queued? && RunningTasks(s.tasks) < threads
    case WorkerCall(id) => 0 < id < |work| && s.tasks[id].Running? && s.tasks[id].done < |work[id]|
    case Notify(id) => 0 < id < |work| && s.tasks[id] == Running(|work[id]|)
  }

  function Do(work: seq<seq<int>>, threads: nat, s: Pool, step: Step): (s': Pool)
    requires |s.tasks| == |work| && Enabled(work, threads, s, step)
  {
    match step
    case Schedule => s.(caller := Scheduling(s.caller.next + 1), tasks := s.tasks[s.caller.next := Queued])
    case StartOwn => s.(caller := Own(0))
    case CallerCall => s.(caller := Own(s.caller.done + 1), log := s.log + [work[0][s.caller.done]])
    case StartWaiting => s.(caller := Waiting)
    case Return => s.(caller := Returned)
    case Take(id) => s.(tasks := s.tasks[id := Running(0)])
    case WorkerCall(id) =>
      s.(tasks := s.tasks[id := Running(s.tasks[id].done + 1)], log := s.log + [work[id][s.tasks[id].done]])
    case Notify(id) => s.(tasks := s.tasks[id := Notified], barrier := s.barrier - 1)
  }

  // ----- accounting -------------------------------------------------------------------------

  /** How many of its calls iteration `id` has made. */
  function Made(work: seq<seq<int>>, s: Pool, id: nat): (n: nat)
    requires |s.tasks| == |work| && id < |work|
  {
    if id == 0 then
      match s.caller
      case Scheduling(_) => 0
      case Own(done) => done
      case _ => |work[0]|
    else
      match s.tasks[id]
      case Running(done) => done
      case Notified => |work[id]|
      case _ => 0
  }

  /** How often the first `n` iterations have called the function with `x`. */
  function Calls(work: seq<seq<int>>, s: Pool, x: int, n: nat): (c: nat)
    requires |s.tasks| == |work| && n <= |work|
    requires forall id :: 0 <= id < |work| ==> Made(work, s, id) <= |work[id]|
  {
    if n == 0 then 0 else Calls(work, s, x, n - 1) + Count(work[n - 1][..Made(work, s, n - 1)], x)
  }

  /** How often the first `n` iterations call the function with `x` altogether. */
  function AllCalls(work: seq<seq<int>>, x: int, n: nat): (c: nat)
    requires n <= |work|
  {
    if n == 0 then 0 else AllCalls(work, x, n - 1) + Count(work[n - 1], x)
  }

  /** Queued iterations among the first `n` that have not notified the barrier. */
  function Outstanding(tasks: seq<Task>, n: nat): (c: nat)
    requires n <= |tasks|
  {
    if n <= 1 then 0 else Outstanding(tasks, n - 1) + if tasks[n - 1].Notified? then 0 else 1
  }

  ghost predicate Invariant(work: seq<seq<int>>, s: Pool)
  {
    && |s.tasks| == |work|
    && (|work| == 0 ==> s.caller.Returned?)
    && (|work| > 0 ==> s.tasks[0].Unscheduled?)
    && (s.caller.Scheduling? ==> 1 <= s.caller.next <= |work|)
    && (forall id {:trigger s.tasks[id]} :: 0 < id < |work| ==>
          (s.tasks[id].Unscheduled? <==> s.caller.Scheduling? && s.caller.next <= id))
    && (forall id {:trigger Made(work, s, id)} :: 0 <= id < |work| ==> Made(work, s, id) <= |work[id]|)
    && s.barrier == Outstanding(s.tasks, |work|)
    && (s.caller.Returned? ==> s.barrier == 0)
    && (forall x {:trigger Count(s.log, x)} :: Count(s.log, x) == Calls(work, s, x, |work|))
  }

  lemma {:induction false} NothingOutstanding(tasks: seq<Task>, n: nat, id: nat)
    requires 0 < id < n <= |tasks| && Outstanding(tasks, n) == 0
    ensures tasks[id].Notified?
  {
    if id < n - 1 {
      NothingOutstanding(tasks, n - 1, id);
    }
  }

  lemma {:induction false} OutstandingUpdate(tasks: seq<Task>, n: nat, id: nat, t: Task)
    requires 0 < id < |tasks| && n <= |tasks|
    ensures Outstanding(tasks[id := t], n) == Outstanding(tasks, n)
      + if id < n then (if t.Notified? then 0 else 1) - (if tasks[id].Notified? then 0 else 1) else 0
  {
    if n > 1 {
      OutstandingUpdate(tasks, n - 1, id, t);
    }
  }

  /** States in which every iteration has made the same calls. */
  lemma {:induction false} CallsSame(work: seq<seq<int>>, s: Pool, s': Pool, x: int, n: nat)
    requires |s.tasks| == |s'.tasks| == |work| && n <= |work|
    requires forall id :: 0 <= id < |work| ==> Made(work, s, id) == Made(work, s', id) <= |work[id]|
    ensures Calls(work, s, x, n) == Calls(work, s', x, n)
  {
    if n > 0 {
      CallsSame(work, s, s', x, n - 1);
    }
  }

  /** Iteration `who` makes one more call. */
  lemma {:induction false} CallsNext(work: seq<seq<int>>, s: Pool, s': Pool, who: nat, x: int, n: nat)
    requires |s.tasks| == |s'.tasks| == |work| && who < |work| && n <= |work|
    requires forall id :: 0 <= id < |work| ==> Made(work, s, id) <= |work[id]| && Made(work, s', id) <= |work[id]|
    requires forall id :: 0 <= id < |work| && id != who ==> Made(work, s', id) == Made(work, s, id)
    requires Made(work, s, who) < |work[who]| && Made(work, s', who) == Made(work, s, who) + 1
    ensures Calls(work, s', x, n)
         == Calls(work, s, x, n) + if who < n && work[who][Made(work, s, who)] == x then 1 else 0
  {
    if n > 0 {
      CallsNext(work, s, s', who, x, n - 1);
      if who == n - 1 {
        var d := Made(work, s, who);
        assert work[who][..d + 1][..d] == work[who][..d];
      }
    }
  }

  // ----- every step of every interleaving ---------------------------------------------------

  lemma {:induction false} NoCallsYet(work: seq<seq<int>>, s: Pool, x: int, n: nat)
    requires |s.tasks| == |work| && n <= |work|
    requires forall id :: 0 <= id < |work| ==> Made(work, s, id) == 0
    ensures Calls(work, s, x, n) == 0
  {
    if n > 0 {
      NoCallsYet(work, s, x, n - 1);
      assert work[n - 1][..0] == [];
    }
  }

  lemma {:induction false} AllOutstanding(tasks: seq<Task>, n: nat)
    requires 0 < n <= |tasks| && forall id :: 0 <= id < |tasks| ==> tasks[id].Unscheduled?
    ensures Outstanding(tasks, n) == n - 1
  {
    if n > 1 {
      AllOutstanding(tasks, n - 1);
    }
  }

  lemma StartInvariant(work: seq<seq<int>>)
    ensures Invariant(work, Start(work))
  {
    var s := Start(work);
    if |work| > 0 {
      AllOutstanding(s.tasks, |work|);
    }
    forall x ensures Calls(work, s, x, |work|) == 0 {
      NoCallsYet(work, s, x, |work|);
    }
  }

  /** A step that makes no call. */
  lemma SilentStepCounts(work: seq<seq<int>>, s: Pool, s': Pool)
    requires Invariant(work, s) && |s'.tasks| == |work| && s'.log == s.log
    requires forall id :: 0 <= id < |work| ==> Made(work, s', id) == Made(work, s, id)
    ensures forall id :: 0 <= id < |work| ==> Made(work, s', id) <= |work[id]|
    ensures forall x :: Count(s'.log, x) == Calls(work, s', x, |work|)
  {
    assert forall id :: 0 <= id < |work| ==> Made(work, s, id) <= |work[id]|;
    forall x ensures Count(s'.log, x) == Calls(work, s', x, |work|) {
      CallsSame(work, s, s', x, |work|);
    }
  }

  /** A step in which iteration `who` makes its next call. */
  lemma CallStepCounts(work: seq<seq<int>>, s: Pool, s': Pool, who: nat)
    requires Invariant(work, s) && |s'.tasks| == |work| && who < |work|
    requires forall id :: 0 <= id < |work| && id != who ==> Made(work, s', id) == Made(work, s, id)
    requires Made(work, s, who) < |work[who]| && Made(work, s', who) == Made(work, s, who) + 1
    requires s'.log == s.log + [work[who][Made(work, s, who)]]
    ensures forall id :: 0 <= id < |work| ==> Made(work, s', id) <= |work[id]|
    ensures forall x :: Count(s'.log, x) == Calls(work, s', x, |work|)
  {
    assert forall id :: 0 <= id < |work| ==> Made(work, s, id) <= |work[id]|;
    forall x ensures Count(s'.log, x) == Calls(work, s', x, |work|) {
      CallsNext(work, s, s', who, x, |work|);
      assert s'.log[..|s'.log| - 1] == s.log;
    }
  }

  /** The caller moves. */
  lemma CallerKeepsInvariant(work: seq<seq<int>>, threads: nat, s: Pool, step: Step)
    requires Invariant(work, s) && Enabled(work, threads, s, step)
    requires step.Schedule? || step.StartOwn? || step.CallerCall? || step.StartWaiting? || step.Return?
    ensures Invariant(work, Do(work, threads, s, step))
  {
    var s' := Do(work, threads, s, step);
    if step.CallerCall? {
      CallStepCounts(work, s, s', 0);
    } else {
      if step.Schedule? {
        OutstandingUpdate(s.tasks, |work|, s.caller.next, Queued);
      }
      SilentStepCounts(work, s, s');
    }
  }

  /** A pool thread takes an iteration or is done with it. */
  lemma WorkerKeepsInvariant(work: seq<seq<int>>, threads: nat, s: Pool, step: Step, id: nat)
    requires Invariant(work, s) && Enabled(work, threads, s, step) && (step == Take(id) || step == Notify(id))
    ensures Invariant(work, Do(work, threads, s, step))
  {
    var s' := Do(work, threads, s, step);
    OutstandingUpdate(s.tasks, |work|, id, s'.tasks[id]);
    SilentStepCounts(work, s, s');
  }

  /** A pool thread makes a call. */
  lemma WorkerCallKeepsInvariant(work: seq<seq<int>>, threads: nat, s: Pool, id: nat)
    requires Invariant(work, s) && Enabled(work, threads, s, WorkerCall(id))
    ensures Invariant(work, Do(work, threads, s, WorkerCall(id)))
  {
    var s' := Do(work, threads, s, WorkerCall(id));
    OutstandingUpdate(s.tasks, |work|, id, s'.tasks[id]);
    CallStepCounts(work, s, s', id);
  }

  /** Whatever thread moves next, the accounts still balance. */
  lemma StepKeepsInvariant(work: seq<seq<int>>, threads: nat, s: Pool, step: Step)
    requires Invariant(work, s) && Enabled(work, threads, s, step)
    ensures Invariant(work, Do(work, threads, s, step))
  {
    match step
    case Take(id) => WorkerKeepsInvariant(work, threads, s, step, id);
    case Notify(id) => WorkerKeepsInvariant(work, threads, s, step, id);
    case WorkerCall(id) => WorkerCallKeepsInvariant(work, threads, s, id);
    case _ => CallerKeepsInvariant(work, threads, s, step);
  }

  /** An execution: any interleaving of caller and workers. */
  ghost predicate IsExecution(work: seq<seq<int>>, threads: nat, states: seq<Pool>, steps: seq<Step>)
  {
    && |states| == |steps| + 1 && states[0] == Start(work)
    && (forall i {:trigger steps[i]} :: 0 <= i < |steps| ==>
          && |states[i].tasks| == |work| && Enabled(work, threads, states[i], steps[i])
          && states[i + 1] == Do(work, threads, states[i], steps[i]))
  }

  lemma {:induction false} ExecutionInvariant(work: seq<seq<int>>, threads: nat, states: seq<Pool>, steps: seq<Step>,
                                              i: nat)
    requires IsExecution(work, threads, states, steps) && i < |states|
    ensures Invariant(work, states[i])
  {
    if i == 0 {
      StartInvariant(work);
    } else {
      ExecutionInvariant(work, threads, states, steps, i - 1);
      StepKeepsInvariant(work, threads, states[i - 1], steps[i - 1]);
    }
  }

  lemma {:induction false} FinishedCalls(work: seq<seq<int>>, s: Pool, x: int, n: nat)
    requires |s.tasks| == |work| && n <= |work|
    requires forall id :: 0 <= id < |work| ==> Made(work, s, id) == |work[id]|
    ensures Calls(work, s, x, n) == AllCalls(work, x, n)
  {
    if n > 0 {
      FinishedCalls(work, s, x, n - 1);
      assert work[n - 1][..|work[n - 1]|] == work[n - 1];
    }
  }

  /** Fork/join safety: when the caller returns, every queued iteration has finished and
      notified, and the function has been called exactly as often as the work says. */
  lemma ReturnMeansDone(work: seq<seq<int>>, threads: nat, states: seq<Pool>, steps: seq<Step>, i: nat)
    requires IsExecution(work, threads, states, steps) && i < |states| && states[i].caller.Returned?
    ensures |states[i].tasks| == |work|
    ensures forall id :: 0 < id < |work| ==> states[i].tasks[id].Notified?
    ensures forall x :: Count(states[i].log, x) == AllCalls(work, x, |work|)
  {
    var s := states[i];
    ExecutionInvariant(work, threads, states, steps, i);
    forall id | 0 < id < |work| ensures s.tasks[id].Notified? {
      NothingOutstanding(s.tasks, |work|, id);
    }
    forall x ensures Count(s.log, x) == AllCalls(work, x, |work|) {
      assert forall id :: 0 <= id < |work| ==> Made(work, s, id) == |work[id]|;
      FinishedCalls(work, s, x, |work|);
    }
  }

  // ----- termination and progress ---------------------------------------------------------------

  function TaskWork(calls: seq<int>, t: Task): (n: int)
  {
    match t
    case Unscheduled => |calls| + 3
    case Queued => |calls| + 2
    case Running(done) => |calls| - done + 1
    case Notified => 0
  }

  function PendingTasks(work: seq<seq<int>>, tasks: seq<Task>, n: nat): (c: int)
    requires n <= |work| == |tasks|
  {
    if n <= 1 then 0 else PendingTasks(work, tasks, n - 1) + TaskWork(work[n - 1], tasks[n - 1])
  }

  function PendingWork(work: seq<seq<int>>, s: Pool): (c: int)
    requires |s.tasks| == |work|
  {
    (match s.caller
     case Scheduling(next) => |work| - next + (if work == [] then 0 else |work[0]|) + 4
     case Own(done) => (if work == [] then 0 else |work[0]|) - done + 2
     case Waiting => 1
     case Returned => 0) + PendingTasks(work, s.tasks, |work|)
  }

  lemma {:induction false} PendingTasksUpdate(work: seq<seq<int>>, tasks: seq<Task>, n: nat, id: nat, t: Task)
    requires 0 < id < |work| == |tasks| && n <= |work|
    ensures PendingTasks(work, tasks[id := t], n) == PendingTasks(work, tasks, n)
      + if id < n then TaskWork(work[id], t) - TaskWork(work[id], tasks[id]) else 0
  {
    if n > 1 {
      PendingTasksUpdate(work, tasks, n - 1, id, t);
    }
  }

  lemma {:induction false} PendingTasksNonNegative(work: seq<seq<int>>, s: Pool, n: nat)
    requires Invariant(work, s) && n <= |work|
    ensures PendingTasks(work, s.tasks, n) >= 0
  {
    if n > 1 {
      PendingTasksNonNegative(work, s, n - 1);
      assert Made(work, s, n - 1) <= |work[n - 1]|;
    }
  }

  /** Every step leaves less to do, so no interleaving goes on forever. */
  lemma StepDecreasesWork(work: seq<seq<int>>, threads: nat, s: Pool, step: Step)
    requires Invariant(work, s) && Enabled(work, threads, s, step)
    ensures 0 <= PendingWork(work, Do(work, threads, s, step)) < PendingWork(work, s)
  {
    var s' := Do(work, threads, s, step);
    StepKeepsInvariant(work, threads, s, step);
    PendingTasksNonNegative(work, s', |work|);
    assert |work| > 0 ==> Made(work, s', 0) <= |work[0]|;
    match step
    case Schedule => PendingTasksUpdate(work, s.tasks, |work|, s.caller.next, Queued);
    case Take(id) => PendingTasksUpdate(work, s.tasks, |work|, id, Running(0));
    case WorkerCall(id) => PendingTasksUpdate(work, s.tasks, |work|, id, s'.tasks[id]);
    case Notify(id) => PendingTasksUpdate(work, s.tasks, |work|, id, Notified);
    case _ =>
  }

  lemma {:induction false} SomeOutstanding(tasks: seq<Task>, n: nat) returns (id: nat)
    requires n <= |tasks| && Outstanding(tasks, n) > 0
    ensures 0 < id < n && !tasks[id].Notified?
  {
    if tasks[n - 1].Notified? {
      id := SomeOutstanding(tasks, n - 1);
    } else {
      id := n - 1;
    }
  }

  lemma {:induction false} SomeRunning(tasks: seq<Task>) returns (id: nat)
    requires RunningTasks(tasks) > 0
    ensures id < |tasks| && tasks[id].Running?
  {
    if tasks[|tasks| - 1].Running? {
      id := |tasks| - 1;
    } else {
      id := SomeRunning(tasks[..|tasks| - 1]);
    }
  }

  /** With at least one pool thread somebody can always move until the caller returns. */
  lemma NoDeadlock(work: seq<seq<int>>, threads: nat, s: Pool) returns (step: Step)
    requires Invariant(work, s) && threads > 0 && !s.caller.Returned?
    ensures Enabled(work, threads, s, step)
  {
    assert Made(work, s, 0) <= |work[0]|;
    if s.caller.Scheduling? {
      step := if s.caller.next < |work| then Schedule else StartOwn;
    } else if s.caller.Own? {
      step := if s.caller.done < |work[0]| then CallerCall else StartWaiting;
    } else if s.barrier == 0 {
      step := Return;
    } else if RunningTasks(s.tasks) > 0 {
      var id := SomeRunning(s.tasks);
      assert Made(work, s, id) <= |work[id]|;
      step := if s.tasks[id].done < |work[id]| then WorkerCall(id) else Notify(id);
    } else {
      var id := SomeOutstanding(s.tasks, |work|);
      NoneRunning(s.tasks, id);
      step := Take(id);
    }
  }

  lemma {:induction false} NoneRunning(tasks: seq<Task>, id: nat)
    requires RunningTasks(tasks) == 0 && id < |tasks|
    ensures !tasks[id].Running?
  {
    if id < |tasks| - 1 {
      NoneRunning(tasks[..|tasks| - 1], id);
    }
  }

  // ----- no more at once than there are threads ---------------------------------------------

  /** The iterations that are running. */
  ghost function Busy(tasks: seq<Task>): (ids: set<int>)
  {
    set id | 0 <= id < |tasks| && tasks[id].Running?
  }

  lemma {:induction false} RunningIsCount(tasks: seq<Task>)
    ensures RunningTasks(tasks) == |Busy(tasks)|
  {
    if tasks != [] {
      var n := |tasks| - 1;
      RunningIsCount(tasks[..n]);
      assert Busy(tasks) == Busy(tasks[..n]) + if tasks[n].Running? then {n} else {};
    }
  }

  lemma BusyUpdate(tasks: seq<Task>, id: nat, t: Task)
    requires id < |tasks|
    ensures Busy(tasks[id := t]) == if t.Running? then Busy(tasks) + {id} else Busy(tasks) - {id}
  {
  }

  lemma StepBusy(work: seq<seq<int>>, threads: nat, s: Pool, step: Step)
    requires |s.tasks| == |work| && Enabled(work, threads, s, step) && |Busy(s.tasks)| <= threads
    ensures |Busy(Do(work, threads, s, step).tasks)| <= threads
  {
    RunningIsCount(s.tasks);
    var ids := Busy(s.tasks);
    match step
    case Schedule =>
      BusyUpdate(s.tasks, s.caller.next, Queued);
      Fewer(ids, ids - {s.caller.next});
    case Take(id) => BusyUpdate(s.tasks, id, Running(0));
    case WorkerCall(id) =>
      BusyUpdate(s.tasks, id, Running(s.tasks[id].done + 1));
      assert ids + {id} == ids;
    case Notify(id) =>
      BusyUpdate(s.tasks, id, Notified);
      Fewer(ids, ids - {id});
    case _ =>
  }

  lemma Fewer(a: set<int>, b: set<int>)
    requires b <= a
    ensures |b| <= |a|
  {
    assert a == b + (a - b);
  }

  /** In every state of every interleaving at most as many iterations run as the pool has threads. */
  lemma {:induction false} ThreadsBound(work: seq<seq<int>>, threads: nat, states: seq<Pool>, steps: seq<Step>, i: nat)
    requires IsExecution(work, threads, states, steps) && i < |states|
    ensures |Busy(states[i].tasks)| <= threads
  {
    if i == 0 {
      assert Busy(Start(work).tasks) == {};
    } else {
      ThreadsBound(work, threads, states, steps, i - 1);
      StepBusy(work, threads, states[i - 1], steps[i - 1]);
    }
  }
}
