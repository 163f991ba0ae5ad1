/** The plan as handed to the executor: shared buffers together with the deallocation schedule. */
module PlanCorrect {
  import opened PlannerGraph
  import opened PlannerState
  import opened PlannerAccounting
  import opened PlannerExecution
  import opened PlannerNumbering
  import opened PlannerSchedule
  import opened Executor

  /** Running the graph in its planned buffers, releasing what the schedule says after each
      step, gives every node the inputs and the caller the outputs that a run with one private
      buffer per value and no releases gives. */
  lemma PlanComputesTheSame<T(!new)>(g: Graph, run: seq<State>, sched: Schedule, f: Kernels<T>, frees: seq<set<Id>>,
                                     own: seq<Id>, none: seq<set<Id>>, start: map<Id, T>)
    requires IsRun(g, run) && Schedules(run[|g.nodes|].free, |g.nodes|, sched)
    requires |frees| == |g.nodes| && forall k :: 0 <= k < |frees| ==> frees[k] == ReleasedAt(sched, k)
    requires KernelsFit(g, f) && Private(g, own, none) && Supplied(g, start)
    ensures forall k :: 0 <= k < |g.nodes| ==> SameInputs(g, run[|g.nodes|].buffer, f, frees, own, none, start, k)
    ensures forall v :: v in g.outputs ==>
      Holds(run[|g.nodes|].buffer, MemoryBefore(g, f, run[|g.nodes|].buffer, frees, start, |g.nodes|),
            MemoryBefore(g, f, own, none, start, |g.nodes|), v)
  {
    ScheduleIsSafe(g, run[|g.nodes|], sched, frees);
    forall k | 0 <= k < |g.nodes| ensures SameInputs(g, run[|g.nodes|].buffer, f, frees, own, none, start, k) {
      SameReads(g, run, f, frees, own, none, start, k);
    }
    forall v | v in g.outputs
      ensures Holds(run[|g.nodes|].buffer, MemoryBefore(g, f, run[|g.nodes|].buffer, frees, start, |g.nodes|),
                    MemoryBefore(g, f, own, none, start, |g.nodes|), v)
    {
      SameResults(g, run, f, frees, own, none, start, v);
    }
  }

  /** The same for kernels that honour their alias declarations by index, on graphs where the planner
      finds aliases under numbers as under indices. */
  lemma DeclaredPlanComputesTheSame<T(!new)>(g: Graph, run: seq<State>, sched: Schedule, f: Kernels<T>,
                                             frees: seq<set<Id>>, own: seq<Id>, none: seq<set<Id>>, start: map<Id, T>)
    requires IsRun(g, run) && Schedules(run[|g.nodes|].free, |g.nodes|, sched)
    requires |frees| == |g.nodes| && forall k :: 0 <= k < |frees| ==> frees[k] == ReleasedAt(sched, k)
    requires HonoursDeclared(g, f) && Private(g, own, none) && Supplied(g, start)
    requires forall k :: 0 <= k < |g.nodes| ==> AliasesNumbered(g.nodes[k]) && AliasesApart(g.nodes[k])
    ensures forall k :: 0 <= k < |g.nodes| ==> SameInputs(g, run[|g.nodes|].buffer, f, frees, own, none, start, k)
    ensures forall v :: v in g.outputs ==>
      Holds(run[|g.nodes|].buffer, MemoryBefore(g, f, run[|g.nodes|].buffer, frees, start, |g.nodes|),
            MemoryBefore(g, f, own, none, start, |g.nodes|), v)
  {
    DeclaredSuffices(g, f);
    PlanComputesTheSame(g, run, sched, f, frees, own, none, start);
  }

  /** Node `k` finds every argument it has, the same in the planned as in the private buffers. */
  ghost predicate SameInputs<T(!new)>(g: Graph, buffer: seq<Id>, f: Kernels<T>, frees: seq<set<Id>>,
                                      own: seq<Id>, none: seq<set<Id>>, start: map<Id, T>, k: nat)
    requires k < |g.nodes| == |frees| == |none|
  {
    var planned, private := MemoryBefore(g, f, buffer, frees, start, k), MemoryBefore(g, f, own, none, start, k);
    && Read(g.nodes[k].inputs, buffer, planned) == Read(g.nodes[k].inputs, own, private)
    && Read(g.nodes[k].implicitInputs, buffer, planned) == Read(g.nodes[k].implicitInputs, own, private)
    && AllFound(g.nodes[k].inputs, Read(g.nodes[k].inputs, buffer, planned))
    && AllFound(g.nodes[k].implicitInputs, Read(g.nodes[k].implicitInputs, buffer, planned))
  }
}
