/** What a planned run computes, said of the graph alone: the one solution of its equations, each
    node's outputs being what its kernel makes of the values it reads. */
module PlanDataflow {
  import opened Prelude
  import opened PlannerGraph
  import opened PlannerState
  import opened PlannerAccounting
  import opened PlannerKinds
  import opened PlannerSchedule
  import opened Executor
  import opened PlanCorrect

  /** The value of an argument, if it is present. */
  function ValueOf<T>(arg: Option<Id>, val: map<Id, T>): (c: Option<T>)
  {
    if arg.Some? && arg.value in val then Some(val[arg.value]) else None
  }

  function ValuesOf<T>(args: seq<Option<Id>>, val: map<Id, T>): (c: seq<Option<T>>)
  {
    seq(|args|, i requires 0 <= i < |args| => ValueOf(args[i], val))
  }

  /** The outputs of node `k` are what its kernel makes of its arguments. */
  ghost predicate Solves<T>(g: Graph, f: Kernels<T>, val: map<Id, T>, k: nat)
    requires k < |g.nodes|
  {
    var n := g.nodes[k];
    var outs := f(k, ValuesOf(n.inputs, val), ValuesOf(n.implicitInputs, val));
    |outs| == |n.outputs| && forall j :: 0 <= j < |n.outputs| && n.outputs[j].Some? ==>
      n.outputs[j].value in val && val[n.outputs[j].value] == outs[j]
  }

  /** The values the caller supplies, and the first `k` nodes. */
  ghost predicate IsSolution<T>(g: Graph, f: Kernels<T>, start: map<Id, T>, val: map<Id, T>, k: nat)
    requires k <= |g.nodes|
  {
    && (forall v :: v in CallerOwned(g) ==> v in start && v in val && val[v] == start[v])
    && (forall i :: 0 <= i < k ==> Solves(g, f, val, i))
  }

  // ----- there is only one ------------------------------------------------------------------

  ghost predicate SameOn<T>(ids: set<Id>, val: map<Id, T>, val': map<Id, T>)
  {
    forall v :: v in ids ==> v in val && v in val' && val[v] == val'[v]
  }

  lemma SameArguments<T>(args: seq<Option<Id>>, ids: set<Id>, val: map<Id, T>, val': map<Id, T>)
    requires AllIn(Existing(args), ids) && SameOn(ids, val, val')
    ensures ValuesOf(args, val) == ValuesOf(args, val')
  {
    forall i | 0 <= i < |args| ensures ValueOf(args[i], val) == ValueOf(args[i], val') {
      if args[i].Some? {
        ExistingMember(args, args[i].value);
      }
    }
  }

  lemma {:induction false} SolutionUnique<T>(g: Graph, f: Kernels<T>, start: map<Id, T>, val: map<Id, T>,
                                             val': map<Id, T>, k: nat)
    requires WellFormed(g) && k <= |g.nodes| && IsSolution(g, f, start, val, k) && IsSolution(g, f, start, val', k)
    ensures SameOn(DefinedBefore(g, k), val, val')
  {
    if k == 0 {
      forall v | v in DefinedBefore(g, 0) ensures v in CallerOwned(g) {
        IdSetMember(CallerOwned(g), v);
      }
    } else {
      SolutionUnique(g, f, start, val, val', k - 1);
      SolutionStep(g, f, val, val', k - 1);
    }
  }

  lemma SolutionStep<T>(g: Graph, f: Kernels<T>, val: map<Id, T>, val': map<Id, T>, k: nat)
    requires WellFormed(g) && k < |g.nodes| && Solves(g, f, val, k) && Solves(g, f, val', k)
    requires SameOn(DefinedBefore(g, k), val, val')
    ensures SameOn(DefinedBefore(g, k + 1), val, val')
  {
    var n := g.nodes[k];
    assert NodeWellFormed(g, k);
    SameArguments(n.inputs, DefinedBefore(g, k), val, val');
    SameArguments(n.implicitInputs, DefinedBefore(g, k), val, val');
    forall v | v in DefinedBefore(g, k + 1) ensures v in val && v in val' && val[v] == val'[v] {
      if v !in DefinedBefore(g, k) {
        MadeHere(g, k, v);
      }
    }
  }

  // ----- private buffers solve the equations ------------------------------------------------

  /** With one buffer per value, reading is looking up. */
  lemma ReadPrivate<T>(args: seq<Option<Id>>, own: seq<Id>, val: map<Id, T>)
    requires forall v :: 0 <= v < |own| ==> own[v] == v
    requires forall i :: 0 <= i < |args| && args[i].Some? ==> args[i].value < |own|
    ensures Read(args, own, val) == ValuesOf(args, val)
  {
    forall i | 0 <= i < |args| ensures Fetch(args[i], own, val) == ValueOf(args[i], val) {}
  }

  /** Writing leaves what is not written, and every output holds its content. */
  lemma {:induction false} WritePrivate<T>(outputs: seq<Option<Id>>, own: seq<Id>, val: map<Id, T>, outs: seq<T>,
                                           j: nat)
    requires j <= |outputs| == |outs| && NoDuplicates(Existing(outputs))
    requires forall v :: 0 <= v < |own| ==> own[v] == v
    requires forall i :: 0 <= i < |outputs| && outputs[i].Some? ==> outputs[i].value < |own|
    ensures forall v :: v in val && Some(v) !in outputs[..j] ==>
      v in Write(outputs, own, val, outs, j) && Write(outputs, own, val, outs, j)[v] == val[v]
    ensures forall i :: 0 <= i < j && outputs[i].Some? ==>
      && outputs[i].value in Write(outputs, own, val, outs, j)
      && Write(outputs, own, val, outs, j)[outputs[i].value] == outs[i]
  {
    if j > 0 {
      WritePrivate(outputs, own, val, outs, j - 1);
      assert outputs[..j] == outputs[..j - 1] + [outputs[j - 1]];
      if outputs[j - 1].Some? {
        forall i | 0 <= i < j - 1 && outputs[i].Some? ensures outputs[i].value != outputs[j - 1].value {
          OutputsDiffer(outputs, i, j - 1);
        }
      }
    }
  }

  lemma OutputsDiffer(outputs: seq<Option<Id>>, i: nat, j: nat)
    requires i < j < |outputs| && outputs[i].Some? && outputs[j].Some? && NoDuplicates(Existing(outputs))
    ensures outputs[i].value != outputs[j].value
  {
    PositionHolds(outputs, i);
    PositionHolds(outputs, j);
    PositionGrows(outputs, i, j);
  }

  /** Memory before node `k` with one buffer per value. */
  ghost function Memory<T>(g: Graph, f: Kernels<T>, own: seq<Id>, none: seq<set<Id>>, start: map<Id, T>, k: nat)
    : (mem: map<Id, T>)
    requires k <= |g.nodes| == |none|
  {
    MemoryBefore(g, f, own, none, start, k)
  }

  lemma PrivateStep<T(!new)>(g: Graph, f: Kernels<T>, own: seq<Id>, none: seq<set<Id>>, start: map<Id, T>, k: nat)
    requires WellFormed(g) && Honours(g, f) && Private(g, own, none) && k < |g.nodes|
    requires SameOn(DefinedBefore(g, k), Memory(g, f, own, none, start, k), Memory(g, f, own, none, start, k))
    ensures var mem, mem' := Memory(g, f, own, none, start, k), Memory(g, f, own, none, start, k + 1);
      SameOn(DefinedBefore(g, k), mem, mem') && Solves(g, f, mem', k)
  {
    var n, mem, mem' := g.nodes[k], Memory(g, f, own, none, start, k), Memory(g, f, own, none, start, k + 1);
    WellFormedNode(g, k);
    assert NodeWellFormed(g, k);
    ReadPrivate(n.inputs, own, mem);
    ReadPrivate(n.implicitInputs, own, mem);
    var outs := Compute(g, f, own, mem, k);
    assert NodeHonours(n, Read(n.inputs, own, mem), outs);
    assert mem' == Write(n.outputs, own, mem, outs, |n.outputs|);
    WritePrivate(n.outputs, own, mem, outs, |n.outputs|);
    assert n.outputs[..|n.outputs|] == n.outputs;
    forall v | v in DefinedBefore(g, k) ensures v in mem' && mem'[v] == mem[v] {
      ExistingMember(n.outputs, v);
    }
    SameArguments(n.inputs, DefinedBefore(g, k), mem, mem');
    SameArguments(n.implicitInputs, DefinedBefore(g, k), mem, mem');
  }

  /** A solution of some nodes stays one while later values are added. */
  lemma SolvesLater<T>(g: Graph, f: Kernels<T>, mem: map<Id, T>, mem': map<Id, T>, i: nat, k: nat)
    requires WellFormed(g) && i < k <= |g.nodes| && Solves(g, f, mem, i) && SameOn(DefinedBefore(g, k), mem, mem')
    ensures Solves(g, f, mem', i)
  {
    var n := g.nodes[i];
    assert NodeWellFormed(g, i);
    DefinedGrows(g, i, k);
    SameArguments(n.inputs, DefinedBefore(g, k), mem, mem');
    SameArguments(n.implicitInputs, DefinedBefore(g, k), mem, mem');
    forall j | 0 <= j < |n.outputs| && n.outputs[j].Some? ensures n.outputs[j].value in DefinedBefore(g, k) {
      MadeBefore(g, i, j, k, n.outputs[j].value);
    }
  }

  lemma StartSolves<T>(g: Graph, f: Kernels<T>, start: map<Id, T>)
    requires Supplied(g, start)
    ensures IsSolution(g, f, start, start, 0) && SameOn(DefinedBefore(g, 0), start, start)
  {
    forall v | v in CallerOwned(g) ensures v in start {
      IdSetMember(CallerOwned(g), v);
    }
  }

  /** Running the nodes with one buffer per value solves the equations. */
  lemma {:induction false} PrivateSolves<T(!new)>(g: Graph, f: Kernels<T>, own: seq<Id>, none: seq<set<Id>>,
                                                  start: map<Id, T>, k: nat)
    requires WellFormed(g) && Honours(g, f) && Private(g, own, none) && Supplied(g, start) && k <= |g.nodes|
    ensures SameOn(DefinedBefore(g, k), Memory(g, f, own, none, start, k), Memory(g, f, own, none, start, k))
    ensures IsSolution(g, f, start, Memory(g, f, own, none, start, k), k)
  {
    if k == 0 {
      StartSolves(g, f, start);
    } else {
      PrivateSolves(g, f, own, none, start, k - 1);
      PrivateStep(g, f, own, none, start, k - 1);
      SolutionKept(g, f, start, Memory(g, f, own, none, start, k - 1), Memory(g, f, own, none, start, k), k - 1);
    }
  }

  lemma SolutionKept<T>(g: Graph, f: Kernels<T>, start: map<Id, T>, mem: map<Id, T>, mem': map<Id, T>, k: nat)
    requires WellFormed(g) && k < |g.nodes| && SameOn(DefinedBefore(g, k), mem, mem')
    requires IsSolution(g, f, start, mem, k) && Solves(g, f, mem', k)
    ensures SameOn(DefinedBefore(g, k + 1), mem', mem') && IsSolution(g, f, start, mem', k + 1)
  {
    forall i | 0 <= i < k ensures Solves(g, f, mem', i) {
      SolvesLater(g, f, mem, mem', i, k);
    }
    DefinedGrows(g, 0, k);
    forall v | v in CallerOwned(g) ensures v in DefinedBefore(g, k) {
      IdSetMember(CallerOwned(g), v);
    }
    forall v | v in DefinedBefore(g, k + 1) ensures v in mem' {
      if v !in DefinedBefore(g, k) {
        MadeHere(g, k, v);
      }
    }
  }

  lemma MadeHere(g: Graph, k: nat, v: Id)
    requires k < |g.nodes| && v in DefinedBefore(g, k + 1) && v !in DefinedBefore(g, k)
    ensures exists j :: 0 <= j < |g.nodes[k].outputs| && g.nodes[k].outputs[j] == Some(v)
  {
    IdSetMember(Existing(g.nodes[k].outputs), v);
    ExistingMember(g.nodes[k].outputs, v);
  }

  // ----- the plan ---------------------------------------------------------------------------

  /** Run in the planned buffers with the scheduled releases, the nodes leave in the buffers of the
      graph outputs what the equations of the graph say; the equations have a solution. */
  lemma PlanSolves<T(!new)>(g: Graph, run: seq<State>, sched: Schedule, f: Kernels<T>, frees: seq<set<Id>>,
                            start: map<Id, T>, val: map<Id, T>)
    requires IsRun(g, run) && Schedules(run[|g.nodes|].free, |g.nodes|, sched)
    requires |frees| == |g.nodes| && forall k :: 0 <= k < |frees| ==> frees[k] == ReleasedAt(sched, k)
    requires KernelsFit(g, f) && Supplied(g, start) && IsSolution(g, f, start, val, |g.nodes|)
    ensures var buffer, mem :=
      run[|g.nodes|].buffer, MemoryBefore(g, f, run[|g.nodes|].buffer, frees, start, |g.nodes|);
      forall v :: v in g.outputs ==> v < |buffer| && buffer[v] in mem && v in val && mem[buffer[v]] == val[v]
  {
    var own: seq<Id>, none: seq<set<Id>> := seq(|g.values|, v requires v >= 0 => v), seq(|g.nodes|, _ => {});
    PlanComputesTheSame(g, run, sched, f, frees, own, none, start);
    PrivateSolves(g, f, own, none, start, |g.nodes|);
    SolutionUnique(g, f, start, val, Memory(g, f, own, none, start, |g.nodes|), |g.nodes|);
    forall v | v in g.outputs ensures v in Defined(g) {
      var i :| 0 <= i < |g.outputs| && g.outputs[i] == v;
    }
  }

  lemma SolutionExists<T(!new)>(g: Graph, f: Kernels<T>, start: map<Id, T>) returns (val: map<Id, T>)
    requires WellFormed(g) && Honours(g, f) && Supplied(g, start)
    ensures IsSolution(g, f, start, val, |g.nodes|)
  {
    var own: seq<Id>, none: seq<set<Id>> := seq(|g.values|, v requires v >= 0 => v), seq(|g.nodes|, _ => {});
    PrivateSolves(g, f, own, none, start, |g.nodes|);
    val := Memory(g, f, own, none, start, |g.nodes|);
  }

  /** After each node the buffers the schedule releases are gone. */
  lemma ReleasedAreGone<T>(g: Graph, f: Kernels<T>, buffer: seq<Id>, frees: seq<set<Id>>, start: map<Id, T>, k: nat,
                           r: Id)
    requires k < |g.nodes| == |frees| && r in frees[k]
    ensures r !in MemoryBefore(g, f, buffer, frees, start, k + 1)
  {
  }
}
