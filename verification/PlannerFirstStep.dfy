/** When the deallocation schedule forgets a buffer: the entries that die at step 0, said of the
    graph and of the finished plan. */
module PlannerFirstStep {
  import opened Prelude
  import opened PlannerGraph
  import opened PlannerState
  import opened PlannerRules
  import opened PlannerLedger
  import opened PlannerAccounting
  import opened PlannerLiveness
  import opened PlannerExecution
  import opened PlannerSchedule

  // ----- uses, said of the graph ------------------------------------------------------------

  predicate Mentions(n: Node, v: Id)
  {
    Some(v) in n.inputs || Some(v) in n.implicitInputs || Some(v) in n.outputs
  }

  /** Some node from `k` on reads or produces `v`. */
  ghost predicate UsedFrom(g: Graph, k: nat, v: Id)
  {
    exists i :: k <= i < |g.nodes| && Mentions(g.nodes[i], v)
  }

  lemma ReleasedIff(n: Node, v: Id)
    ensures Count(Released(n), v) > 0 <==> Mentions(n, v)
  {
    CountPositive(Released(n), v);
    ExistingMember(n.inputs, v);
    ExistingMember(n.implicitInputs, v);
    ExistingMember(n.outputs, v);
  }

  lemma {:induction false} ReleasedFromIff(g: Graph, k: nat, v: Id)
    requires k <= |g.nodes|
    ensures Count(ReleasedFrom(g, k), v) > 0 <==> UsedFrom(g, k, v)
    decreases |g.nodes| - k
  {
    if k < |g.nodes| {
      ReleasedFromIff(g, k + 1, v);
      ReleasedIff(g.nodes[k], v);
      CountConcat(Released(g.nodes[k]), ReleasedFrom(g, k + 1), v);
      UsedFromNext(g, k, v);
    }
  }

  lemma UsedFromNext(g: Graph, k: nat, v: Id)
    requires k < |g.nodes|
    ensures UsedFrom(g, k, v) <==> Mentions(g.nodes[k], v) || UsedFrom(g, k + 1, v)
  {
    if UsedFrom(g, k, v) && !Mentions(g.nodes[k], v) {
      var i :| k <= i < |g.nodes| && Mentions(g.nodes[i], v);
      assert k + 1 <= i;
    }
  }

  /** A use is outstanding exactly for a value that a later node mentions, that the caller owns or
      that is a graph output. */
  lemma PendingIff(g: Graph, k: nat, v: Id)
    requires k <= |g.nodes|
    ensures Count(PendingAt(g, k), v) > 0 <==> UsedFrom(g, k, v) || v in CallerOwned(g) || v in g.outputs
  {
    ReleasedFromIff(g, k, v);
    CountConcat(ReleasedFrom(g, k), Permanent(g), v);
    CountPositive(Permanent(g), v);
    DistinctSubset(CallerOwned(g), v);
  }

  lemma {:induction false} DefinedLater(g: Graph, k: nat, v: Id)
    requires 1 <= k <= |g.nodes| && v in DefinedBefore(g, k) && v !in DefinedBefore(g, 1)
    ensures UsedFrom(g, 1, v)
  {
    if v in DefinedBefore(g, k - 1) {
      DefinedLater(g, k - 1, v);
    } else {
      IdSetMember(Existing(g.nodes[k - 1].outputs), v);
      ExistingMember(g.nodes[k - 1].outputs, v);
      assert Mentions(g.nodes[k - 1], v);
    }
  }

  lemma FirstDefined(g: Graph, v: Id)
    requires |g.nodes| > 0
    ensures v in DefinedBefore(g, 1) <==> v in CallerOwned(g) || Some(v) in g.nodes[0].outputs
  {
    IdSetMember(CallerOwned(g), v);
    IdSetMember(Existing(g.nodes[0].outputs), v);
    ExistingMember(g.nodes[0].outputs, v);
  }

  // ----- where an output ends up ------------------------------------------------------------

  /** The final buffer of an output: its own, or that of the value its placement names. */
  lemma OutputBuffer(g: Graph, run: seq<State>, k: nat, j: nat)
    requires IsRun(g, run) && k < |g.nodes| && j < |g.nodes[k].outputs| && g.nodes[k].outputs[j].Some?
    ensures Shaped(g, run[k]) && NodeInRange(g, g.nodes[k]) && Shaped(g, run[|g.nodes|])
    ensures g.nodes[k].outputs[j].value < |g.values|
    ensures var d, buffer, out :=
      DecisionAt(g, run[k], g.nodes[k], j), run[|g.nodes|].buffer, g.nodes[k].outputs[j].value;
      if d.OwnOutput? || d.OwnBuffer? then buffer[out] == out
      else d.source < |g.values| && buffer[out] == buffer[d.source]
  {
    var n := g.nodes[k];
    var out := n.outputs[j].value;
    RunAccounted(g, run, k);
    OutputUnplaced(g, k, j);
    PlacedAfterNext(DefinedBefore(g, k), n, j);
    PlacedForGood(g, run, k, j + 1, out);
    OneMoreOutput(g, run[k], n, j);
    OutputsKeep(g, run[k], k, j);
    DecisionAtJustified(g, run[k], n, j);
    BufferGiven(g, AfterOutputs(g, run[k], n, j), k, j);
    var d := DecisionAt(g, run[k], n, j);
    if !(d.OwnOutput? || d.OwnBuffer?) {
      PlacedForGood(g, run, k, j, d.source);
    }
  }

  // ----- the first node ---------------------------------------------------------------------

  lemma PlaceLeavesNoneFree(g: Graph, st: State, n: Node, m: nat)
    requires Shaped(g, st) && NodeInRange(g, n) && m < |n.outputs| && st.free == []
    ensures PlaceOutput(g, st, n, m).free == []
  {
    if n.outputs[m].Some? {
      OutputNumInRange(n.outputs, m);
      DecideJustified(g, st, n, Position(n.outputs, m), n.outputs[m].value);
    }
  }

  /** Nothing is free while the outputs of the first node are placed. */
  lemma NoneFreeYet(g: Graph, st: State, n: Node, j: nat)
    requires Shaped(g, st) && NodeInRange(g, n) && j <= |n.outputs| && st.free == []
    ensures AfterOutputs(g, st, n, j).free == []
  {
    var NoneFree := (s: State, m: nat) => s.free == [];
    forall s, m | 0 <= m < j && Shaped(g, s) && NoneFree(s, m) ensures NoneFree(PlaceOutput(g, s, n, m), m + 1) {
      PlaceLeavesNoneFree(g, s, n, m);
    }
    OutputsInduction(g, st, n, NoneFree, 0, j);
  }

  /** The source of a placement is a value the node reads, or a dead buffer that fits. */
  lemma SourceKnown(g: Graph, run: seq<State>, k: nat, j: nat)
    requires IsRun(g, run) && k < |g.nodes| && j < |g.nodes[k].outputs| && g.nodes[k].outputs[j].Some?
    ensures Shaped(g, run[k]) && NodeInRange(g, g.nodes[k]) && Shaped(g, run[|g.nodes|])
    ensures g.nodes[k].outputs[j].value < |g.values|
    ensures var d, out := DecisionAt(g, run[k], g.nodes[k], j), g.nodes[k].outputs[j].value;
      d.OwnOutput? || d.OwnBuffer?
      || (d.source in DefinedBefore(g, k) && Mentions(g.nodes[k], d.source))
      || (k > 0 && d.source < |g.values| && run[|g.nodes|].buffer[d.source] == d.source && MayRecycle(g, out)
          && Fits(g.values[d.source], g.values[out]))
  {
    var n := g.nodes[k];
    OutputBuffer(g, run, k, j);
    InputsReady(g, k);
    RunAccounted(g, run, k);
    OutputsKeep(g, run[k], k, j);
    DecisionAtJustified(g, run[k], n, j);
    var d, before := DecisionAt(g, run[k], n, j), AfterOutputs(g, run[k], n, j);
    match d
    case OwnOutput =>
    case OwnBuffer =>
    case ShareInput(source) => assert n.inputs[0] == Some(source);
    case AliasInput(slot, source) => assert n.inputs[slot] == Some(source);
    case OverwriteInput(slot, source) => assert n.inputs[slot] == Some(source);
    case Recycle(index, source) =>
      if k == 0 {
        NoneFreeYet(g, run[0], n, j);
      }
      DecisionInPriority(g, before, n, Position(n.outputs, j), n.outputs[j].value);
      FreeIsPlaced(g, before, PlacedAfter(DefinedBefore(g, k), n, j), PendingAt(g, k), index);
      PlacedForGood(g, run, k, j, source);
  }

  ghost predicate FirstOutput(g: Graph, o: Id)
  {
    |g.nodes| > 0 && Some(o) in g.nodes[0].outputs
  }

  ghost predicate SharedWithCaller(g: Graph, buffer: seq<Id>, o: Id)
  {
    exists s :: s in CallerOwned(g) && s < |buffer| && o < |buffer| && buffer[s] == buffer[o]
  }

  /** An output of the first node has its own buffer or shares that of a value of the caller. */
  lemma FirstOutputBuffer(g: Graph, run: seq<State>, o: Id)
    requires IsRun(g, run) && FirstOutput(g, o)
    ensures Shaped(g, run[|g.nodes|]) && o < |g.values|
    ensures run[|g.nodes|].buffer[o] == o || SharedWithCaller(g, run[|g.nodes|].buffer, o)
  {
    var n := g.nodes[0];
    var j :| 0 <= j < |n.outputs| && n.outputs[j] == Some(o);
    OutputBuffer(g, run, 0, j);
    SourceKnown(g, run, 0, j);
    var d := DecisionAt(g, run[0], n, j);
    if !(d.OwnOutput? || d.OwnBuffer?) {
      IdSetMember(CallerOwned(g), d.source);
    }
  }

  /** `o` is an output of the first node that no later node mentions and the caller does not ask
      for; it has its own buffer and no other value is ever put there. */
  ghost predicate Forgotten(g: Graph, buffer: seq<Id>, o: Id)
  {
    && FirstOutput(g, o) && !UsedFrom(g, 1, o) && o !in g.outputs
    && o < |buffer| && buffer[o] == o
    && forall v :: v in Defined(g) && v < |buffer| && buffer[v] == o ==> v == o
  }

  ghost predicate DiesFirst(free: seq<FreeBuffer>)
  {
    exists i :: 0 <= i < |free| && free[i].point == 0
  }

  /** Whatever lives in a buffer that dies at step 0 is an output of the first node. */
  lemma DeadAtFirst(g: Graph, run: seq<State>, i: nat, v: Id)
    requires IsRun(g, run) && i < |run[|g.nodes|].free| && run[|g.nodes|].free[i].point == 0
    requires v in Defined(g) && v < |run[|g.nodes|].buffer|
    requires run[|g.nodes|].buffer[v] == run[|g.nodes|].free[i].value
    ensures FirstOutput(g, v) && !UsedFrom(g, 1, v) && v !in g.outputs && v !in CallerOwned(g)
  {
    var last := run[|g.nodes|];
    RunFreeList(g, run, |g.nodes|);
    assert Dead(g, last.buffer, Defined(g), last.free[i]);
    PendingIff(g, 1, v);
    if v !in DefinedBefore(g, 1) {
      DefinedLater(g, |g.nodes|, v);
    }
    FirstDefined(g, v);
  }

  lemma ForgottenIfDead(g: Graph, run: seq<State>, i: nat)
    requires IsRun(g, run) && i < |run[|g.nodes|].free| && run[|g.nodes|].free[i].point == 0
    ensures Forgotten(g, run[|g.nodes|].buffer, run[|g.nodes|].free[i].value)
  {
    var last := run[|g.nodes|];
    var o := last.free[i].value;
    RunAccounted(g, run, |g.nodes|);
    assert IsFree(last.free, o);
    DeadAtFirst(g, run, i, o);
    forall v | v in Defined(g) && v < |last.buffer| && last.buffer[v] == o ensures v == o {
      DeadAtFirst(g, run, i, v);
      FirstOutputBuffer(g, run, v);
      if SharedWithCaller(g, last.buffer, v) {
        var s :| s in CallerOwned(g) && s < |last.buffer| && last.buffer[s] == last.buffer[v];
        IdSetMember(CallerOwned(g), s);
        DefinedGrows(g, 0, |g.nodes|);
        DeadAtFirst(g, run, i, s);
      }
    }
  }

  lemma DeadIfForgotten(g: Graph, run: seq<State>, o: Id)
    requires IsRun(g, run) && Shaped(g, run[|g.nodes|]) && Forgotten(g, run[|g.nodes|].buffer, o)
    ensures DiesFirst(run[|g.nodes|].free)
  {
    var last := run[|g.nodes|];
    FirstDefined(g, o);
    DefinedGrows(g, 1, |g.nodes|);
    NotOwned(g, o);
    FreedExactlyWhenUnowned(g, run, o);
    var i :| 0 <= i < |last.free| && last.free[i].value == o;
    RunFreeList(g, run, |g.nodes|);
    assert Dead(g, last.buffer, Defined(g), last.free[i]);
    var point := last.free[i].point;
    var v :| v in Defined(g) && v < |last.buffer| && last.buffer[v] == o && Count(Released(g.nodes[point]), v) > 0;
    ReleasedIff(g.nodes[point], o);
    assert point == 0;
  }

  lemma NotOwned(g: Graph, o: Id)
    requires WellFormed(g) && FirstOutput(g, o)
    ensures o !in CallerOwned(g)
  {
    assert NodeWellFormed(g, 0);
    ExistingMember(g.nodes[0].outputs, o);
    IdSetMember(CallerOwned(g), o);
  }

  /** The finished plan has an entry that dies at step 0 if and only if some output of the first
      node that nothing uses keeps a buffer to itself. */
  lemma DiesFirstIff(g: Graph, run: seq<State>)
    requires IsRun(g, run)
    ensures DiesFirst(run[|g.nodes|].free) <==> exists o :: Forgotten(g, run[|g.nodes|].buffer, o)
  {
    RunAccounted(g, run, |g.nodes|);
    var last := run[|g.nodes|];
    if DiesFirst(last.free) {
      var i :| 0 <= i < |last.free| && last.free[i].point == 0;
      ForgottenIfDead(g, run, i);
    }
    if o :| Forgotten(g, last.buffer, o) {
      DeadIfForgotten(g, run, o);
    }
  }

  ghost predicate AllCovered(sched: Schedule, n: nat)
    requires |sched.freeFrom| == |sched.freeTo|
  {
    forall i :: 0 <= i < n ==> Covered(sched, i)
  }

  /** Every dead buffer is released by some step if and only if no unused output of the first node
      keeps a buffer to itself. */
  lemma AllReleasedIff(g: Graph, run: seq<State>, sched: Schedule)
    requires IsRun(g, run) && Schedules(run[|g.nodes|].free, |g.nodes|, sched)
    ensures AllCovered(sched, |run[|g.nodes|].free|) <==> !exists o :: Forgotten(g, run[|g.nodes|].buffer, o)
  {
    var free := run[|g.nodes|].free;
    FreePoints(g, run);
    AllReleasedIffNoneDiesFirst(free, |g.nodes|, sched);
    DiesFirstIff(g, run);
  }

  /** A condition on the graph alone: if every output of the first node is mentioned by a later
      node or is a graph output, every dead buffer is released. */
  lemma AllReleasedIfAllUsed(g: Graph, run: seq<State>, sched: Schedule)
    requires IsRun(g, run) && Schedules(run[|g.nodes|].free, |g.nodes|, sched)
    requires forall o :: FirstOutput(g, o) ==> UsedFrom(g, 1, o) || o in g.outputs
    ensures AllCovered(sched, |run[|g.nodes|].free|)
  {
    AllReleasedIff(g, run, sched);
  }

  // ----- when that happens, said of the graph alone -----------------------------------------

  /** Output `j` of the first node is unused, and no alias pair of the kernel names it. */
  ghost predicate LeftBehind(g: Graph, j: nat)
  {
    && |g.nodes| > 0 && j < |g.nodes[0].outputs| && g.nodes[0].outputs[j].Some?
    && var o := g.nodes[0].outputs[j].value;
       && !UsedFrom(g, 1, o) && o !in g.outputs && o < |g.values|
       && (g.values[o].isTensor ==> NoAlias(g.nodes[0], Position(g.nodes[0].outputs, j)))
  }

  /** No output of a later node can be given a dead buffer of the size of `o`. */
  ghost predicate NeverRecycled(g: Graph, o: Id)
  {
    o < |g.values| &&
    forall k, v :: 1 <= k < |g.nodes| && Some(v) in g.nodes[k].outputs && v < |g.values| ==>
      !(MayRecycle(g, v) && Fits(g.values[o], g.values[v]))
  }

  /** The caller keeps its hold on what the first node reads, so none of it is overwritten. */
  lemma FirstNeverOverwrites(g: Graph, run: seq<State>, j: nat)
    requires IsRun(g, run) && |g.nodes| > 0 && j < |g.nodes[0].outputs| && g.nodes[0].outputs[j].Some?
    ensures Shaped(g, run[0]) && NodeInRange(g, g.nodes[0]) && !DecisionAt(g, run[0], g.nodes[0], j).OverwriteInput?
  {
    var n := g.nodes[0];
    InputsReady(g, 0);
    RunAccounted(g, run, 0);
    OutputsKeep(g, run[0], 0, j);
    DecisionAtJustified(g, run[0], n, j);
    var before := AfterOutputs(g, run[0], n, j);
    var d := DecisionAt(g, run[0], n, j);
    if d.OverwriteInput? {
      assert n.inputs[d.slot] == Some(d.source);
      IdSetMember(CallerOwned(g), d.source);
      HeldTwice(g, d.source);
      UsedTwice(g, before, PlacedAfter(DefinedBefore(g, 0), n, j), PendingAt(g, 0), d.source);
      assert false;
    }
  }

  lemma HeldTwice(g: Graph, v: Id)
    requires |g.nodes| > 0 && Some(v) in g.nodes[0].inputs && v in CallerOwned(g)
    ensures Count(PendingAt(g, 0), v) >= 2
  {
    ReleasedIff(g.nodes[0], v);
    PendingIff(g, 1, v);
    assert PendingAt(g, 0) == Released(g.nodes[0]) + PendingAt(g, 1);
    CountConcat(Released(g.nodes[0]), PendingAt(g, 1), v);
  }

  lemma UsedTwice(g: Graph, st: State, placed: set<Id>, pending: seq<Id>, v: Id)
    requires Accounted(g, st, placed, pending) && v in placed && Count(pending, v) >= 2
    ensures st.use[st.buffer[v]] >= 2
  {
    CountRootAtLeast(st.buffer, pending, v);
  }

  lemma {:induction false} CountRootAtLeast(buffer: seq<Id>, pending: seq<Id>, v: Id)
    requires v < |buffer| && forall i :: 0 <= i < |pending| ==> pending[i] < |buffer|
    ensures CountRoot(buffer, pending, buffer[v]) >= Count(pending, v)
  {
    if pending != [] {
      CountRootAtLeast(buffer, pending[1..], v);
      assert pending == [pending[0]] + pending[1..];
      CountConcat([pending[0]], pending[1..], v);
    }
  }

  lemma CallerKeepsOwn(g: Graph, run: seq<State>, v: Id)
    requires IsRun(g, run) && v in CallerOwned(g)
    ensures Shaped(g, run[|g.nodes|]) && v < |g.values| && run[|g.nodes|].buffer[v] == v
  {
    IdSetMember(CallerOwned(g), v);
    DefinedGrows(g, 0, |g.nodes|);
    RunLeavesBuffers(g, run, 0, v);
  }

  /** An unused output of the first node with no input to alias gets a buffer of its own. */
  lemma LeftBehindIsOwn(g: Graph, run: seq<State>, j: nat)
    requires IsRun(g, run) && LeftBehind(g, j)
    ensures Shaped(g, run[|g.nodes|])
    ensures var o := g.nodes[0].outputs[j].value; run[|g.nodes|].buffer[o] == o
  {
    var n := g.nodes[0];
    OutputBuffer(g, run, 0, j);
    FirstNeverOverwrites(g, run, j);
    NoneFreeYet(g, run[0], n, j);
    DecisionAtJustified(g, run[0], n, j);
    DecisionInPriority(g, AfterOutputs(g, run[0], n, j), n, Position(n.outputs, j), n.outputs[j].value);
  }

  /** Nothing is ever put into the buffer of an output that nothing uses and that never fits. */
  lemma {:induction false} NothingFollows(g: Graph, run: seq<State>, o: Id, k: nat, v: Id)
    requires IsRun(g, run) && FirstOutput(g, o) && !UsedFrom(g, 1, o) && NeverRecycled(g, o)
    requires k <= |g.nodes| && v in DefinedBefore(g, k)
    requires Shaped(g, run[|g.nodes|]) && v < |g.values| && run[|g.nodes|].buffer[v] == o
    ensures v == o
  {
    if k == 0 {
      IdSetMember(CallerOwned(g), v);
      CallerKeepsOwn(g, run, v);
    } else if v in DefinedBefore(g, k - 1) {
      NothingFollows(g, run, o, k - 1, v);
    } else {
      var n := g.nodes[k - 1];
      IdSetMember(Existing(n.outputs), v);
      ExistingMember(n.outputs, v);
      var j :| 0 <= j < |n.outputs| && n.outputs[j] == Some(v);
      OutputBuffer(g, run, k - 1, j);
      SourceKnown(g, run, k - 1, j);
      var d := DecisionAt(g, run[k - 1], n, j);
      if !(d.OwnOutput? || d.OwnBuffer?) && d.source in DefinedBefore(g, k - 1) && Mentions(n, d.source) {
        NothingFollows(g, run, o, k - 1, d.source);
        NotOwned(g, o);
        IdSetMember(CallerOwned(g), o);
      }
    }
  }

  /** A sufficient condition on the graph alone for a buffer that no step releases. */
  lemma DiesFirstIfLeftBehind(g: Graph, run: seq<State>, j: nat)
    requires IsRun(g, run) && LeftBehind(g, j) && NeverRecycled(g, g.nodes[0].outputs[j].value)
    ensures DiesFirst(run[|g.nodes|].free)
  {
    var o := g.nodes[0].outputs[j].value;
    LeftBehindIsOwn(g, run, j);
    var buffer := run[|g.nodes|].buffer;
    assert FirstOutput(g, o);
    forall v | v in Defined(g) && v < |buffer| && buffer[v] == o ensures v == o {
      NothingFollows(g, run, o, |g.nodes|, v);
    }
    assert Forgotten(g, buffer, o);
    DeadIfForgotten(g, run, o);
  }

  lemma LeftBehindIfForgotten(g: Graph, run: seq<State>, o: Id)
    requires IsRun(g, run) && Shaped(g, run[|g.nodes|]) && Forgotten(g, run[|g.nodes|].buffer, o)
    ensures exists j :: LeftBehind(g, j)
  {
    var n := g.nodes[0];
    var j :| 0 <= j < |n.outputs| && n.outputs[j] == Some(o);
    OutputBuffer(g, run, 0, j);
    DecisionAtJustified(g, run[0], n, j);
    DecisionInPriority(g, AfterOutputs(g, run[0], n, j), n, Position(n.outputs, j), o);
    var d := DecisionAt(g, run[0], n, j);
    if d.AliasInput? {
      assert n.inputs[d.slot] == Some(d.source);
      InputsReady(g, 0);
      IdSetMember(CallerOwned(g), d.source);
      CallerKeepsOwn(g, run, d.source);
      NotOwned(g, o);
    }
    assert LeftBehind(g, j);
  }

  /** When nodes may run in parallel the condition is exact: a buffer is never released if and
      only if the first node has an unused output that aliases no input. */
  lemma ParallelAllReleasedIff(g: Graph, run: seq<State>, sched: Schedule)
    requires IsRun(g, run) && g.parallel && Schedules(run[|g.nodes|].free, |g.nodes|, sched)
    ensures AllCovered(sched, |run[|g.nodes|].free|) <==> !exists j :: LeftBehind(g, j)
  {
    AllReleasedIff(g, run, sched);
    DiesFirstIff(g, run);
    RunAccounted(g, run, |g.nodes|);
    if o :| Forgotten(g, run[|g.nodes|].buffer, o) {
      LeftBehindIfForgotten(g, run, o);
    }
    if j :| LeftBehind(g, j) {
      DiesFirstIfLeftBehind(g, run, j);
    }
  }

  // ----- the smallest such graph ------------------------------------------------------------

  /** One node without inputs; nobody asks for its one output. */
  function Unasked(info: ValueInfo, kernel: KernelDef, parallel: bool): (g: Graph)
  {
    Graph([info], [], [], [], [Node([], [], [Some(0)], Some(kernel), true, false)], [], false, parallel)
  }

  lemma UnaskedDefined(g: Graph)
    requires exists info, kernel, parallel :: g == Unasked(info, kernel, parallel)
    ensures Existing(g.nodes[0].outputs) == [0] && DefinedBefore(g, 0) == {} && DefinedBefore(g, 1) == {0}
  {
    assert g.nodes[0].outputs[..0] == [];
    assert IdSet([0]) == {0};
  }

  lemma UnaskedWellFormed(g: Graph)
    requires exists info, kernel, parallel :: g == Unasked(info, kernel, parallel)
    ensures WellFormed(g)
  {
    UnaskedDefined(g);
    var n := g.nodes[0];
    assert AllIn(Existing(n.inputs), {}) && AllIn(Existing(n.implicitInputs), {});
    assert NodeWellFormed(g, 0);
    assert AllIn(g.outputs, Defined(g));
  }

  lemma UnaskedLeftBehind(g: Graph)
    requires exists info, kernel, parallel :: g == Unasked(info, kernel, parallel)
    ensures LeftBehind(g, 0) && NeverRecycled(g, 0)
  {
  }

  lemma TwoFree(free: seq<FreeBuffer>, r: Id)
    requires FreeOnce(free) && |free| > 1
    ensures exists i :: 0 <= i < |free| && free[i].value != r
  {
    assert free[0].value != free[1].value;
  }

  /** Whatever its value and its kernel are, that graph is well formed, its plan holds one dead
      buffer, and no schedule of the plan releases it. */
  lemma UnaskedNeverReleased(info: ValueInfo, kernel: KernelDef, parallel: bool, run: seq<State>, sched: Schedule)
    requires IsRun(Unasked(info, kernel, parallel), run) && Schedules(run[1].free, 1, sched)
    ensures run[1].free == [FreeBuffer(0, 0)] && !Covered(sched, 0)
  {
    var g := Unasked(info, kernel, parallel);
    UnaskedWellFormed(g);
    UnaskedLeftBehind(g);
    DiesFirstIfLeftBehind(g, run, 0);
    var free := run[1].free;
    var i :| 0 <= i < |free| && free[i].point == 0;
    RunAccounted(g, run, 1);
    if |free| > 1 {
      TwoFree(free, 0);
    }
    forall j | 0 <= j < |free| ensures free[j].value == 0 {
      assert IsFree(free, free[j].value);
    }
    assert EntryAt(free, 0) == FreeBuffer(0, 0);
    CoveredIff(free, 1, sched, 0);
  }
}
