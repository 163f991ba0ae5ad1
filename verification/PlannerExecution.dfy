/** Running a planned graph.  The same executor is run twice: with every value in a buffer
    of its own and nothing ever freed, and with the planner's buffers and deallocations.
    The two compute the same thing. */
module PlannerExecution {
  import opened Prelude
  import opened PlannerGraph
  import opened PlannerState
  import opened PlannerLedger
  import opened Executor
  import opened PlannerAccounting
  import opened PlannerLiveness

  // ----- the plan, in terms of its final buffers ---------------------------------------------

  ghost function DecisionAt(g: Graph, st: State, n: Node, j: nat): (d: Decision)
    requires Shaped(g, st) && NodeInRange(g, n) && j < |n.outputs| && n.outputs[j].Some?
  {
    OutputNumInRange(n.outputs, j);
    Decide(g, AfterOutputs(g, st, n, j), n, Position(n.outputs, j), n.outputs[j].value)
  }

  /** How output `j` of node `k` shares its buffer with the values placed before it. */
  ghost predicate Harmless(g: Graph, buffer: seq<Id>, k: nat, j: nat, d: Decision)
    requires k < |g.nodes| && j < |g.nodes[k].outputs| && g.nodes[k].outputs[j].Some?
    requires NodeInRange(g, g.nodes[k]) && |buffer| == |g.values|
    requires forall v :: v in Defined(g) ==> v < |g.values|
  {
    var n, pending := g.nodes[k], PendingAt(g, k);
    var placed := PlacedAfter(DefinedBefore(g, k), n, j);
    var out := n.outputs[j].value;
    match d
    case OwnOutput => forall v :: v in placed && v < |buffer| ==> buffer[v] != buffer[out]
    case OwnBuffer => forall v :: v in placed && v < |buffer| ==> buffer[v] != buffer[out]
    case ShareInput(source) => source < |buffer| && buffer[out] == buffer[source]
    case AliasInput(_, source) => source < |buffer| && buffer[out] == buffer[source]
    case OverwriteInput(slot, source) =>
      && source < |buffer| && buffer[out] == buffer[source]
      && slot < |n.inputs|
      && (forall i ::
            0 <= i < |pending| && pending[i] in placed && pending[i] < |buffer| && i != Position(n.inputs, slot)
            ==> buffer[pending[i]] != buffer[out])
    case Recycle(_, _) =>
      forall i :: 0 <= i < |pending| && pending[i] in placed && pending[i] < |buffer|
        ==> buffer[pending[i]] != buffer[out]
  }

  /** Once placed, a value keeps its buffer. */
  lemma PlacedForGood(g: Graph, run: seq<State>, k: nat, j: nat, v: Id)
    requires IsRun(g, run) && k < |g.nodes| && j <= |g.nodes[k].outputs|
    requires v in PlacedAfter(DefinedBefore(g, k), g.nodes[k], j)
    ensures Shaped(g, run[k]) && NodeInRange(g, g.nodes[k]) && Shaped(g, run[|g.nodes|]) && v < |g.values|
    ensures run[|g.nodes|].buffer[v] == AfterOutputs(g, run[k], g.nodes[k], j).buffer[v]
  {
    var n := g.nodes[k];
    WellFormedNode(g, k);
    RunAccounted(g, run, k);
    DefinedGrows(g, k + 1, |g.nodes|);
    ExistingPrefix(n.outputs, j);
    IdSetMember(Existing(n.outputs[..j]), v);
    IdSetMember(Existing(n.outputs), v);
    assert StepAt(g, run, k);
    NodeLeavesBuffers(g, run[k], k, j, v);
    RunLeavesBuffers(g, run, k + 1, v);
  }

  /** Every placement in a finished plan is harmless. */
  lemma PlacementsHarmless(g: Graph, run: seq<State>, k: nat, j: nat)
    requires IsRun(g, run) && k < |g.nodes|
    requires j < |g.nodes[k].outputs| && g.nodes[k].outputs[j].Some?
    ensures Shaped(g, run[k]) && NodeInRange(g, g.nodes[k]) && Shaped(g, run[|g.nodes|])
    ensures Harmless(g, run[|g.nodes|].buffer, k, j, DecisionAt(g, run[k], g.nodes[k], j))
  {
    var n, buffer := g.nodes[k], run[|g.nodes|].buffer;
    var out := n.outputs[j].value;
    var placed := PlacedAfter(DefinedBefore(g, k), n, j);
    WellFormedNode(g, k);
    RunAccounted(g, run, k);
    OutputsKeep(g, run[k], k, j);
    InputsReady(g, k);
    OutputUnplaced(g, k, j);
    OutputNumInRange(n.outputs, j);
    PlacedAfterNext(DefinedBefore(g, k), n, j);
    PlacedForGood(g, run, k, j + 1, out);
    forall v | v in placed ensures v < |g.values| && buffer[v] == AfterOutputs(g, run[k], n, j).buffer[v] {
      PlacedForGood(g, run, k, j, v);
    }
    PlacementHarmless(g, AfterOutputs(g, run[k], n, j), buffer, k, j);
  }

  lemma SourcePlaced(g: Graph, st: State, placed: set<Id>, pending: seq<Id>, n: Node, outputNum: nat, out: Id,
                     d: Decision)
    requires Accounted(g, st, placed, pending) && NodeInRange(g, n) && InputsPlaced(n, placed)
    requires outputNum < |n.outputs| && out < |g.values| && Justified(g, st, n, outputNum, out, d)
    requires !(d.OwnOutput? || d.OwnBuffer?)
    ensures d.source in placed
  {
    match d
    case ShareInput(source) => assert n.inputs[0] == Some(source);
    case AliasInput(slot, source) => assert n.inputs[slot] == Some(source);
    case OverwriteInput(slot, source) => assert n.inputs[slot] == Some(source);
    case Recycle(index, source) => FreeIsPlaced(g, st, placed, pending, index);
  }

  /** The buffer an output is given: its own, or that of the source, which has one already. */
  lemma BufferGiven(g: Graph, st: State, k: nat, j: nat)
    requires WellFormed(g) && k < |g.nodes| && j < |g.nodes[k].outputs| && g.nodes[k].outputs[j].Some?
    requires NodeInRange(g, g.nodes[k]) && Position(g.nodes[k].outputs, j) < |g.nodes[k].outputs|
    requires Accounted(g, st, PlacedAfter(DefinedBefore(g, k), g.nodes[k], j), PendingAt(g, k))
    ensures var n, out := g.nodes[k], g.nodes[k].outputs[j].value;
      var d, buffer := Decide(g, st, n, Position(n.outputs, j), out), PlaceOutput(g, st, n, j).buffer;
      if d.OwnOutput? || d.OwnBuffer? then buffer[out] == out
      else d.source in PlacedAfter(DefinedBefore(g, k), n, j) && buffer[out] == st.buffer[d.source]
  {
    var n, placed := g.nodes[k], PlacedAfter(DefinedBefore(g, k), g.nodes[k], j);
    var out := n.outputs[j].value;
    var d := Decide(g, st, n, Position(n.outputs, j), out);
    OutputUnplaced(g, k, j);
    DecideJustified(g, st, n, Position(n.outputs, j), out);
    if !(d.OwnOutput? || d.OwnBuffer?) {
      InputsReady(g, k);
      SourcePlaced(g, st, placed, PendingAt(g, k), n, Position(n.outputs, j), out, d);
    }
  }

  lemma PlacementHarmless(g: Graph, before: State, buffer: seq<Id>, k: nat, j: nat)
    requires WellFormed(g) && k < |g.nodes| && NodeInRange(g, g.nodes[k])
    requires j < |g.nodes[k].outputs| && g.nodes[k].outputs[j].Some?
    requires Accounted(g, before, PlacedAfter(DefinedBefore(g, k), g.nodes[k], j), PendingAt(g, k))
    requires SameBuffers(g, before, buffer, PlacedAfter(DefinedBefore(g, k), g.nodes[k], j))
    requires buffer[g.nodes[k].outputs[j].value]
      == PlaceOutput(g, before, g.nodes[k], j).buffer[g.nodes[k].outputs[j].value]
    requires Position(g.nodes[k].outputs, j) < |g.nodes[k].outputs|
    ensures Harmless(g, buffer, k, j,
                     Decide(g, before, g.nodes[k], Position(g.nodes[k].outputs, j), g.nodes[k].outputs[j].value))
  {
    var n, out := g.nodes[k], g.nodes[k].outputs[j].value;
    BufferGiven(g, before, k, j);
    DecideJustified(g, before, n, Position(n.outputs, j), out);
    JustifiedHarmless(g, before, buffer, k, j, Decide(g, before, n, Position(n.outputs, j), out));
  }

  lemma JustifiedHarmless(g: Graph, before: State, buffer: seq<Id>, k: nat, j: nat, d: Decision)
    requires WellFormed(g) && k < |g.nodes| && NodeInRange(g, g.nodes[k])
    requires j < |g.nodes[k].outputs| && g.nodes[k].outputs[j].Some?
    requires Accounted(g, before, PlacedAfter(DefinedBefore(g, k), g.nodes[k], j), PendingAt(g, k))
    requires SameBuffers(g, before, buffer, PlacedAfter(DefinedBefore(g, k), g.nodes[k], j))
    requires Position(g.nodes[k].outputs, j) < |g.nodes[k].outputs|
    requires Justified(g, before, g.nodes[k], Position(g.nodes[k].outputs, j), g.nodes[k].outputs[j].value, d)
    requires var out := g.nodes[k].outputs[j].value;
      if d.OwnOutput? || d.OwnBuffer? then buffer[out] == out
      else d.source in PlacedAfter(DefinedBefore(g, k), g.nodes[k], j) && buffer[out] == buffer[d.source]
    ensures Harmless(g, buffer, k, j, d)
  {
    var n, pending := g.nodes[k], PendingAt(g, k);
    var placed := PlacedAfter(DefinedBefore(g, k), n, j);
    match d
    case OwnOutput =>
      OutputUnplaced(g, k, j);
      FreshAlone(g, before, placed, pending, buffer, n.outputs[j].value);
    case OwnBuffer =>
      OutputUnplaced(g, k, j);
      FreshAlone(g, before, placed, pending, buffer, n.outputs[j].value);
    case ShareInput(source) =>
    case AliasInput(slot, source) =>
    case OverwriteInput(slot, source) =>
      InputsReady(g, k);
      PositionHolds(n.inputs, slot);
      OverwrittenAlone(g, before, placed, pending, buffer, Position(n.inputs, slot), source);
    case Recycle(index, source) =>
      FreeIsPlaced(g, before, placed, pending, index);
      RecycledAlone(g, before, placed, pending, buffer, index);
  }

  /** No placed value is in the buffer of one that is not placed. */
  lemma FreshAlone(g: Graph, st: State, placed: set<Id>, pending: seq<Id>, buffer: seq<Id>, out: Id)
    requires Accounted(g, st, placed, pending) && SameBuffers(g, st, buffer, placed) && out !in placed
    ensures forall v :: v in placed && v < |buffer| ==> buffer[v] != out
  {
  }

  /** With its last use, an input is the only pending value in its buffer. */
  lemma OverwrittenAlone(g: Graph, st: State, placed: set<Id>, pending: seq<Id>, buffer: seq<Id>, p: nat, source: Id)
    requires Accounted(g, st, placed, pending) && SameBuffers(g, st, buffer, placed)
    requires p < |pending| && pending[p] == source && source in placed && st.use[st.buffer[source]] == 1
    ensures forall i :: 0 <= i < |pending| && pending[i] in placed && pending[i] < |buffer| && i != p ==>
      buffer[pending[i]] != buffer[source]
  {
    LastUse(g, st, placed, pending, p);
  }

  /** No pending value is in a buffer of the free list. */
  lemma RecycledAlone(g: Graph, st: State, placed: set<Id>, pending: seq<Id>, buffer: seq<Id>, index: nat)
    requires Accounted(g, st, placed, pending) && SameBuffers(g, st, buffer, placed) && index < |st.free|
    ensures forall i :: 0 <= i < |pending| && pending[i] in placed && pending[i] < |buffer| ==>
      buffer[pending[i]] != st.free[index].value
  {
    RecycledIsUnused(g, st, placed, pending, index);
  }

  // ----- one output written ------------------------------------------------------------------------

  /** The inputs not yet overwritten are still in their buffers. */
  ghost predicate StillThere<T>(inputs: seq<Option<Id>>, buffer: seq<Id>, planned: map<Id, T>, ins: seq<Option<T>>,
                                taken: set<nat>)
    requires |ins| == |inputs|
  {
    forall slot {:trigger inputs[slot]} :: 0 <= slot < |inputs| && inputs[slot].Some? && slot !in taken ==>
      inputs[slot].value < |buffer| && buffer[inputs[slot].value] in planned &&
      ins[slot] == Some(planned[buffer[inputs[slot].value]])
  }

  /** Only an alias shares its buffer with a value that is used after the node. */
  lemma LaterUseMeansAlias(g: Graph, buffer: seq<Id>, k: nat, j: nat, d: Decision, v: Id)
    requires WellFormed(g) && k < |g.nodes| && NodeInRange(g, g.nodes[k]) && |buffer| == |g.values|
    requires j < |g.nodes[k].outputs| && g.nodes[k].outputs[j].Some?
    requires Harmless(g, buffer, k, j, d)
    requires d.OverwriteInput? ==> d.slot < |g.nodes[k].inputs| && g.nodes[k].inputs[d.slot].Some?
    requires v in PlacedAfter(DefinedBefore(g, k), g.nodes[k], j) && Count(PendingAt(g, k + 1), v) > 0 && v < |buffer|
    requires buffer[v] == buffer[g.nodes[k].outputs[j].value]
    ensures d.AliasInput? || d.ShareInput?
  {
    var n, later := g.nodes[k], PendingAt(g, k + 1);
    InputsReady(g, k);
    CountPositive(later, v);
    var i :| 0 <= i < |later| && later[i] == v;
    assert PendingAt(g, k)[|Released(n)| + i] == v;
    if d.OverwriteInput? {
      PositionHolds(n.inputs, d.slot);
    }
  }

  /** Only an alias, or the output that overwrites it, shares its buffer with an input. */
  lemma SharedInputMeansAlias(g: Graph, buffer: seq<Id>, k: nat, j: nat, d: Decision, slot: nat)
    requires WellFormed(g) && k < |g.nodes| && NodeInRange(g, g.nodes[k]) && |buffer| == |g.values|
    requires j < |g.nodes[k].outputs| && g.nodes[k].outputs[j].Some?
    requires Harmless(g, buffer, k, j, d)
    requires d.OverwriteInput? ==> d.slot < |g.nodes[k].inputs| && g.nodes[k].inputs[d.slot].Some?
    requires slot < |g.nodes[k].inputs| && g.nodes[k].inputs[slot].Some?
    requires buffer[g.nodes[k].inputs[slot].value] == buffer[g.nodes[k].outputs[j].value]
    ensures d.AliasInput? || d.ShareInput? || (d.OverwriteInput? && d.slot == slot)
  {
    var n := g.nodes[k];
    InputsReady(g, k);
    PositionHolds(n.inputs, slot);
    assert PendingAt(g, k)[Position(n.inputs, slot)] == n.inputs[slot].value;
    if d.OverwriteInput? && d.slot != slot {
      PositionHolds(n.inputs, d.slot);
      if d.slot < slot {
        PositionGrows(n.inputs, d.slot, slot);
      } else {
        PositionGrows(n.inputs, slot, d.slot);
      }
    }
  }

  ghost predicate CopiesSource<T>(n: Node, d: Decision, ins: seq<Option<T>>, taken: set<nat>, x: T)
    requires |ins| == |n.inputs|
  {
    match d
    case AliasInput(slot, source) =>
      slot < |ins| && slot !in taken && n.inputs[slot] == Some(source) && ins[slot] == Some(x)
    case ShareInput(source) => 0 < |ins| && 0 !in taken && n.inputs[0] == Some(source) && ins[0] == Some(x)
    case OverwriteInput(slot, source) => slot < |ins| && n.inputs[slot] == Some(source)
    case _ => true
  }

  ghost function TakenWith(taken: set<nat>, d: Decision): (s: set<nat>)
  {
    if d.OverwriteInput? then taken + {d.slot} else taken
  }

  /** Writing what the buffer holds already, as an alias does, changes nothing. */
  lemma CopyChangesNothing<T>(n: Node, buffer: seq<Id>, out: Id, d: Decision, planned: map<Id, T>,
                              ins: seq<Option<T>>, taken: set<nat>, x: T)
    requires |ins| == |n.inputs| && CopiesSource(n, d, ins, taken, x)
    requires StillThere(n.inputs, buffer, planned, ins, taken) && (d.AliasInput? || d.ShareInput?)
    requires out < |buffer| && d.source < |buffer| && buffer[out] == buffer[d.source]
    ensures planned[buffer[out] := x] == planned
  {
    var slot := if d.AliasInput? then d.slot else 0;
    assert n.inputs[slot] == Some(d.source);
  }

  /** Writing one output, in the planned buffer and in a private one: values still to be used. */
  lemma WriteKeepsValues<T>(g: Graph, buffer: seq<Id>, k: nat, j: nat, d: Decision,
                            planned: map<Id, T>, private: map<Id, T>, x: T)
    requires WellFormed(g) && k < |g.nodes| && NodeInRange(g, g.nodes[k]) && |buffer| == |g.values|
    requires j < |g.nodes[k].outputs| && g.nodes[k].outputs[j].Some? && Harmless(g, buffer, k, j, d)
    requires d.OverwriteInput? ==> d.slot < |g.nodes[k].inputs| && g.nodes[k].inputs[d.slot].Some?
    requires d.AliasInput? || d.ShareInput? ==> planned[buffer[g.nodes[k].outputs[j].value] := x] == planned
    requires Agrees(buffer, planned, private, PlacedAfter(DefinedBefore(g, k), g.nodes[k], j), PendingAt(g, k + 1))
    ensures var out := g.nodes[k].outputs[j].value;
      Agrees(buffer, planned[buffer[out] := x], private[out := x],
             PlacedAfter(DefinedBefore(g, k), g.nodes[k], j + 1), PendingAt(g, k + 1))
  {
    var n, out := g.nodes[k], g.nodes[k].outputs[j].value;
    var placed := PlacedAfter(DefinedBefore(g, k), n, j);
    PlacedAfterNext(DefinedBefore(g, k), n, j);
    OutputUnplaced(g, k, j);
    forall v | v in placed + {out} && Count(PendingAt(g, k + 1), v) > 0 && v < |buffer|
      ensures Holds(buffer, planned[buffer[out] := x], private[out := x], v)
    {
      if v != out {
        assert Holds(buffer, planned, private, v);
        if buffer[v] == buffer[out] {
          LaterUseMeansAlias(g, buffer, k, j, d, v);
        }
      }
    }
  }

  /** The same for the inputs that have not been overwritten. */
  lemma WriteKeepsInputs<T>(g: Graph, buffer: seq<Id>, k: nat, j: nat, d: Decision,
                            planned: map<Id, T>, ins: seq<Option<T>>, taken: set<nat>, x: T)
    requires WellFormed(g) && k < |g.nodes| && NodeInRange(g, g.nodes[k]) && |buffer| == |g.values|
    requires j < |g.nodes[k].outputs| && g.nodes[k].outputs[j].Some? && Harmless(g, buffer, k, j, d)
    requires d.OverwriteInput? ==> d.slot < |g.nodes[k].inputs| && g.nodes[k].inputs[d.slot].Some?
    requires d.AliasInput? || d.ShareInput? ==> planned[buffer[g.nodes[k].outputs[j].value] := x] == planned
    requires |ins| == |g.nodes[k].inputs| && StillThere(g.nodes[k].inputs, buffer, planned, ins, taken)
    ensures StillThere(g.nodes[k].inputs, buffer, planned[buffer[g.nodes[k].outputs[j].value] := x], ins,
                       TakenWith(taken, d))
  {
    var n, out := g.nodes[k], g.nodes[k].outputs[j].value;
    forall slot | 0 <= slot < |n.inputs| && n.inputs[slot].Some? && slot !in TakenWith(taken, d)
      ensures buffer[n.inputs[slot].value] in planned
      ensures ins[slot] == Some(planned[buffer[out] := x][buffer[n.inputs[slot].value]])
    {
      if buffer[n.inputs[slot].value] == buffer[out] {
        SharedInputMeansAlias(g, buffer, k, j, d, slot);
      }
    }
  }

  // ----- one node ------------------------------------------------------------------------------------

  /** Input slots overwritten by the first `j` outputs. */
  ghost function TakenBy(g: Graph, st: State, n: Node, j: nat): (s: set<nat>)
    requires Shaped(g, st) && NodeInRange(g, n) && j <= |n.outputs|
  {
    if j == 0 then {}
    else if n.outputs[j - 1].None? then TakenBy(g, st, n, j - 1)
    else TakenWith(TakenBy(g, st, n, j - 1), DecisionAt(g, st, n, j - 1))
  }

  lemma DecisionAtJustified(g: Graph, st: State, n: Node, j: nat)
    requires Shaped(g, st) && NodeInRange(g, n) && j < |n.outputs| && n.outputs[j].Some?
    ensures Position(n.outputs, j) < |n.outputs|
    ensures Justified(g, AfterOutputs(g, st, n, j), n, Position(n.outputs, j), n.outputs[j].value,
                      DecisionAt(g, st, n, j))
  {
    OutputNumInRange(n.outputs, j);
    DecideJustified(g, AfterOutputs(g, st, n, j), n, Position(n.outputs, j), n.outputs[j].value);
  }

  /** An input that must be aliased is never among those overwritten. */
  lemma {:induction false} AliasedNotTaken(g: Graph, st: State, n: Node, slot: nat, j: nat, m: nat)
    requires Shaped(g, st) && NodeInRange(g, n) && AliasesApart(n)
    requires m <= j < |n.outputs| && n.outputs[j].Some?
    requires Aliased(n, Position(n.outputs, j), slot)
    ensures slot !in TakenBy(g, st, n, m)
  {
    if m > 0 {
      AliasedNotTaken(g, st, n, slot, j, m - 1);
      if n.outputs[m - 1].Some? {
        DecisionAtJustified(g, st, n, m - 1);
        PositionGrows(n.outputs, m - 1, j);
      }
    }
  }

  /** What output `j` receives is what its decision needs it to be. */
  lemma OutputCopies<T>(g: Graph, st: State, n: Node, j: nat, ins: seq<Option<T>>, outs: seq<T>)
    requires Shaped(g, st) && NodeInRange(g, n) && AliasesApart(n)
    requires n.isIdentity ==> |n.outputs| == 1
    requires j < |n.outputs| && n.outputs[j].Some?
    requires |ins| == |n.inputs| && NodeHonours(n, ins, outs)
    requires AllFound(n.inputs, ins)
    ensures CopiesSource(n, DecisionAt(g, st, n, j), ins, TakenBy(g, st, n, j), outs[j])
  {
    var d := DecisionAt(g, st, n, j);
    DecisionAtJustified(g, st, n, j);
    if d.AliasInput? {
      assert Aliased(n, Position(n.outputs, j), d.slot);
      AliasedNotTaken(g, st, n, d.slot, j, j);
      assert ins[d.slot].Some? && outs[j] == ins[d.slot].value;
    }
  }

  /** Two placements of the same arguments hold the same contents. */
  lemma ReadsAgree<T>(args: seq<Option<Id>>, buffer: seq<Id>, own: seq<Id>, planned: map<Id, T>, private: map<Id, T>,
                      placed: set<Id>, pending: seq<Id>)
    requires Agrees(buffer, planned, private, placed, pending)
    requires |own| == |buffer| && forall v :: 0 <= v < |own| ==> own[v] == v
    requires forall i :: 0 <= i < |args| && args[i].Some? ==>
      args[i].value < |buffer| && args[i].value in placed && Count(pending, args[i].value) > 0
    ensures Read(args, buffer, planned) == Read(args, own, private)
    ensures AllFound(args, Read(args, buffer, planned))
  {
    forall i | 0 <= i < |args|
      ensures Fetch(args[i], buffer, planned) == Fetch(args[i], own, private)
      ensures args[i].Some? ==> Fetch(args[i], buffer, planned).Some?
    {
      if args[i].Some? {
        assert own[args[i].value] == args[i].value;
        assert Holds(buffer, planned, private, args[i].value);
      }
    }
  }

  /** What node `k` reads is placed and in use. */
  lemma ArgsReady(g: Graph, k: nat, args: seq<Option<Id>>)
    requires WellFormed(g) && k < |g.nodes|
    requires args == g.nodes[k].inputs || args == g.nodes[k].implicitInputs
    ensures forall i :: 0 <= i < |args| && args[i].Some? ==>
      args[i].value < |g.values| && args[i].value in DefinedBefore(g, k) && Count(PendingAt(g, k), args[i].value) > 0
  {
    var n := g.nodes[k];
    assert NodeWellFormed(g, k);
    DefinedGrows(g, k, |g.nodes|);
    InputsReady(g, k);
    forall i | 0 <= i < |args| && args[i].Some?
      ensures args[i].value in DefinedBefore(g, k) && Count(PendingAt(g, k), args[i].value) > 0
    {
      ExistingMember(args, args[i].value);
      assert args[i].value in Released(n);
      CountPositive(PendingAt(g, k), args[i].value);
    }
  }

  lemma AgreesLater<T>(g: Graph, buffer: seq<Id>, planned: map<Id, T>, private: map<Id, T>, k: nat)
    requires WellFormed(g) && k < |g.nodes|
    requires Agrees(buffer, planned, private, DefinedBefore(g, k), PendingAt(g, k))
    ensures Agrees(buffer, planned, private, PlacedAfter(DefinedBefore(g, k), g.nodes[k], 0), PendingAt(g, k + 1))
  {
    InputsReady(g, k);
    assert PlacedAfter(DefinedBefore(g, k), g.nodes[k], 0) == DefinedBefore(g, k);
    forall v | v in DefinedBefore(g, k) && Count(PendingAt(g, k + 1), v) > 0 && v < |buffer|
      ensures Holds(buffer, planned, private, v)
    {
      CountConcat(Released(g.nodes[k]), PendingAt(g, k + 1), v);
    }
  }

  /** What holds of the two memories once `j` outputs of node `k` have been written. */
  ghost predicate InStep<T>(g: Graph, run: seq<State>, k: nat, j: nat, planned: map<Id, T>, private: map<Id, T>,
                            ins: seq<Option<T>>)
    requires IsRun(g, run) && k < |g.nodes| && j <= |g.nodes[k].outputs| && |ins| == |g.nodes[k].inputs|
    requires Shaped(g, run[k]) && Shaped(g, run[|g.nodes|]) && NodeInRange(g, g.nodes[k])
  {
    && Agrees(run[|g.nodes|].buffer, planned, private, PlacedAfter(DefinedBefore(g, k), g.nodes[k], j),
              PendingAt(g, k + 1))
    && StillThere(g.nodes[k].inputs, run[|g.nodes|].buffer, planned, ins, TakenBy(g, run[k], g.nodes[k], j))
  }

  ghost predicate NodeFits<T>(g: Graph, k: nat, ins: seq<Option<T>>, outs: seq<T>)
    requires k < |g.nodes|
  {
    var n := g.nodes[k];
    && AliasesApart(n)
    && AllFound(n.inputs, ins) && NodeHonours(n, ins, outs)
  }

  lemma WriteStep<T>(g: Graph, run: seq<State>, k: nat, j: nat, planned: map<Id, T>, private: map<Id, T>,
                     ins: seq<Option<T>>, outs: seq<T>)
    requires IsRun(g, run) && k < |g.nodes| && j < |g.nodes[k].outputs| && NodeFits(g, k, ins, outs)
    requires Shaped(g, run[k]) && Shaped(g, run[|g.nodes|]) && NodeInRange(g, g.nodes[k])
    requires g.nodes[k].outputs[j].Some? && InStep(g, run, k, j, planned, private, ins)
    ensures var out := g.nodes[k].outputs[j].value;
      InStep(g, run, k, j + 1, planned[run[|g.nodes|].buffer[out] := outs[j]], private[out := outs[j]], ins)
  {
    var n := g.nodes[k];
    assert NodeWellFormed(g, k);
    OutputCopies(g, run[k], n, j, ins, outs);
    PlacementsHarmless(g, run, k, j);
    var d, buffer, taken := DecisionAt(g, run[k], n, j), run[|g.nodes|].buffer, TakenBy(g, run[k], n, j);
    if d.AliasInput? || d.ShareInput? {
      CopyChangesNothing(n, buffer, n.outputs[j].value, d, planned, ins, taken, outs[j]);
    }
    WriteKeepsValues(g, buffer, k, j, d, planned, private, outs[j]);
    WriteKeepsInputs(g, buffer, k, j, d, planned, ins, taken, outs[j]);
  }

  /** Writing all outputs of node `k`. */
  lemma {:induction false} WritesKeep<T>(g: Graph, run: seq<State>, k: nat, j: nat, own: seq<Id>,
                                         planned: map<Id, T>, private: map<Id, T>, ins: seq<Option<T>>, outs: seq<T>)
    requires IsRun(g, run) && k < |g.nodes| && j <= |g.nodes[k].outputs| && NodeFits(g, k, ins, outs)
    requires Shaped(g, run[k]) && Shaped(g, run[|g.nodes|]) && NodeInRange(g, g.nodes[k])
    requires |own| == |g.values| && forall v :: 0 <= v < |own| ==> own[v] == v
    requires InStep(g, run, k, 0, planned, private, ins)
    ensures InStep(g, run, k, j, Write(g.nodes[k].outputs, run[|g.nodes|].buffer, planned, outs, j),
                   Write(g.nodes[k].outputs, own, private, outs, j), ins)
  {
    if j > 0 {
      var outputs, i := g.nodes[k].outputs, j - 1;
      WritesKeep(g, run, k, i, own, planned, private, ins, outs);
      if outputs[i].Some? {
        WriteStep(g, run, k, i, Write(outputs, run[|g.nodes|].buffer, planned, outs, i),
                  Write(outputs, own, private, outs, i), ins, outs);
      } else {
        PlacedAfterNext(DefinedBefore(g, k), g.nodes[k], i);
        assert PlacedAfter(DefinedBefore(g, k), g.nodes[k], j) == PlacedAfter(DefinedBefore(g, k), g.nodes[k], i);
      }
      assert j == i + 1;
    }
  }

  /** Node `k` sees the same inputs and leaves the two memories in agreement. */
  lemma NodeAgrees<T(!new)>(g: Graph, run: seq<State>, f: Kernels<T>, own: seq<Id>, planned: map<Id, T>,
                            private: map<Id, T>, k: nat)
    requires IsRun(g, run) && k < |g.nodes| && Shaped(g, run[|g.nodes|]) && Honours(g, f)
    requires AliasesApart(g.nodes[k])
    requires |own| == |g.values| && forall v :: 0 <= v < |own| ==> own[v] == v
    requires Agrees(run[|g.nodes|].buffer, planned, private, DefinedBefore(g, k), PendingAt(g, k))
    ensures var n, buffer := g.nodes[k], run[|g.nodes|].buffer;
      && Read(n.inputs, buffer, planned) == Read(n.inputs, own, private)
      && Read(n.implicitInputs, buffer, planned) == Read(n.implicitInputs, own, private)
      && AllFound(n.inputs, Read(n.inputs, buffer, planned))
      && AllFound(n.implicitInputs, Read(n.implicitInputs, buffer, planned))
      && Agrees(buffer, RunNode(g, f, buffer, planned, k), RunNode(g, f, own, private, k),
                DefinedBefore(g, k + 1), PendingAt(g, k + 1))
  {
    var n, buffer := g.nodes[k], run[|g.nodes|].buffer;
    WellFormedNode(g, k);
    RunAccounted(g, run, k);
    ArgsReady(g, k, n.inputs);
    ArgsReady(g, k, n.implicitInputs);
    ReadsAgree(n.inputs, buffer, own, planned, private, DefinedBefore(g, k), PendingAt(g, k));
    ReadsAgree(n.implicitInputs, buffer, own, planned, private, DefinedBefore(g, k), PendingAt(g, k));
    var ins := Read(n.inputs, buffer, planned);
    var outs := Compute(g, f, buffer, planned, k);
    assert NodeHonours(n, ins, outs);
    AgreesLater(g, buffer, planned, private, k);
    WritesKeep(g, run, k, |n.outputs|, own, planned, private, ins, outs);
    assert n.outputs[..|n.outputs|] == n.outputs;
  }

  // ----- the whole run ---------------------------------------------------------------------------------

  lemma OnListIsDead(g: Graph, st: State, placed: set<Id>, limit: nat, e: FreeBuffer, v: Id)
    requires FreeListOk(g, st, placed, limit) && e in st.free && e.point < |g.nodes|
    requires v in placed && Count(PendingAt(g, e.point + 1), v) > 0 && v < |st.buffer|
    ensures st.buffer[v] != e.value
  {
    var i :| 0 <= i < |st.free| && st.free[i] == e;
    assert Dead(g, st.buffer, placed, st.free[i]);
  }

  /** A buffer released after step `k` of a finished plan holds nothing used later. */
  lemma FreeingKeeps<T>(g: Graph, run: seq<State>, k: nat, freed: set<Id>, planned: map<Id, T>, private: map<Id, T>)
    requires IsRun(g, run) && k < |g.nodes| && Shaped(g, run[|g.nodes|])
    requires forall r :: r in freed ==> FreeBuffer(r, k) in run[|g.nodes|].free
    requires Agrees(run[|g.nodes|].buffer, planned, private, DefinedBefore(g, k + 1), PendingAt(g, k + 1))
    ensures Agrees(run[|g.nodes|].buffer, planned - freed, private, DefinedBefore(g, k + 1), PendingAt(g, k + 1))
  {
    var last := run[|g.nodes|];
    RunFreeList(g, run, |g.nodes|);
    DefinedGrows(g, k + 1, |g.nodes|);
    forall v | v in DefinedBefore(g, k + 1) && Count(PendingAt(g, k + 1), v) > 0 && v < |last.buffer|
      ensures Holds(last.buffer, planned - freed, private, v)
    {
      assert Holds(last.buffer, planned, private, v);
      FreedElsewhere(g, last, k, freed, v);
    }
  }

  lemma FreedElsewhere(g: Graph, last: State, k: nat, freed: set<Id>, v: Id)
    requires k < |g.nodes| && FreeListOk(g, last, Defined(g), |g.nodes|)
    requires forall r :: r in freed ==> FreeBuffer(r, k) in last.free
    requires v in Defined(g) && Count(PendingAt(g, k + 1), v) > 0 && v < |last.buffer|
    ensures last.buffer[v] !in freed
  {
    if last.buffer[v] in freed {
      OnListIsDead(g, last, Defined(g), |g.nodes|, FreeBuffer(last.buffer[v], k), v);
    }
  }

  lemma StartAgrees<T>(g: Graph, run: seq<State>, start: map<Id, T>)
    requires IsRun(g, run) && Supplied(g, start)
    ensures Shaped(g, run[|g.nodes|])
    ensures Agrees(run[|g.nodes|].buffer, start, start, DefinedBefore(g, 0), PendingAt(g, 0))
  {
    RunAccounted(g, run, |g.nodes|);
    DefinedGrows(g, 0, |g.nodes|);
    forall v | v in DefinedBefore(g, 0) && v < |g.values| ensures Holds(run[|g.nodes|].buffer, start, start, v) {
      RunLeavesBuffers(g, run, 0, v);
    }
  }

  lemma PlannedStepAgrees<T(!new)>(g: Graph, run: seq<State>, f: Kernels<T>, frees: seq<set<Id>>, own: seq<Id>,
                                   none: seq<set<Id>>, start: map<Id, T>, planned: map<Id, T>, private: map<Id, T>,
                                   k: nat)
    requires IsRun(g, run) && Setting(g, run[|g.nodes|], f, frees, own, none, start)
    requires k < |g.nodes|
    requires AgreesAt(g, run[|g.nodes|].buffer, planned, private, k)
    ensures AgreesAt(g, run[|g.nodes|].buffer, RunNode(g, f, run[|g.nodes|].buffer, planned, k) - frees[k],
                     RunNode(g, f, own, private, k) - none[k], k + 1)
  {
    var buffer := run[|g.nodes|].buffer;
    RunShaped(g, run, |g.nodes|);
    NodeAgrees(g, run, f, own, planned, private, k);
    FreeingKeeps(g, run, k, frees[k], RunNode(g, f, buffer, planned, k), RunNode(g, f, own, private, k));
    assert RunNode(g, f, own, private, k) - none[k] == RunNode(g, f, own, private, k);
  }

  lemma MemoryNext<T>(g: Graph, f: Kernels<T>, buffer: seq<Id>, frees: seq<set<Id>>, start: map<Id, T>, k: nat)
    requires k < |g.nodes| == |frees|
    ensures MemoryBefore(g, f, buffer, frees, start, k + 1)
         == RunNode(g, f, buffer, MemoryBefore(g, f, buffer, frees, start, k), k) - frees[k]
  {
  }

  lemma AgreementStep<T(!new)>(g: Graph, f: Kernels<T>, buffer: seq<Id>, frees: seq<set<Id>>, own: seq<Id>,
                               none: seq<set<Id>>, start: map<Id, T>, k: nat)
    requires StepsKeepAgreement<T>(g, f, buffer, frees, own, none) && k < |g.nodes|
    requires AgreesAt(g, buffer, MemoryBefore(g, f, buffer, frees, start, k),
                      MemoryBefore(g, f, own, none, start, k), k)
    ensures AgreesAt(g, buffer, MemoryBefore(g, f, buffer, frees, start, k + 1),
                     MemoryBefore(g, f, own, none, start, k + 1), k + 1)
  {
    assert StepKeepsAgreement(g, f, buffer, frees, own, none, k);
    MemoryNext(g, f, buffer, frees, start, k);
    MemoryNext(g, f, own, none, start, k);
  }

  lemma {:induction false} AgreementInduction<T(!new)>(g: Graph, f: Kernels<T>, buffer: seq<Id>, frees: seq<set<Id>>,
                                                       own: seq<Id>, none: seq<set<Id>>, start: map<Id, T>, k: nat)
    requires StepsKeepAgreement<T>(g, f, buffer, frees, own, none) && k <= |g.nodes|
    requires AgreesAt(g, buffer, start, start, 0)
    ensures AgreesAt(g, buffer, MemoryBefore(g, f, buffer, frees, start, k), MemoryBefore(g, f, own, none, start, k), k)
  {
    if k > 0 {
      var j := k - 1;
      AgreementInduction(g, f, buffer, frees, own, none, start, j);
      AgreementStep(g, f, buffer, frees, own, none, start, j);
      assert k == j + 1;
    }
  }

  /** The headline: run the graph with the planner's shared buffers and deallocations, or
      with a private buffer per value and no deallocation.  Before every node the values
      still to be used agree. */
  lemma PlannedRunAgrees<T(!new)>(g: Graph, run: seq<State>, f: Kernels<T>, frees: seq<set<Id>>,
                                  own: seq<Id>, none: seq<set<Id>>, start: map<Id, T>, k: nat)
    requires IsRun(g, run) && Setting(g, run[|g.nodes|], f, frees, own, none, start)
    requires k <= |g.nodes|
    ensures AgreesAt(g, run[|g.nodes|].buffer, MemoryBefore(g, f, run[|g.nodes|].buffer, frees, start, k),
                     MemoryBefore(g, f, own, none, start, k), k)
  {
    var buffer := run[|g.nodes|].buffer;
    StartAgrees(g, run, start);
    forall i | 0 <= i < |g.nodes| ensures StepKeepsAgreement<T>(g, f, buffer, frees, own, none, i) {
      forall p: map<Id, T>, q: map<Id, T> | AgreesAt(g, buffer, p, q, i)
        ensures AgreesAt(g, buffer, RunNode(g, f, buffer, p, i) - frees[i], RunNode(g, f, own, q, i) - none[i], i + 1)
      {
        PlannedStepAgrees(g, run, f, frees, own, none, start, p, q, i);
      }
    }
    AgreementInduction(g, f, buffer, frees, own, none, start, k);
  }

  /** Every node reads the same contents in both executions. */
  lemma SameReads<T(!new)>(g: Graph, run: seq<State>, f: Kernels<T>, frees: seq<set<Id>>,
                           own: seq<Id>, none: seq<set<Id>>, start: map<Id, T>, k: nat)
    requires IsRun(g, run) && Setting(g, run[|g.nodes|], f, frees, own, none, start)
    requires k < |g.nodes|
    ensures var n, buffer := g.nodes[k], run[|g.nodes|].buffer;
      var planned, private := MemoryBefore(g, f, buffer, frees, start, k), MemoryBefore(g, f, own, none, start, k);
      && Read(n.inputs, buffer, planned) == Read(n.inputs, own, private)
      && Read(n.implicitInputs, buffer, planned) == Read(n.implicitInputs, own, private)
      && AllFound(n.inputs, Read(n.inputs, buffer, planned))
      && AllFound(n.implicitInputs, Read(n.implicitInputs, buffer, planned))
  {
    PlannedRunAgrees(g, run, f, frees, own, none, start, k);
    StartAgrees(g, run, start);
    NodeAgrees(g, run, f, own, MemoryBefore(g, f, run[|g.nodes|].buffer, frees, start, k),
               MemoryBefore(g, f, own, none, start, k), k);
  }

  lemma PermanentPending(g: Graph, v: Id)
    requires WellFormed(g) && (v in g.outputs || v in CallerOwned(g))
    ensures Count(PendingAt(g, |g.nodes|), v) > 0 && v in Defined(g)
  {
    DistinctSubset(CallerOwned(g), v);
    PendingDefined(g, |g.nodes|);
    assert v in Permanent(g);
    CountPositive(PendingAt(g, |g.nodes|), v);
  }

  /** The caller gets the same outputs from both executions. */
  lemma SameResults<T(!new)>(g: Graph, run: seq<State>, f: Kernels<T>, frees: seq<set<Id>>,
                             own: seq<Id>, none: seq<set<Id>>, start: map<Id, T>, v: Id)
    requires IsRun(g, run) && Setting(g, run[|g.nodes|], f, frees, own, none, start)
    requires v in g.outputs || v in CallerOwned(g)
    ensures var last, buffer := |g.nodes|, run[|g.nodes|].buffer;
      var planned, private :=
        MemoryBefore(g, f, buffer, frees, start, last), MemoryBefore(g, f, own, none, start, last);
      Holds(buffer, planned, private, v)
  {
    PlannedRunAgrees(g, run, f, frees, own, none, start, |g.nodes|);
    StartAgrees(g, run, start);
    PermanentPending(g, v);
  }

  lemma {:induction false} WriteLeaves<T>(outputs: seq<Option<Id>>, own: seq<Id>, mem: map<Id, T>, contents: seq<T>,
                                          j: nat, v: Id)
    requires j <= |outputs| && |contents| == |outputs| && v in mem
    requires forall i :: 0 <= i < |outputs| && outputs[i].Some? ==>
      outputs[i].value < |own| && own[outputs[i].value] != v
    ensures v in Write(outputs, own, mem, contents, j) && Write(outputs, own, mem, contents, j)[v] == mem[v]
  {
    if j > 0 {
      WriteLeaves(outputs, own, mem, contents, j - 1, v);
    }
  }

  /** With private buffers nothing the caller owns is ever written. */
  lemma {:induction false} PrivateRunLeavesCaller<T>(g: Graph, f: Kernels<T>, own: seq<Id>, none: seq<set<Id>>,
                                                     start: map<Id, T>, k: nat, v: Id)
    requires WellFormed(g) && Private(g, own, none) && v in DefinedBefore(g, 0) && v in start && k <= |g.nodes|
    ensures var mem := MemoryBefore(g, f, own, none, start, k); v in mem && mem[v] == start[v]
  {
    if k > 0 {
      PrivateRunLeavesCaller(g, f, own, none, start, k - 1, v);
      var n := g.nodes[k - 1];
      WellFormedNode(g, k - 1);
      assert NodeWellFormed(g, k - 1);
      DefinedGrows(g, 0, k - 1);
      forall i | 0 <= i < |n.outputs| && n.outputs[i].Some? ensures own[n.outputs[i].value] != v {
        ExistingMember(n.outputs, n.outputs[i].value);
      }
      var before := MemoryBefore(g, f, own, none, start, k - 1);
      var outs := Compute(g, f, own, before, k - 1);
      if |outs| == |n.outputs| {
        WriteLeaves(n.outputs, own, before, outs, |n.outputs|, v);
      }
    }
  }

  /** After a planned run the caller finds everything it owns as it was. */
  lemma CallerUndisturbed<T(!new)>(g: Graph, run: seq<State>, f: Kernels<T>, frees: seq<set<Id>>,
                                   own: seq<Id>, none: seq<set<Id>>, start: map<Id, T>, v: Id)
    requires IsRun(g, run) && Setting(g, run[|g.nodes|], f, frees, own, none, start)
    requires v in CallerOwned(g)
    ensures var planned := MemoryBefore(g, f, run[|g.nodes|].buffer, frees, start, |g.nodes|);
      v in start && v in planned && planned[v] == start[v]
  {
    SameResults(g, run, f, frees, own, none, start, v);
    IdSetMember(CallerOwned(g), v);
    PrivateRunLeavesCaller(g, f, own, none, start, |g.nodes|, v);
    DefinedGrows(g, 0, |g.nodes|);
    RunLeavesBuffers(g, run, 0, v);
  }
}