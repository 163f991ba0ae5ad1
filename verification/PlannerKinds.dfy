/** How each value of a finished plan is allocated, said of the graph and the final buffers alone. */
module PlannerKinds {
  import opened Prelude
  import opened PlannerGraph
  import opened PlannerState
  import opened PlannerLedger
  import opened PlannerAccounting
  import opened PlannerLiveness

  /** Output `j` of node `k` is `v`. */
  predicate Makes(g: Graph, k: nat, j: nat, v: Id)
  {
    k < |g.nodes| && j < |g.nodes[k].outputs| && g.nodes[k].outputs[j] == Some(v)
  }

  /** The argument is given to the graph by its caller, and not as an initializer. */
  predicate Given(g: Graph, arg: Option<Id>)
  {
    arg.Some? && (arg.value in g.inputs || arg.value in g.outerScope) && arg.value !in g.initializers
  }

  /** The node hands on unchanged what the body of a Loop is given. */
  predicate HandsOn(g: Graph, n: Node)
  {
    g.insideLoop && n.isIdentity && n.inputs != [] && Given(g, n.inputs[0])
  }

  ghost predicate PassedThrough(g: Graph, v: Id)
  {
    exists k: nat, j: nat :: Makes(g, k, j, v) && HandsOn(g, g.nodes[k])
  }

  ghost predicate ReadAsInput(g: Graph, v: Id)
  {
    exists k, i :: 0 <= k < |g.nodes| && 0 <= i < |g.nodes[k].inputs| && g.nodes[k].inputs[i] == Some(v)
  }

  /** What the caller owns exists already, or is an initializer to be allocated before the run. */
  ghost predicate OwnedKind(g: Graph, v: Id, kind: AllocKind)
  {
    && (kind == KAllocateStatically <==> v in g.initializers && ReadAsInput(g, v))
    && (kind == KPreExisting <==> (v in g.inputs || v in g.outerScope) && !(v in g.initializers && ReadAsInput(g, v)))
    && (kind == KAllocate <==> v !in g.inputs && v !in g.outerScope && !ReadAsInput(g, v))
  }

  /** What a node makes is handed to the caller or kept, in a buffer of its own or of another. */
  ghost predicate MadeKind(g: Graph, buffer: seq<Id>, v: Id, kind: AllocKind)
    requires v < |buffer|
  {
    && (kind == KShare <==> v in g.outputs && PassedThrough(g, v))
    && (kind == KAllocateOutput <==> v in g.outputs && !PassedThrough(g, v))
    && (kind == KReuse <==> v !in g.outputs && buffer[v] != v)
    && (kind == KAllocate <==> v !in g.outputs && buffer[v] == v)
  }

  ghost predicate KindSettled(g: Graph, buffer: seq<Id>, kind: seq<AllocKind>, v: Id)
    requires v < |buffer| == |kind|
  {
    if v in CallerOwned(g) then OwnedKind(g, v, kind[v]) else MadeKind(g, buffer, v, kind[v])
  }

  ghost predicate KindsSettled(g: Graph, buffer: seq<Id>, kind: seq<AllocKind>, placed: set<Id>)
  {
    |buffer| == |kind| && forall v :: v in placed ==> v < |buffer| && KindSettled(g, buffer, kind, v)
  }

  // ----- one output -------------------------------------------------------------------------

  lemma MadeOnce(g: Graph, k: nat, j: nat, k': nat, j': nat, v: Id)
    requires WellFormed(g) && Makes(g, k, j, v) && Makes(g, k', j', v)
    ensures k == k'
  {
    if k < k' {
      MadeBefore(g, k, j, k', v);
      OutputUnplaced(g, k', j');
    } else if k' < k {
      MadeBefore(g, k', j', k, v);
      OutputUnplaced(g, k, j);
    }
  }

  lemma MadeBefore(g: Graph, k: nat, j: nat, later: nat, v: Id)
    requires Makes(g, k, j, v) && k < later <= |g.nodes|
    ensures v in DefinedBefore(g, later)
  {
    ExistingMember(g.nodes[k].outputs, v);
    IdSetMember(Existing(g.nodes[k].outputs), v);
    DefinedGrows(g, k + 1, later);
  }

  /** An input that exists already is one the caller gave. */
  lemma GivenIff(g: Graph, st: State, k: nat, slot: nat, placed: set<Id>)
    requires WellFormed(g) && k < |g.nodes| && slot < |g.nodes[k].inputs| && g.nodes[k].inputs[slot].Some?
    requires Shaped(g, st) && KindsSettled(g, st.buffer, st.kind, placed) && g.nodes[k].inputs[slot].value in placed
    ensures st.kind[g.nodes[k].inputs[slot].value] == KPreExisting <==> Given(g, g.nodes[k].inputs[slot])
  {
    var v := g.nodes[k].inputs[slot].value;
    assert KindSettled(g, st.buffer, st.kind, v);
    assert ReadAsInput(g, v);
  }

  /** The test made on the state is the one on the graph. */
  lemma HandsOnIff(g: Graph, st: State, k: nat, j: nat, placed: set<Id>)
    requires WellFormed(g) && k < |g.nodes| && j < |g.nodes[k].outputs| && g.nodes[k].outputs[j].Some?
    requires NodeInRange(g, g.nodes[k]) && InputsPlaced(g.nodes[k], placed)
    requires Shaped(g, st) && KindsSettled(g, st.buffer, st.kind, placed)
    ensures PassedThrough(g, g.nodes[k].outputs[j].value) <==>
            g.insideLoop && g.nodes[k].isIdentity && st.kind[g.nodes[k].inputs[0].value] == KPreExisting
  {
    var n, v := g.nodes[k], g.nodes[k].outputs[j].value;
    assert Makes(g, k, j, v);
    if n.isIdentity {
      GivenIff(g, st, k, 0, placed);
    }
    if PassedThrough(g, v) {
      var k': nat, j': nat :| Makes(g, k', j', v) && HandsOn(g, g.nodes[k']);
      MadeOnce(g, k, j, k', j', v);
    }
  }

  lemma NotOwnedByCaller(g: Graph, k: nat, j: nat)
    requires WellFormed(g) && k < |g.nodes| && j < |g.nodes[k].outputs| && g.nodes[k].outputs[j].Some?
    ensures g.nodes[k].outputs[j].value !in CallerOwned(g)
  {
    OutputUnplaced(g, k, j);
    DefinedGrows(g, 0, k);
    IdSetMember(CallerOwned(g), g.nodes[k].outputs[j].value);
  }

  /** A value that takes a place of another is not in its own buffer. */
  lemma TakenIsOther(g: Graph, st: State, k: nat, j: nat, d: Decision)
    requires WellFormed(g) && k < |g.nodes| && j < |g.nodes[k].outputs| && g.nodes[k].outputs[j].Some?
    requires Accounted(g, st, PlacedAfter(DefinedBefore(g, k), g.nodes[k], j), PendingAt(g, k))
    requires NodeInRange(g, g.nodes[k]) && Position(g.nodes[k].outputs, j) < |g.nodes[k].outputs|
    requires g.nodes[k].outputs[j].value < |g.values|
    requires Justified(g, st, g.nodes[k], Position(g.nodes[k].outputs, j), g.nodes[k].outputs[j].value, d)
    requires !d.OwnOutput? && !d.OwnBuffer?
    ensures d.source < |g.values| && st.buffer[d.source] != g.nodes[k].outputs[j].value
  {
    var placed := PlacedAfter(DefinedBefore(g, k), g.nodes[k], j);
    OutputUnplaced(g, k, j);
    InputsReady(g, k);
    if d.Recycle? {
      FreeIsPlaced(g, st, placed, PendingAt(g, k), d.index);
    }
    assert d.source in placed;
  }

  lemma PlaceSettles(g: Graph, st: State, k: nat, j: nat)
    requires WellFormed(g) && k < |g.nodes| && j < |g.nodes[k].outputs| && NodeInRange(g, g.nodes[k])
    requires Accounted(g, st, PlacedAfter(DefinedBefore(g, k), g.nodes[k], j), PendingAt(g, k))
    requires KindsSettled(g, st.buffer, st.kind, PlacedAfter(DefinedBefore(g, k), g.nodes[k], j))
    ensures var st' := PlaceOutput(g, st, g.nodes[k], j);
      KindsSettled(g, st'.buffer, st'.kind, PlacedAfter(DefinedBefore(g, k), g.nodes[k], j + 1))
  {
    var n, placed := g.nodes[k], PlacedAfter(DefinedBefore(g, k), g.nodes[k], j);
    PlacedAfterNext(DefinedBefore(g, k), n, j);
    if n.outputs[j].Some? {
      var out := n.outputs[j].value;
      OutputUnplaced(g, k, j);
      OutputNumInRange(n.outputs, j);
      var d := Decide(g, st, n, Position(n.outputs, j), out);
      DecideJustified(g, st, n, Position(n.outputs, j), out);
      OutputSettled(g, st, k, j, d);
      OthersSettled(g, st, out, d, placed);
    }
  }

  lemma OthersSettled(g: Graph, st: State, out: Id, d: Decision, placed: set<Id>)
    requires Shaped(g, st) && out < |g.values| && DecisionInRange(g, st, d) && out !in placed
    requires KindsSettled(g, st.buffer, st.kind, placed)
    requires KindSettled(g, Apply(g, st, out, d).buffer, Apply(g, st, out, d).kind, out)
    ensures KindsSettled(g, Apply(g, st, out, d).buffer, Apply(g, st, out, d).kind, placed + {out})
  {
    var st' := Apply(g, st, out, d);
    forall v | v in placed + {out} ensures KindSettled(g, st'.buffer, st'.kind, v) {
      if v != out {
        assert KindSettled(g, st.buffer, st.kind, v);
      }
    }
  }

  lemma OutputSettled(g: Graph, st: State, k: nat, j: nat, d: Decision)
    requires WellFormed(g) && k < |g.nodes| && j < |g.nodes[k].outputs| && g.nodes[k].outputs[j].Some?
    requires Accounted(g, st, PlacedAfter(DefinedBefore(g, k), g.nodes[k], j), PendingAt(g, k))
    requires KindsSettled(g, st.buffer, st.kind, PlacedAfter(DefinedBefore(g, k), g.nodes[k], j))
    requires NodeInRange(g, g.nodes[k]) && Position(g.nodes[k].outputs, j) < |g.nodes[k].outputs|
    requires g.nodes[k].outputs[j].value < |g.values|
    requires d == Decide(g, st, g.nodes[k], Position(g.nodes[k].outputs, j), g.nodes[k].outputs[j].value)
    requires Justified(g, st, g.nodes[k], Position(g.nodes[k].outputs, j), g.nodes[k].outputs[j].value, d)
    ensures DecisionInRange(g, st, d)
    ensures var st' := Apply(g, st, g.nodes[k].outputs[j].value, d);
      KindSettled(g, st'.buffer, st'.kind, g.nodes[k].outputs[j].value)
  {
    var placed := PlacedAfter(DefinedBefore(g, k), g.nodes[k], j);
    InputsReady(g, k);
    HandsOnIff(g, st, k, j, placed);
    NotOwnedByCaller(g, k, j);
    OutputUnplaced(g, k, j);
    if !d.OwnOutput? && !d.OwnBuffer? {
      TakenIsOther(g, st, k, j, d);
    }
  }

  // ----- the whole plan ---------------------------------------------------------------------

  lemma OutputsSettle(g: Graph, st: State, k: nat)
    requires WellFormed(g) && k < |g.nodes| && NodeInRange(g, g.nodes[k])
    requires Accounted(g, st, DefinedBefore(g, k), PendingAt(g, k))
    requires KindsSettled(g, st.buffer, st.kind, DefinedBefore(g, k))
    ensures var st' := AfterOutputs(g, st, g.nodes[k], |g.nodes[k].outputs|);
      KindsSettled(g, st'.buffer, st'.kind, DefinedBefore(g, k + 1))
  {
    var n, defined, pending := g.nodes[k], DefinedBefore(g, k), PendingAt(g, k);
    assert PlacedAfter(defined, n, 0) == defined;
    assert n.outputs[..|n.outputs|] == n.outputs;
    var Kept := (s: State, m: nat) =>
      && m <= |n.outputs| && Accounted(g, s, PlacedAfter(defined, n, m), pending)
      && KindsSettled(g, s.buffer, s.kind, PlacedAfter(defined, n, m));
    forall s, m | 0 <= m < |n.outputs| && Shaped(g, s) && Kept(s, m) ensures Kept(PlaceOutput(g, s, n, m), m + 1) {
      PlaceKeeps(g, s, k, m);
      PlaceSettles(g, s, k, m);
    }
    OutputsInduction(g, st, n, Kept, 0, |n.outputs|);
  }

  lemma StartSettled(g: Graph, st: State)
    requires WellFormed(g) && Started(g, st)
    ensures KindsSettled(g, st.buffer, st.kind, DefinedBefore(g, 0))
  {
    DefinedGrows(g, 0, |g.nodes|);
    forall v | v in DefinedBefore(g, 0) ensures v < |g.values| && KindSettled(g, st.buffer, st.kind, v) {
      IdSetMember(CallerOwned(g), v);
      ReadIff(g, v);
      assert st.kind[v] == InitialKind(g, v);
    }
  }

  lemma ReadIff(g: Graph, v: Id)
    ensures ReadBySomeNode(g, v) <==> ReadAsInput(g, v)
  {
    if ReadBySomeNode(g, v) {
      var k :| 0 <= k < |g.nodes| && Some(v) in g.nodes[k].inputs;
      var i :| 0 <= i < |g.nodes[k].inputs| && g.nodes[k].inputs[i] == Some(v);
    }
  }

  /** At every step of every run the values that have a place are allocated as they should be. */
  lemma {:induction false} RunSettles(g: Graph, run: seq<State>, k: nat)
    requires IsRun(g, run) && k <= |g.nodes|
    ensures KindsSettled(g, run[k].buffer, run[k].kind, DefinedBefore(g, k))
  {
    if k == 0 {
      StartSettled(g, run[0]);
    } else {
      RunSettles(g, run, k - 1);
      RunStepSettles(g, run, k - 1);
    }
  }

  lemma RunStepSettles(g: Graph, run: seq<State>, k: nat)
    requires IsRun(g, run) && k < |g.nodes| && KindsSettled(g, run[k].buffer, run[k].kind, DefinedBefore(g, k))
    ensures KindsSettled(g, run[k + 1].buffer, run[k + 1].kind, DefinedBefore(g, k + 1))
  {
    var n := g.nodes[k];
    RunAccounted(g, run, k);
    assert StepAt(g, run, k);
    OutputsSettle(g, run[k], k);
    ReleasedInRange(g, n.inputs);
    ReleasedInRange(g, n.implicitInputs);
    ReleasedInRange(g, n.outputs);
    ReleasesLeaveBuffers(g, AfterOutputs(g, run[k], n, |n.outputs|), Released(n), k);
  }
}
