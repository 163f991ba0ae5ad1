/** Which nodes must check fences: reuse carries the fence of a buffer's owner to all its users. */
module PlannerFence {
  import opened Prelude
  import opened PlannerGraph
  import opened PlannerState
  import opened PlannerLedger
  import opened PlannerAccounting
  import opened PlannerLiveness

  /** As the planner decides it: the value needs a fence, or reuses a buffer whose owner does. */
  predicate ValueHasFence(g: Graph, st: State, v: Id)
    requires Shaped(g, st) && v < |g.values|
  {
    g.values[v].fence || (st.kind[v] == KReuse && st.reused[v] < |g.values| && g.values[st.reused[v]].fence)
  }

  ghost predicate SomeHasFence(g: Graph, st: State, ids: seq<Id>)
    requires Shaped(g, st)
  {
    exists i :: 0 <= i < |ids| && ids[i] < |g.values| && ValueHasFence(g, st, ids[i])
  }

  ghost predicate NodeHasFence(g: Graph, st: State, n: Node)
    requires Shaped(g, st)
  {
    SomeHasFence(g, st, Released(n))
  }

  lemma SomeFenceConcat(g: Graph, st: State, a: seq<Id>, b: seq<Id>)
    requires Shaped(g, st)
    ensures SomeHasFence(g, st, a + b) <==> SomeHasFence(g, st, a) || SomeHasFence(g, st, b)
  {
    var all := a + b;
    if SomeHasFence(g, st, all) {
      var i :| 0 <= i < |all| && all[i] < |g.values| && ValueHasFence(g, st, all[i]);
      assert i >= |a| ==> all[i] == b[i - |a|];
    }
    if SomeHasFence(g, st, a) {
      var i :| 0 <= i < |a| && a[i] < |g.values| && ValueHasFence(g, st, a[i]);
      assert all[i] == a[i];
    }
    if SomeHasFence(g, st, b) {
      var i :| 0 <= i < |b| && b[i] < |g.values| && ValueHasFence(g, st, b[i]);
      assert all[|a| + i] == b[i];
    }
  }

  lemma SomeFenceNext(g: Graph, st: State, seen: seq<Id>, v: Id)
    requires Shaped(g, st) && v < |g.values|
    ensures SomeHasFence(g, st, seen + [v]) <==> SomeHasFence(g, st, seen) || ValueHasFence(g, st, v)
  {
    SomeFenceConcat(g, st, seen, [v]);
    assert [v][0] == v;
  }

  /** The nodes marked are those that have a fence to check. */
  ghost predicate FencesMarked(g: Graph, st: State, marks: seq<bool>, n: nat)
  {
    Shaped(g, st) && n <= |g.nodes| == |marks| && forall k :: 0 <= k < n ==> marks[k] == NodeHasFence(g, st, g.nodes[k])
  }

  // ----- the buffer a reused value names is the one it lives in -----------------------------

  predicate Borrowed(kind: AllocKind)
  {
    kind == KReuse || kind == KShare
  }

  /** A value that reuses or shares names the owner of its buffer; any other owns its buffer. */
  ghost predicate OwnerNamed(g: Graph, st: State, v: Id)
    requires Shaped(g, st) && v < |g.values|
  {
    st.buffer[v] == if Borrowed(st.kind[v]) then st.reused[v] else v
  }

  ghost predicate OwnersNamed(g: Graph, st: State)
  {
    Shaped(g, st) && forall v :: v in Defined(g) && v < |g.values| ==> OwnerNamed(g, st, v)
  }

  lemma ApplyKeepsOwners(g: Graph, st: State, out: Id, d: Decision)
    requires OwnersNamed(g, st) && out < |g.values| && st.buffer[out] == out && DecisionInRange(g, st, d)
    ensures OwnersNamed(g, Apply(g, st, out, d))
  {
    var st' := Apply(g, st, out, d);
    forall v | v in Defined(g) && v < |g.values| ensures OwnerNamed(g, st', v) {
      assert OwnerNamed(g, st, v);
    }
  }

  lemma PlaceKeepsOwners(g: Graph, st: State, k: nat, j: nat)
    requires WellFormed(g) && k < |g.nodes| && j < |g.nodes[k].outputs| && NodeInRange(g, g.nodes[k])
    requires Accounted(g, st, PlacedAfter(DefinedBefore(g, k), g.nodes[k], j), PendingAt(g, k)) && OwnersNamed(g, st)
    ensures OwnersNamed(g, PlaceOutput(g, st, g.nodes[k], j))
  {
    var n := g.nodes[k];
    if n.outputs[j].Some? {
      OutputUnplaced(g, k, j);
      OutputNumInRange(n.outputs, j);
      DecideJustified(g, st, n, Position(n.outputs, j), n.outputs[j].value);
      var out := n.outputs[j].value;
      assert st.buffer[out] == out;
      ApplyKeepsOwners(g, st, out, Decide(g, st, n, Position(n.outputs, j), out));
    }
  }

  lemma OutputsKeepOwners(g: Graph, st: State, k: nat)
    requires WellFormed(g) && k < |g.nodes| && NodeInRange(g, g.nodes[k])
    requires Accounted(g, st, DefinedBefore(g, k), PendingAt(g, k)) && OwnersNamed(g, st)
    ensures OwnersNamed(g, AfterOutputs(g, st, g.nodes[k], |g.nodes[k].outputs|))
  {
    var n, defined, pending := g.nodes[k], DefinedBefore(g, k), PendingAt(g, k);
    assert PlacedAfter(defined, n, 0) == defined;
    var Kept := (s: State, m: nat) =>
      m <= |n.outputs| && Accounted(g, s, PlacedAfter(defined, n, m), pending) && OwnersNamed(g, s);
    forall s, m | 0 <= m < |n.outputs| && Shaped(g, s) && Kept(s, m) ensures Kept(PlaceOutput(g, s, n, m), m + 1) {
      PlaceKeeps(g, s, k, m);
      PlaceKeepsOwners(g, s, k, m);
    }
    OutputsInduction(g, st, n, Kept, 0, |n.outputs|);
  }

  lemma RunStepKeepsOwners(g: Graph, run: seq<State>, k: nat)
    requires IsRun(g, run) && k < |g.nodes| && OwnersNamed(g, run[k])
    ensures OwnersNamed(g, run[k + 1])
  {
    var n := g.nodes[k];
    assert StepAt(g, run, k);
    RunAccounted(g, run, k);
    OutputsKeepOwners(g, run[k], k);
    ReleasedInRange(g, n.inputs);
    ReleasedInRange(g, n.implicitInputs);
    ReleasedInRange(g, n.outputs);
    var mid := AfterOutputs(g, run[k], n, |n.outputs|);
    ReleasesLeaveBuffers(g, mid, Released(n), k);
    forall v | v in Defined(g) && v < |g.values| ensures OwnerNamed(g, run[k + 1], v) {
      assert OwnerNamed(g, mid, v);
    }
  }

  /** At every step of every run, a value that reuses or shares a buffer names the value that owns
      the buffer it lives in. */
  lemma {:induction false} RunNamesOwners(g: Graph, run: seq<State>, k: nat)
    requires IsRun(g, run) && k <= |g.nodes|
    ensures OwnersNamed(g, run[k])
  {
    if k == 0 {
      forall v | v in Defined(g) && v < |g.values| ensures OwnerNamed(g, run[0], v) {
        assert run[0].kind[v] == InitialKind(g, v);
      }
    } else {
      RunNamesOwners(g, run, k - 1);
      RunStepKeepsOwners(g, run, k - 1);
    }
  }

  // ----- which nodes check ------------------------------------------------------------------

  /** The value or the owner of its buffer needs a fence; the owner does not count for a value that
      a Loop passes through. */
  ghost predicate FenceInBuffer(g: Graph, st: State, v: Id)
    requires Shaped(g, st) && v < |g.values|
  {
    g.values[v].fence || (st.kind[v] != KShare && g.values[st.buffer[v]].fence)
  }

  lemma ValueFenceIff(g: Graph, run: seq<State>, v: Id)
    requires IsRun(g, run) && v in Defined(g)
    ensures Shaped(g, run[|g.nodes|]) && v < |g.values|
    ensures ValueHasFence(g, run[|g.nodes|], v) <==> FenceInBuffer(g, run[|g.nodes|], v)
  {
    RunNamesOwners(g, run, |g.nodes|);
    assert OwnerNamed(g, run[|g.nodes|], v);
  }

  /** A node checks fences if and only if some value it touches, or the owner of the buffer that
      value lives in, needs a fence. */
  lemma NodeFenceIff(g: Graph, run: seq<State>, k: nat)
    requires IsRun(g, run) && k < |g.nodes|
    ensures Shaped(g, run[|g.nodes|]) && forall v :: v in Released(g.nodes[k]) ==> v < |g.values|
    ensures NodeHasFence(g, run[|g.nodes|], g.nodes[k])
       <==> exists v :: v in Released(g.nodes[k]) && FenceInBuffer(g, run[|g.nodes|], v)
  {
    var last, ids := run[|g.nodes|], Released(g.nodes[k]);
    RunShaped(g, run, |g.nodes|);
    forall v | v in ids ensures v < |g.values| && (ValueHasFence(g, last, v) <==> FenceInBuffer(g, last, v)) {
      TouchedDefined(g, k, v);
      ValueFenceIff(g, run, v);
    }
    if NodeHasFence(g, last, g.nodes[k]) {
      var i :| 0 <= i < |ids| && ids[i] < |g.values| && ValueHasFence(g, last, ids[i]);
      assert ids[i] in ids;
    }
    if v :| v in ids && FenceInBuffer(g, last, v) {
      var i :| 0 <= i < |ids| && ids[i] == v;
      assert ValueHasFence(g, last, ids[i]);
    }
  }

  lemma TouchedDefined(g: Graph, k: nat, v: Id)
    requires WellFormed(g) && k < |g.nodes| && v in Released(g.nodes[k])
    ensures v in Defined(g)
  {
    assert NodeWellFormed(g, k);
    DefinedGrows(g, k, |g.nodes|);
    DefinedGrows(g, k + 1, |g.nodes|);
    IdSetMember(Existing(g.nodes[k].outputs), v);
  }
}
