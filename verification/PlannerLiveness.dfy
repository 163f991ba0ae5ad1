/** Who may share a buffer with whom: what each reuse decision guarantees about the values
    still in use, and what being on the free list means. */
module PlannerLiveness {
  import opened Prelude
  import opened PlannerGraph
  import opened PlannerState
  import opened PlannerLedger
  import opened PlannerAccounting

  // ----- non-interference ---------------------------------------------------------------

  /** A buffer with a count of one has no outstanding use but the one at hand. */
  lemma LastUse(g: Graph, st: State, placed: set<Id>, pending: seq<Id>, p: nat)
    requires Accounted(g, st, placed, pending)
    requires p < |pending| && pending[p] in placed && st.use[st.buffer[pending[p]]] == 1
    ensures forall i :: 0 <= i < |pending| && i != p ==> st.buffer[pending[i]] != st.buffer[pending[p]]
  {
    forall i | 0 <= i < |pending| && i != p ensures st.buffer[pending[i]] != st.buffer[pending[p]] {
      if st.buffer[pending[i]] == st.buffer[pending[p]] {
        CountAtLeastTwo(st.buffer, pending, if i < p then i else p, if i < p then p else i);
      }
    }
  }

  /** A buffer taken from the free list has no outstanding use at all; in particular no
      input of the node lives in it. */
  lemma RecycledIsUnused(g: Graph, st: State, placed: set<Id>, pending: seq<Id>, index: nat)
    requires Accounted(g, st, placed, pending) && index < |st.free|
    ensures forall i :: 0 <= i < |pending| ==> st.buffer[pending[i]] != st.free[index].value
  {
    FreeIsPlaced(g, st, placed, pending, index);
    forall i | 0 <= i < |pending| ensures st.buffer[pending[i]] != st.free[index].value {
      CountAtLeastOne(st.buffer, pending, i);
    }
  }

  // ----- the free list ------------------------------------------------------------------

  lemma WithoutKeepsOrder(free: seq<FreeBuffer>, index: nat)
    requires index < |free| && MostRecentFirst(free)
    ensures MostRecentFirst(Without(free, index))
    ensures forall i :: 0 <= i < |free| - 1 ==> Without(free, index)[i] in free
  {
  }

  /** A buffer that `out` does not join stays as dead as it was. */
  lemma DeadKept(g: Graph, buffer: seq<Id>, placed: set<Id>, e: FreeBuffer, out: Id, root: Id)
    requires Dead(g, buffer, placed, e)
    requires out < |buffer| && out !in placed && root != e.value
    ensures Dead(g, buffer[out := root], placed + {out}, e)
  {
    var last :| last in placed && last < |buffer| && buffer[last] == e.value &&
      Count(Released(g.nodes[e.point]), last) > 0;
    var after := buffer[out := root];
    assert after[last] == e.value;
    forall v | v in placed + {out} && v < |after| && after[v] == e.value
      ensures Count(PendingAt(g, e.point + 1), v) == 0
    {
      assert v != out && buffer[v] == e.value;
    }
  }

  lemma DecisionKeepsFree(g: Graph, st: State, placed: set<Id>, pending: seq<Id>, n: Node, outputNum: nat, out: Id,
                          d: Decision, limit: nat)
    requires Accounted(g, st, placed, pending) && FreeListOk(g, st, placed, limit)
    requires NodeInRange(g, n) && InputsPlaced(n, placed) && outputNum < |n.outputs|
    requires forall slot :: 0 <= slot < |n.inputs| && n.inputs[slot].Some? ==> n.inputs[slot].value in pending
    requires out in Defined(g) && out !in placed
    requires Justified(g, st, n, outputNum, out, d)
    ensures DecisionInRange(g, st, d)
    ensures FreeListOk(g, Apply(g, st, out, d), placed + {out}, limit)
  {
    var st' := Apply(g, st, out, d);
    if d.Recycle? {
      WithoutKeepsOrder(st.free, d.index);
      WithoutFree(st.free, d.index);
      FreeIsPlaced(g, st, placed, pending, d.index);
    } else if d.AliasInput? || d.OverwriteInput? || d.ShareInput? {
      InUseNotFree(g, st, placed, pending, d.source);
    }
    forall i | 0 <= i < |st'.free| ensures st'.free[i] in st.free && st'.free[i].value != st'.buffer[out] {
      assert IsFree(st'.free, st'.free[i].value);
    }
    JoinKeepsFree(g, st, st', placed, out, limit);
  }

  /** Placing `out` in a buffer that is not, or no longer, on the free list. */
  lemma JoinKeepsFree(g: Graph, st: State, st': State, placed: set<Id>, out: Id, limit: nat)
    requires FreeListOk(g, st, placed, limit) && MostRecentFirst(st'.free)
    requires out < |st.buffer| && out !in placed && |st'.buffer| == |st.buffer|
    requires st'.buffer == st.buffer[out := st'.buffer[out]]
    requires forall i :: 0 <= i < |st'.free| ==> st'.free[i] in st.free && st'.free[i].value != st'.buffer[out]
    ensures FreeListOk(g, st', placed + {out}, limit)
  {
    forall i | 0 <= i < |st'.free|
      ensures Dead(g, st'.buffer, placed + {out}, st'.free[i]) && st'.free[i].point < limit
    {
      var i' :| 0 <= i' < |st.free| && st.free[i'] == st'.free[i];
      assert Dead(g, st.buffer, placed, st.free[i']);
      DeadKept(g, st.buffer, placed, st'.free[i], out, st'.buffer[out]);
    }
  }

  lemma PlaceKeepsFree(g: Graph, before: State, k: nat, j: nat)
    requires WellFormed(g) && k < |g.nodes| && j < |g.nodes[k].outputs| && NodeInRange(g, g.nodes[k])
    requires Accounted(g, before, PlacedAfter(DefinedBefore(g, k), g.nodes[k], j), PendingAt(g, k))
    requires FreeListOk(g, before, PlacedAfter(DefinedBefore(g, k), g.nodes[k], j), k)
    ensures FreeListOk(g, PlaceOutput(g, before, g.nodes[k], j), PlacedAfter(DefinedBefore(g, k), g.nodes[k], j + 1), k)
  {
    var n, placed := g.nodes[k], PlacedAfter(DefinedBefore(g, k), g.nodes[k], j);
    PlacedAfterNext(DefinedBefore(g, k), n, j);
    if n.outputs[j].Some? {
      InputsReady(g, k);
      OutputUnplaced(g, k, j);
      OutputNumInRange(n.outputs, j);
      var out := n.outputs[j].value;
      var d := Decide(g, before, n, Position(n.outputs, j), out);
      DecideJustified(g, before, n, Position(n.outputs, j), out);
      DecisionKeepsFree(g, before, placed, PendingAt(g, k), n, Position(n.outputs, j), out, d, k);
    } else {
      assert PlacedAfter(DefinedBefore(g, k), n, j + 1) == placed;
    }
  }

  lemma OutputsKeepFree(g: Graph, st: State, k: nat, j: nat)
    requires WellFormed(g) && k < |g.nodes| && j <= |g.nodes[k].outputs| && NodeInRange(g, g.nodes[k])
    requires Accounted(g, st, DefinedBefore(g, k), PendingAt(g, k))
    requires FreeListOk(g, st, DefinedBefore(g, k), k)
    ensures FreeListOk(g, AfterOutputs(g, st, g.nodes[k], j), PlacedAfter(DefinedBefore(g, k), g.nodes[k], j), k)
  {
    var n, defined, pending := g.nodes[k], DefinedBefore(g, k), PendingAt(g, k);
    assert PlacedAfter(defined, n, 0) == defined;
    var Kept := (s: State, m: nat) => m <= |n.outputs| &&
      Accounted(g, s, PlacedAfter(defined, n, m), pending) && FreeListOk(g, s, PlacedAfter(defined, n, m), k);
    forall s, m | 0 <= m < j && Shaped(g, s) && Kept(s, m) ensures Kept(PlaceOutput(g, s, n, m), m + 1) {
      PlaceKeeps(g, s, k, m);
      PlaceKeepsFree(g, s, k, m);
    }
    OutputsInduction(g, st, n, Kept, 0, j);
  }

  /** A buffer whose count reaches zero at step `k` really is dead then. */
  lemma NewlyFreeIsDead(g: Graph, st: State, placed: set<Id>, v: Id, later: seq<Id>, k: nat)
    requires k < |g.nodes| && Count(Released(g.nodes[k]), v) > 0 && v in placed
    requires Accounted(g, st, placed, [v] + later)
    requires forall w {:trigger Count(later, w)} :: Count(PendingAt(g, k + 1), w) <= Count(later, w)
    requires st.use[st.buffer[v]] == 1
    ensures Dead(g, st.buffer, placed, FreeBuffer(st.buffer[v], k))
  {
    var root, pending := st.buffer[v], [v] + later;
    assert pending[0] == v && pending[1..] == later;
    assert CountRoot(st.buffer, later, root) == 0;
    forall w | w in placed && st.buffer[w] == root ensures Count(PendingAt(g, k + 1), w) == 0 {
      if Count(later, w) > 0 {
        CountPositive(later, w);
        var i :| 0 <= i < |later| && later[i] == w;
        CountAtLeastOne(st.buffer, later, i);
      }
    }
  }

  lemma PushedDead(g: Graph, buffer: seq<Id>, free: seq<FreeBuffer>, placed: set<Id>, e: FreeBuffer, i: nat)
    requires AllDead(g, buffer, free, placed, e.point + 1) && Dead(g, buffer, placed, e) && i <= |free|
    ensures Dead(g, buffer, placed, ([e] + free)[i]) && ([e] + free)[i].point <= e.point
  {
    if i > 0 {
      assert ([e] + free)[i] == free[i - 1];
      assert Dead(g, buffer, placed, free[i - 1]);
    }
  }

  lemma PushKeepsDead(g: Graph, buffer: seq<Id>, free: seq<FreeBuffer>, placed: set<Id>, e: FreeBuffer)
    requires AllDead(g, buffer, free, placed, e.point + 1) && Dead(g, buffer, placed, e)
    ensures AllDead(g, buffer, [e] + free, placed, e.point + 1)
  {
    forall i | 0 <= i < |[e] + free|
      ensures Dead(g, buffer, placed, ([e] + free)[i]) && ([e] + free)[i].point < e.point + 1
    {
      PushedDead(g, buffer, free, placed, e, i);
    }
  }

  lemma PushKeepsOrder(free: seq<FreeBuffer>, e: FreeBuffer)
    requires MostRecentFirst(free) && forall i :: 0 <= i < |free| ==> free[i].point <= e.point
    ensures MostRecentFirst([e] + free)
  {
  }

  lemma PushKeepsFree(g: Graph, st: State, st': State, placed: set<Id>, e: FreeBuffer)
    requires FreeListOk(g, st, placed, e.point + 1) && Dead(g, st.buffer, placed, e)
    requires st'.buffer == st.buffer && st'.free == [e] + st.free
    ensures FreeListOk(g, st', placed, e.point + 1)
  {
    PushKeepsDead(g, st.buffer, st.free, placed, e);
    forall i | 0 <= i < |st.free| ensures st.free[i].point <= e.point {
      assert Dead(g, st.buffer, placed, st.free[i]);
    }
    PushKeepsOrder(st.free, e);
  }

  lemma ReleaseKeepsFree(g: Graph, st: State, placed: set<Id>, v: Id, later: seq<Id>, k: nat)
    requires k < |g.nodes| && Count(Released(g.nodes[k]), v) > 0 && v in placed
    requires Accounted(g, st, placed, [v] + later)
    requires forall w {:trigger Count(later, w)} :: Count(PendingAt(g, k + 1), w) <= Count(later, w)
    requires FreeListOk(g, st, placed, k + 1)
    ensures FreeListOk(g, Release(g, st, v, k), placed, k + 1)
  {
    var st' := Release(g, st, v, k);
    if st.use[st.buffer[v]] == 1 {
      NewlyFreeIsDead(g, st, placed, v, later, k);
      PushKeepsFree(g, st, st', placed, FreeBuffer(st.buffer[v], k));
    } else {
      SameFree(g, st, st', placed, k + 1);
    }
  }

  lemma SameFree(g: Graph, st: State, st': State, placed: set<Id>, limit: nat)
    requires FreeListOk(g, st, placed, limit) && st'.buffer == st.buffer && st'.free == st.free
    ensures FreeListOk(g, st', placed, limit)
  {
  }

  lemma {:induction false} ReleasesKeepFree(g: Graph, st: State, placed: set<Id>, ids: seq<Id>, later: seq<Id>, k: nat)
    requires k < |g.nodes| && AllIn(ids, placed)
    requires forall i :: 0 <= i < |ids| ==> Count(Released(g.nodes[k]), ids[i]) > 0
    requires Accounted(g, st, placed, ids + later)
    requires forall w {:trigger Count(later, w)} :: Count(PendingAt(g, k + 1), w) <= Count(later, w)
    requires FreeListOk(g, st, placed, k + 1)
    ensures var st' := AfterReleases(g, st, ids, k);
      FreeListOk(g, st', placed, k + 1)
  {
    if ids != [] {
      var front, v := ids[..|ids| - 1], ids[|ids| - 1];
      assert ids + later == front + ([v] + later);
      forall w ensures Count([v] + later, w) >= Count(later, w) {
        CountConcat([v], later, w);
      }
      var mid := AfterReleases(g, st, front, k);
      ReleasesKeepFree(g, st, placed, front, [v] + later, k);
      ReleasesKeep(g, st, placed, front, [v] + later, k);
      ReleaseKeepsFree(g, mid, placed, v, later, k);
      assert AfterReleases(g, st, ids, k) == Release(g, mid, v, k);
    }
  }

  lemma NodeKeepsFree(g: Graph, st: State, k: nat)
    requires WellFormed(g) && k < |g.nodes|
    requires Accounted(g, st, DefinedBefore(g, k), PendingAt(g, k))
    requires FreeListOk(g, st, DefinedBefore(g, k), k)
    requires NodeInRange(g, g.nodes[k])
    ensures var st' := AfterNode(g, st, g.nodes[k], k);
      FreeListOk(g, st', DefinedBefore(g, k + 1), k + 1)
  {
    var n := g.nodes[k];
    InputsReady(g, k);
    OutputsKeep(g, st, k, |n.outputs|);
    OutputsKeepFree(g, st, k, |n.outputs|);
    assert n.outputs[..|n.outputs|] == n.outputs;
    assert NodeWellFormed(g, k);
    var mid := AfterOutputs(g, st, n, |n.outputs|);
    IdSetAll(Existing(n.outputs));
    forall i | 0 <= i < |Released(n)| ensures Count(Released(n), Released(n)[i]) > 0 {
      CountPositive(Released(n), Released(n)[i]);
    }
    ReleasesKeepFree(g, mid, DefinedBefore(g, k + 1), Released(n), PendingAt(g, k + 1), k);
  }

  lemma RunStepKeepsFree(g: Graph, run: seq<State>, k: nat)
    requires IsRun(g, run) && k < |g.nodes|
    requires FreeListOk(g, run[k], DefinedBefore(g, k), k)
    ensures FreeListOk(g, run[k + 1], DefinedBefore(g, k + 1), k + 1)
  {
    assert StepAt(g, run, k);
    RunAccounted(g, run, k);
    NodeKeepsFree(g, run[k], k);
  }

  /** Throughout a run the free list is ordered by how recently a buffer died, and every
      buffer on it is dead from its deallocation point on. */
  lemma {:induction false} RunFreeList(g: Graph, run: seq<State>, k: nat)
    requires IsRun(g, run) && k <= |g.nodes|
    ensures FreeListOk(g, run[k], DefinedBefore(g, k), k)
  {
    if k > 0 {
      var j := k - 1;
      RunFreeList(g, run, j);
      RunStepKeepsFree(g, run, j);
      assert k == j + 1;
    }
  }

  // ----- stability ------------------------------------------------------------------------

  lemma PlaceLeavesBuffers(g: Graph, st: State, k: nat, j: nat, v: Id)
    requires WellFormed(g) && k < |g.nodes| && j < |g.nodes[k].outputs|
    requires Shaped(g, st) && NodeInRange(g, g.nodes[k])
    requires v in PlacedAfter(DefinedBefore(g, k), g.nodes[k], j) && v < |g.values|
    ensures PlaceOutput(g, st, g.nodes[k], j).buffer[v] == st.buffer[v]
  {
    if g.nodes[k].outputs[j].Some? {
      OutputUnplaced(g, k, j);
    }
  }

  lemma OutputsLeaveBuffers(g: Graph, st: State, k: nat, i: nat, j: nat, v: Id)
    requires WellFormed(g) && k < |g.nodes| && i <= j <= |g.nodes[k].outputs|
    requires Shaped(g, st) && NodeInRange(g, g.nodes[k])
    requires v in PlacedAfter(DefinedBefore(g, k), g.nodes[k], i) && v < |g.values|
    ensures AfterOutputs(g, st, g.nodes[k], j).buffer[v] == AfterOutputs(g, st, g.nodes[k], i).buffer[v]
  {
    var n, b := g.nodes[k], AfterOutputs(g, st, g.nodes[k], i).buffer[v];
    var InPlace := (s: State, m: nat) => v < |s.buffer| && s.buffer[v] == b;
    forall s, m | i <= m < j && Shaped(g, s) && InPlace(s, m) ensures InPlace(PlaceOutput(g, s, n, m), m + 1) {
      PlacedGrows(DefinedBefore(g, k), n, i, m);
      PlaceLeavesBuffers(g, s, k, m, v);
    }
    OutputsInduction(g, st, n, InPlace, i, j);
  }

  /** Every entry of the final free list died at a step of the plan, the latest first. */
  lemma FreePoints(g: Graph, run: seq<State>)
    requires IsRun(g, run)
    ensures MostRecentFirst(run[|g.nodes|].free) && PointsBelow(run[|g.nodes|].free, |g.nodes|)
  {
    var last := run[|g.nodes|];
    RunFreeList(g, run, |g.nodes|);
    forall i | 0 <= i < |last.free| ensures last.free[i].point < |g.nodes| {
      assert Dead(g, last.buffer, Defined(g), last.free[i]);
    }
  }

  lemma {:induction false} ReleasesLeaveBuffers(g: Graph, st: State, ids: seq<Id>, pc: nat)
    requires Shaped(g, st) && forall i :: 0 <= i < |ids| ==> ids[i] < |g.values|
    ensures var st' := AfterReleases(g, st, ids, pc);
      st'.buffer == st.buffer && st'.kind == st.kind && st'.reused == st.reused
  {
    if ids != [] {
      ReleasesLeaveBuffers(g, st, ids[..|ids| - 1], pc);
    }
  }

  lemma NodeLeavesBuffers(g: Graph, st: State, k: nat, j: nat, v: Id)
    requires WellFormed(g) && k < |g.nodes| && j <= |g.nodes[k].outputs|
    requires Shaped(g, st) && NodeInRange(g, g.nodes[k])
    requires v in PlacedAfter(DefinedBefore(g, k), g.nodes[k], j) && v < |g.values|
    ensures AfterNode(g, st, g.nodes[k], k).buffer[v] == AfterOutputs(g, st, g.nodes[k], j).buffer[v]
  {
    var n := g.nodes[k];
    OutputsLeaveBuffers(g, st, k, j, |n.outputs|, v);
    ReleasedInRange(g, n.inputs);
    ReleasedInRange(g, n.implicitInputs);
    ReleasedInRange(g, n.outputs);
    ReleasesLeaveBuffers(g, AfterOutputs(g, st, n, |n.outputs|), Released(n), k);
  }

  /** Once placed, a value keeps its buffer to the end of the run. */
  lemma {:induction false} RunLeavesBuffers(g: Graph, run: seq<State>, k: nat, v: Id)
    requires IsRun(g, run) && k <= |g.nodes| && v in DefinedBefore(g, k) && v < |g.values|
    ensures Shaped(g, run[k]) && Shaped(g, run[|g.nodes|])
    ensures run[|g.nodes|].buffer[v] == run[k].buffer[v]
    decreases |g.nodes| - k
  {
    RunAccounted(g, run, k);
    if k < |g.nodes| {
      RunLeavesBuffers(g, run, k + 1, v);
      assert StepAt(g, run, k);
      assert v in PlacedAfter(DefinedBefore(g, k), g.nodes[k], 0);
      NodeLeavesBuffers(g, run[k], k, 0, v);
    }
  }

  // ----- the finished plan ------------------------------------------------------------------

  /** When planning is over, the buffers that get freed are exactly those in which no
      graph input, outer-scope value, initializer or graph output lives. */
  lemma FreedExactlyWhenUnowned(g: Graph, run: seq<State>, r: Id)
    requires IsRun(g, run) && r in Defined(g)
    ensures r < |g.values| && Shaped(g, run[|g.nodes|])
    ensures var last := run[|g.nodes|];
      IsFree(last.free, r) <==>
        last.buffer[r] == r &&
        forall v :: v in Defined(g) && last.buffer[v] == r ==> v !in CallerOwned(g) && v !in g.outputs
  {
    var last := run[|g.nodes|];
    RunAccounted(g, run, |g.nodes|);
    assert PendingAt(g, |g.nodes|) == Permanent(g);
    if last.buffer[r] == r {
      UnusedWhenUnowned(g, last, r);
    }
    forall v ensures v in Permanent(g) <==> v in CallerOwned(g) || v in g.outputs {
      DistinctSubset(CallerOwned(g), v);
    }
  }

  lemma UnusedWhenUnowned(g: Graph, st: State, r: Id)
    requires Accounted(g, st, Defined(g), Permanent(g)) && r in Defined(g) && st.buffer[r] == r
    ensures st.use[r] == 0 <==> forall v :: v in Defined(g) && st.buffer[v] == r ==> v !in Permanent(g)
  {
    var owned := Permanent(g);
    if CountRoot(st.buffer, owned, r) > 0 {
      var i := CountWitness(st.buffer, owned, r);
      assert owned[i] in owned;
    } else {
      forall v | v in owned ensures st.buffer[v] != r {
        var i :| 0 <= i < |owned| && owned[i] == v;
        CountAtLeastOne(st.buffer, owned, i);
      }
    }
  }

  lemma {:induction false} CountWitness(buffer: seq<Id>, pending: seq<Id>, root: Id) returns (i: nat)
    requires forall j :: 0 <= j < |pending| ==> pending[j] < |buffer|
    requires CountRoot(buffer, pending, root) > 0
    ensures i < |pending| && buffer[pending[i]] == root
  {
    if buffer[pending[0]] == root {
      i := 0;
    } else {
      i := CountWitness(buffer, pending[1..], root);
      i := i + 1;
    }
  }
}
