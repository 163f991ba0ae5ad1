/** In which order freed buffers are kept: the last freed comes first, also among those that one
    node frees. Together with the points this fixes the whole list. */
module PlannerOrder {
  import opened Prelude
  import opened PlannerGraph
  import opened PlannerState
  import opened PlannerLedger
  import opened PlannerAccounting
  import opened PlannerLiveness

  /** The arguments of a node in the order in which their uses end: inputs, implicit inputs, outputs. */
  function Arguments(n: Node): (ids: seq<Id>)
  {
    Existing(n.inputs) + Existing(n.implicitInputs) + Existing(n.outputs)
  }

  /** Argument `p` is the last of `ids` that lives in the buffer. */
  ghost predicate LastIn(ids: seq<Id>, buffer: seq<Id>, root: Id, p: nat)
  {
    && p < |ids| && ids[p] < |buffer| && buffer[ids[p]] == root
    && forall q :: p < q < |ids| ==> ids[q] < |buffer| && buffer[ids[q]] != root
  }

  /** Of two buffers, the last argument in the first comes after the last in the second. */
  ghost predicate EndsLater(ids: seq<Id>, buffer: seq<Id>, root: Id, root': Id)
  {
    exists p, p' :: LastIn(ids, buffer, root, p) && LastIn(ids, buffer, root', p') && p' < p
  }

  /** Buffers that died at the same step are listed by the last argument that lived in them. */
  ghost predicate LastFirst(g: Graph, buffer: seq<Id>, free: seq<FreeBuffer>)
  {
    forall i, j :: 0 <= i < j < |free| && free[i].point == free[j].point < |g.nodes| ==>
      EndsLater(Arguments(g.nodes[free[i].point]), buffer, free[i].value, free[j].value)
  }

  // ----- giving back the uses of a node -----------------------------------------------------

  /** Among the buffers that have died at step `pc` so far, `ids` being the uses given back. */
  ghost predicate LastFirstSoFar(free: seq<FreeBuffer>, ids: seq<Id>, buffer: seq<Id>, pc: nat)
  {
    && (forall i :: 0 <= i < |free| && free[i].point == pc ==> Ended(ids, buffer, free[i].value))
    && (forall i, j :: 0 <= i < j < |free| && free[i].point == free[j].point == pc ==>
          EndsLater(ids, buffer, free[i].value, free[j].value))
  }

  ghost predicate Ended(ids: seq<Id>, buffer: seq<Id>, root: Id)
  {
    exists p :: LastIn(ids, buffer, root, p)
  }

  /** One more use that is not of the buffer changes nothing for it. */
  lemma LastInKept(ids: seq<Id>, buffer: seq<Id>, root: Id, p: nat, v: Id)
    requires LastIn(ids, buffer, root, p) && v < |buffer| && buffer[v] != root
    ensures LastIn(ids + [v], buffer, root, p)
  {
  }

  lemma EndedKept(ids: seq<Id>, buffer: seq<Id>, root: Id, v: Id)
    requires Ended(ids, buffer, root) && v < |buffer| && buffer[v] != root
    ensures Ended(ids + [v], buffer, root)
    ensures EndsLater(ids + [v], buffer, buffer[v], root)
  {
    var p :| LastIn(ids, buffer, root, p);
    LastInKept(ids, buffer, root, p, v);
    assert LastIn(ids + [v], buffer, buffer[v], |ids|);
  }

  lemma EndsLaterKept(ids: seq<Id>, buffer: seq<Id>, root: Id, root': Id, v: Id)
    requires EndsLater(ids, buffer, root, root') && v < |buffer| && buffer[v] != root && buffer[v] != root'
    ensures EndsLater(ids + [v], buffer, root, root')
  {
    var p, p' :| LastIn(ids, buffer, root, p) && LastIn(ids, buffer, root', p') && p' < p;
    LastInKept(ids, buffer, root, p, v);
    LastInKept(ids, buffer, root', p', v);
  }

  lemma ReleaseOrders(g: Graph, st: State, placed: set<Id>, ids: seq<Id>, v: Id, rest: seq<Id>, pc: nat)
    requires Accounted(g, st, placed, [v] + rest) && v in placed && v < |g.values|
    requires LastFirstSoFar(st.free, ids, st.buffer, pc)
    ensures LastFirstSoFar(Release(g, st, v, pc).free, ids + [v], st.buffer, pc)
  {
    var free, free', more := st.free, Release(g, st, v, pc).free, ids + [v];
    var root := st.buffer[v];
    assert ([v] + rest)[0] == v;
    InUseNotFree(g, st, placed, [v] + rest, v);
    forall i | 0 <= i < |free| ensures free[i].value != root {
      assert free[i].value == root ==> IsFree(free, root);
    }
    assert LastIn(more, st.buffer, root, |ids|);
    forall i | 0 <= i < |free| && free[i].point == pc
      ensures Ended(more, st.buffer, free[i].value) && EndsLater(more, st.buffer, root, free[i].value)
    {
      EndedKept(ids, st.buffer, free[i].value, v);
    }
    forall i, j | 0 <= i < j < |free| && free[i].point == free[j].point == pc
      ensures EndsLater(more, st.buffer, free[i].value, free[j].value)
    {
      EndsLaterKept(ids, st.buffer, free[i].value, free[j].value, v);
    }
    if free' != free {
      assert free' == [FreeBuffer(root, pc)] + free;
    }
  }

  lemma {:induction false} ReleasesOrder(g: Graph, st: State, placed: set<Id>, ids: seq<Id>, rest: seq<Id>, pc: nat)
    requires Accounted(g, st, placed, ids + rest) && AllIn(ids, placed) && PointsBelow(st.free, pc)
    ensures LastFirstSoFar(AfterReleases(g, st, ids, pc).free, ids, st.buffer, pc)
  {
    if ids != [] {
      var front, v := ids[..|ids| - 1], ids[|ids| - 1];
      assert ids + rest == front + ([v] + rest) && ids == front + [v];
      ReleasesOrder(g, st, placed, front, [v] + rest, pc);
      ReleasesKeep(g, st, placed, front, [v] + rest, pc);
      ReleasesLeaveBuffers(g, st, front, pc);
      ReleaseOrders(g, AfterReleases(g, st, front, pc), placed, front, v, rest, pc);
    }
  }

  /** The list grows at the front, by buffers that die now. */
  ghost predicate Pushed(free: seq<FreeBuffer>, free': seq<FreeBuffer>, pc: nat)
  {
    |free| <= |free'| && free'[|free'| - |free|..] == free &&
    forall i :: 0 <= i < |free'| - |free| ==> free'[i].point == pc
  }

  lemma {:induction false} ReleasesPush(g: Graph, st: State, ids: seq<Id>, pc: nat)
    requires Shaped(g, st) && forall i :: 0 <= i < |ids| ==> ids[i] < |g.values|
    ensures Pushed(st.free, AfterReleases(g, st, ids, pc).free, pc)
  {
    if ids != [] {
      ReleasesPush(g, st, ids[..|ids| - 1], pc);
    }
  }

  lemma PushedInOrder(g: Graph, buffer: seq<Id>, free: seq<FreeBuffer>, free': seq<FreeBuffer>, k: nat)
    requires k < |g.nodes| && LastFirst(g, buffer, free) && PointsBelow(free, k) && Pushed(free, free', k)
    requires LastFirstSoFar(free', Arguments(g.nodes[k]), buffer, k)
    ensures LastFirst(g, buffer, free') && PointsBelow(free', k + 1)
  {
    var n := |free'| - |free|;
    forall i | n <= i < |free'| ensures free'[i] == free[i - n] {}
    forall i, j | 0 <= i < j < |free'| && free'[i].point == free'[j].point < |g.nodes|
      ensures EndsLater(Arguments(g.nodes[free'[i].point]), buffer, free'[i].value, free'[j].value)
    {
      if n <= i {
        assert free'[i] == free[i - n] && free'[j] == free[j - n];
      }
    }
  }

  // ----- placing the outputs of a node ------------------------------------------------------

  lemma EndsLaterSame(ids: seq<Id>, buffer: seq<Id>, buffer': seq<Id>, root: Id, root': Id)
    requires EndsLater(ids, buffer, root, root') && |buffer| == |buffer'|
    requires forall i :: 0 <= i < |ids| && ids[i] < |buffer| ==> buffer'[ids[i]] == buffer[ids[i]]
    ensures EndsLater(ids, buffer', root, root')
  {
    var p, p' :| LastIn(ids, buffer, root, p) && LastIn(ids, buffer, root', p') && p' < p;
    assert LastIn(ids, buffer', root, p) && LastIn(ids, buffer', root', p');
  }

  /** What a node mentions is defined once it has run. */
  lemma ArgumentsDefined(g: Graph, p: nat, k: nat)
    requires WellFormed(g) && p < k <= |g.nodes|
    ensures AllIn(Arguments(g.nodes[p]), DefinedBefore(g, k))
  {
    assert NodeWellFormed(g, p);
    DefinedGrows(g, p, k);
    DefinedGrows(g, p + 1, k);
    IdSetAll(Existing(g.nodes[p].outputs));
  }

  lemma WithoutInOrder(g: Graph, buffer: seq<Id>, free: seq<FreeBuffer>, index: nat)
    requires index < |free| && LastFirst(g, buffer, free)
    ensures LastFirst(g, buffer, Without(free, index))
  {
    var free' := Without(free, index);
    forall i, j | 0 <= i < j < |free'| && free'[i].point == free'[j].point < |g.nodes|
      ensures EndsLater(Arguments(g.nodes[free'[i].point]), buffer, free'[i].value, free'[j].value)
    {
      var i', j' := if i < index then i else i + 1, if j < index then j else j + 1;
      assert free'[i] == free[i'] && free'[j] == free[j'];
    }
  }

  lemma MovedInOrder(g: Graph, buffer: seq<Id>, free: seq<FreeBuffer>, k: nat, out: Id, root: Id)
    requires WellFormed(g) && k < |g.nodes| && LastFirst(g, buffer, free) && PointsBelow(free, k)
    requires out < |buffer| && out !in DefinedBefore(g, k)
    ensures LastFirst(g, buffer[out := root], free)
  {
    forall i, j | 0 <= i < j < |free| && free[i].point == free[j].point < |g.nodes|
      ensures EndsLater(Arguments(g.nodes[free[i].point]), buffer[out := root], free[i].value, free[j].value)
    {
      ArgumentsDefined(g, free[i].point, k);
      EndsLaterSame(Arguments(g.nodes[free[i].point]), buffer, buffer[out := root], free[i].value, free[j].value);
    }
  }

  lemma ApplyInOrder(g: Graph, st: State, k: nat, out: Id, d: Decision)
    requires WellFormed(g) && k < |g.nodes| && Shaped(g, st) && DecisionInRange(g, st, d)
    requires LastFirst(g, st.buffer, st.free) && PointsBelow(st.free, k)
    requires out < |g.values| && out !in DefinedBefore(g, k)
    ensures var st' := Apply(g, st, out, d); LastFirst(g, st'.buffer, st'.free) && PointsBelow(st'.free, k)
  {
    if d.Recycle? {
      WithoutInOrder(g, st.buffer, st.free, d.index);
      MovedInOrder(g, st.buffer, Without(st.free, d.index), k, out, st.buffer[d.source]);
    } else if !d.OwnOutput? && !d.OwnBuffer? {
      MovedInOrder(g, st.buffer, st.free, k, out, st.buffer[d.source]);
    }
  }

  lemma PlaceInOrder(g: Graph, st: State, k: nat, j: nat)
    requires WellFormed(g) && k < |g.nodes| && j < |g.nodes[k].outputs| && NodeInRange(g, g.nodes[k])
    requires Shaped(g, st) && LastFirst(g, st.buffer, st.free) && PointsBelow(st.free, k)
    ensures var st' := PlaceOutput(g, st, g.nodes[k], j); LastFirst(g, st'.buffer, st'.free) && PointsBelow(st'.free, k)
  {
    var n := g.nodes[k];
    if n.outputs[j].Some? {
      var out := n.outputs[j].value;
      OutputUnplaced(g, k, j);
      OutputNumInRange(n.outputs, j);
      DecideJustified(g, st, n, Position(n.outputs, j), out);
      ApplyInOrder(g, st, k, out, Decide(g, st, n, Position(n.outputs, j), out));
    }
  }

  lemma OutputsInOrder(g: Graph, st: State, k: nat)
    requires WellFormed(g) && k < |g.nodes| && NodeInRange(g, g.nodes[k])
    requires Shaped(g, st) && LastFirst(g, st.buffer, st.free) && PointsBelow(st.free, k)
    ensures var st' := AfterOutputs(g, st, g.nodes[k], |g.nodes[k].outputs|);
      LastFirst(g, st'.buffer, st'.free) && PointsBelow(st'.free, k)
  {
    var n := g.nodes[k];
    var Kept := (s: State, m: nat) => LastFirst(g, s.buffer, s.free) && PointsBelow(s.free, k);
    forall s, m | 0 <= m < |n.outputs| && Shaped(g, s) && Kept(s, m) ensures Kept(PlaceOutput(g, s, n, m), m + 1) {
      PlaceInOrder(g, s, k, m);
    }
    OutputsInduction(g, st, n, Kept, 0, |n.outputs|);
  }

  // ----- every run --------------------------------------------------------------------------

  lemma NodeInOrder(g: Graph, st: State, k: nat)
    requires WellFormed(g) && k < |g.nodes| && NodeInRange(g, g.nodes[k])
    requires Accounted(g, st, DefinedBefore(g, k), PendingAt(g, k))
    requires LastFirst(g, st.buffer, st.free) && PointsBelow(st.free, k)
    ensures var st' := AfterNode(g, st, g.nodes[k], k);
      LastFirst(g, st'.buffer, st'.free) && PointsBelow(st'.free, k + 1)
  {
    var n := g.nodes[k];
    var mid := AfterOutputs(g, st, n, |n.outputs|);
    OutputsInOrder(g, st, k);
    InputsReady(g, k);
    OutputsKeep(g, st, k, |n.outputs|);
    assert n.outputs[..|n.outputs|] == n.outputs;
    ArgumentsDefined(g, k, k + 1);
    ReleasesOrder(g, mid, DefinedBefore(g, k + 1), Released(n), PendingAt(g, k + 1), k);
    ReleasedInRange(g, n.inputs);
    ReleasedInRange(g, n.implicitInputs);
    ReleasedInRange(g, n.outputs);
    ReleasesPush(g, mid, Released(n), k);
    ReleasesLeaveBuffers(g, mid, Released(n), k);
    PushedInOrder(g, mid.buffer, mid.free, AfterReleases(g, mid, Released(n), k).free, k);
  }

  /** At every step of every run, of two buffers that one node freed the one whose last argument
      comes later is first. */
  lemma {:induction false} RunInOrder(g: Graph, run: seq<State>, k: nat)
    requires IsRun(g, run) && k <= |g.nodes|
    ensures LastFirst(g, run[k].buffer, run[k].free) && PointsBelow(run[k].free, k)
  {
    if k > 0 {
      RunInOrder(g, run, k - 1);
      RunStepInOrder(g, run, k - 1);
    }
  }

  lemma RunStepInOrder(g: Graph, run: seq<State>, k: nat)
    requires IsRun(g, run) && k < |g.nodes| && LastFirst(g, run[k].buffer, run[k].free) && PointsBelow(run[k].free, k)
    ensures LastFirst(g, run[k + 1].buffer, run[k + 1].free) && PointsBelow(run[k + 1].free, k + 1)
  {
    RunAccounted(g, run, k);
    assert StepAt(g, run, k);
    NodeInOrder(g, run[k], k);
  }
}
