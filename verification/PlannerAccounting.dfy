/** The accounting invariant of the planner: every buffer's count is the number of
    outstanding uses of the values living in it, the free list holds exactly the buffers
    nobody uses, and every buffer index is one hop from the buffer it stands for. */
module PlannerAccounting {
  import opened Prelude
  import opened PlannerGraph
  import opened PlannerState
  import opened PlannerLedger

  // ----- counting ---------------------------------------------------------------------

  lemma {:induction false} CountAtLeastOne(buffer: seq<Id>, pending: seq<Id>, i: nat)
    requires forall j :: 0 <= j < |pending| ==> pending[j] < |buffer|
    requires i < |pending|
    ensures CountRoot(buffer, pending, buffer[pending[i]]) >= 1
  {
    if i > 0 {
      CountAtLeastOne(buffer, pending[1..], i - 1);
    }
  }

  lemma {:induction false} CountAtLeastTwo(buffer: seq<Id>, pending: seq<Id>, i: nat, j: nat)
    requires forall j :: 0 <= j < |pending| ==> pending[j] < |buffer|
    requires i < j < |pending| && buffer[pending[i]] == buffer[pending[j]]
    ensures CountRoot(buffer, pending, buffer[pending[i]]) >= 2
  {
    if i > 0 {
      CountAtLeastTwo(buffer, pending[1..], i - 1, j - 1);
    } else {
      CountAtLeastOne(buffer, pending[1..], j - 1);
    }
  }

  /** Moving `out`, alone in its buffer, into `root` moves its uses there and no others. */
  lemma {:induction false} CountAfterMove(buffer: seq<Id>, pending: seq<Id>, out: Id, root: Id, r: Id)
    requires forall j :: 0 <= j < |pending| ==> pending[j] < |buffer|
    requires out < |buffer| && buffer[out] == out && root != out
    requires forall j :: 0 <= j < |pending| && buffer[pending[j]] == out ==> pending[j] == out
    requires r != out
    ensures CountRoot(buffer[out := root], pending, r)
         == CountRoot(buffer, pending, r) + if r == root then CountRoot(buffer, pending, out) else 0
  {
    if pending != [] {
      CountAfterMove(buffer, pending[1..], out, root, r);
    }
  }

  // ----- the invariant is kept by each operation ----------------------------------------

  /** Giving `out` its own buffer. */
  lemma OwnKeeps(g: Graph, st: State, placed: set<Id>, pending: seq<Id>, out: Id, kind: AllocKind)
    requires Accounted(g, st, placed, pending)
    requires out in Defined(g) && out !in placed
    ensures Accounted(g, st.(kind := st.kind[out := kind]), placed + {out}, pending)
  {
    var st' := st.(kind := st.kind[out := kind]);
    assert st'.buffer == st.buffer && st'.use == st.use && st'.free == st.free;
    assert st.buffer[out] == out;
    assert Rooted(g, st', placed + {out});
    assert Counted(g, st', placed + {out}, pending) by {
      forall r | r in Defined(g) && st'.buffer[r] == r ensures st'.use[r] == CountRoot(st'.buffer, pending, r) {
        assert st.use[r] == CountRoot(st.buffer, pending, r);
      }
    }
    assert FreeExact(g, st') by {
      forall r: Id ensures IsFree(st'.free, r) <==> r in Defined(g) && st'.buffer[r] == r && st'.use[r] == 0 {
        assert IsFree(st.free, r) <==> r in Defined(g) && st.buffer[r] == r && st.use[r] == 0;
      }
    }
  }

  /** Moving `out` into the buffer of a placed value; if that buffer was free it leaves
      the free list. */
  lemma ReuseKeeps(g: Graph, st: State, placed: set<Id>, pending: seq<Id>,
                   reused: Id, out: Id, kind: AllocKind, free': seq<FreeBuffer>)
    requires Accounted(g, st, placed, pending)
    requires out in Defined(g) && out !in placed && reused in placed
    requires FreeOnce(free') && forall i :: 0 <= i < |free'| ==> free'[i].value < |g.values|
    requires forall r: Id :: IsFree(free', r) <==> IsFree(st.free, r) && r != st.buffer[reused]
    ensures Shaped(g, st.(free := free')) && reused != out
    ensures Accounted(g, Reuse(g, st.(free := free'), reused, out, kind), placed + {out}, pending)
  {
    ReuseKeepsCounts(g, st, placed, pending, reused, out, kind, free');
    ReuseKeepsFree(g, st, placed, pending, reused, out, kind, free');
  }

  lemma ReuseKeepsCounts(g: Graph, st: State, placed: set<Id>, pending: seq<Id>,
                         reused: Id, out: Id, kind: AllocKind, free': seq<FreeBuffer>)
    requires Accounted(g, st, placed, pending)
    requires out in Defined(g) && out !in placed && reused in placed
    requires forall i :: 0 <= i < |free'| ==> free'[i].value < |g.values|
    ensures Shaped(g, st.(free := free'))
    ensures var st' := Reuse(g, st.(free := free'), reused, out, kind);
      Rooted(g, st', placed + {out}) && Counted(g, st', placed + {out}, pending)
  {
    var root := st.buffer[reused];
    assert st.buffer[out] == out && st.use[out] > 0 && root != out;
    var st' := Reuse(g, st.(free := free'), reused, out, kind);
    forall r | r in Defined(g) && r != out
      ensures CountRoot(st'.buffer, pending, r)
           == CountRoot(st.buffer, pending, r) + if r == root then st.use[out] else 0
    {
      CountAfterMove(st.buffer, pending, out, root, r);
    }
  }

  lemma ReuseKeepsFree(g: Graph, st: State, placed: set<Id>, pending: seq<Id>,
                       reused: Id, out: Id, kind: AllocKind, free': seq<FreeBuffer>)
    requires Accounted(g, st, placed, pending)
    requires out in Defined(g) && out !in placed && reused in placed
    requires FreeOnce(free') && forall i :: 0 <= i < |free'| ==> free'[i].value < |g.values|
    requires forall r: Id :: IsFree(free', r) <==> IsFree(st.free, r) && r != st.buffer[reused]
    ensures Shaped(g, st.(free := free')) && reused != out
    ensures FreeExact(g, Reuse(g, st.(free := free'), reused, out, kind))
  {
    var root := st.buffer[reused];
    assert st.buffer[out] == out && st.use[out] > 0 && root != out;
    var st' := Reuse(g, st.(free := free'), reused, out, kind);
    forall r: Id ensures IsFree(free', r) <==> r in Defined(g) && st'.buffer[r] == r && st'.use[r] == 0 {
      assert IsFree(st.free, r) <==> r in Defined(g) && st.buffer[r] == r && st.use[r] == 0;
      if r == out {
        assert st'.buffer[r] == root;
      } else if r == root {
        assert st'.use[r] == st.use[r] + st.use[out];
      } else if r in Defined(g) {
        assert st'.buffer[r] == st.buffer[r] && st'.use[r] == st.use[r];
      }
    }
  }

  lemma WithoutFree(free: seq<FreeBuffer>, index: nat)
    requires FreeOnce(free) && index < |free|
    ensures FreeOnce(Without(free, index))
    ensures forall r: Id :: IsFree(Without(free, index), r) <==> IsFree(free, r) && r != free[index].value
  {
    var free' := Without(free, index);
    forall i | 0 <= i < |free'|
      ensures IsFree(free, free'[i].value) && free'[i].value != free[index].value
    {
      assert free'[i] == free[if i < index then i else i + 1];
    }
    forall r | IsFree(free, r) && r != free[index].value
      ensures IsFree(free', r)
    {
      var i :| 0 <= i < |free| && free[i].value == r;
      assert free[i] == free'[if i < index then i else i - 1];
    }
  }

  lemma FreeAfterRelease(g: Graph, st: State, v: Id, pc: nat, r: Id)
    requires Shaped(g, st) && v < |g.values|
    ensures var st' := Release(g, st, v, pc);
      IsFree(st'.free, r) <==> IsFree(st.free, r) || (r == st.buffer[v] && st'.use[r] == 0)
  {
    var st' := Release(g, st, v, pc);
    if st'.use[st.buffer[v]] == 0 {
      assert st'.free[0].value == st.buffer[v];
      forall i | 0 <= i < |st.free| ensures st'.free[i + 1] == st.free[i] {}
    }
  }

  /** One use given back. */
  lemma ReleaseKeeps(g: Graph, st: State, placed: set<Id>, v: Id, rest: seq<Id>, pc: nat)
    requires Accounted(g, st, placed, [v] + rest)
    requires v in placed
    ensures st.use[st.buffer[v]] >= 1
    ensures Accounted(g, Release(g, st, v, pc), placed, rest)
  {
    var pending := [v] + rest;
    assert pending[0] == v && pending[1..] == rest;
    var st' := Release(g, st, v, pc);
    var root := st.buffer[v];
    CountAtLeastOne(st.buffer, pending, 0);
    assert st'.use[root] == CountRoot(st.buffer, rest, root);
    forall r: Id ensures IsFree(st'.free, r) <==> r in Defined(g) && st.buffer[r] == r && st'.use[r] == 0 {
      FreeAfterRelease(g, st, v, pc, r);
    }
    assert FreeOnce(st'.free) by {
      assert !IsFree(st.free, root);
    }
  }

  // ----- one output ---------------------------------------------------------------------

  ghost predicate InputsPlaced(n: Node, placed: set<Id>)
  {
    forall slot :: 0 <= slot < |n.inputs| && n.inputs[slot].Some? ==> n.inputs[slot].value in placed
  }

  /** Carrying out a decision of the planner keeps the accounts. */
  lemma DecisionKeeps(g: Graph, st: State, placed: set<Id>, pending: seq<Id>, n: Node, outputNum: nat, out: Id,
                      d: Decision)
    requires Accounted(g, st, placed, pending)
    requires NodeInRange(g, n) && InputsPlaced(n, placed) && outputNum < |n.outputs|
    requires forall slot :: 0 <= slot < |n.inputs| && n.inputs[slot].Some? ==> n.inputs[slot].value in pending
    requires out in Defined(g) && out !in placed
    requires Justified(g, st, n, outputNum, out, d)
    ensures DecisionInRange(g, st, d)
    ensures Accounted(g, Apply(g, st, out, d), placed + {out}, pending)
  {
    match d
    case OwnOutput => OwnKeeps(g, st, placed, pending, out, KAllocateOutput);
    case OwnBuffer => OwnKeeps(g, st, placed, pending, out, KAllocate);
    case ShareInput(source) =>
      InUseNotFree(g, st, placed, pending, source);
      ReuseKeeps(g, st, placed, pending, source, out, KShare, st.free);
    case AliasInput(slot, source) =>
      InUseNotFree(g, st, placed, pending, source);
      ReuseKeeps(g, st, placed, pending, source, out, KReuse, st.free);
    case OverwriteInput(slot, source) =>
      InUseNotFree(g, st, placed, pending, source);
      ReuseKeeps(g, st, placed, pending, source, out, KReuse, st.free);
    case Recycle(index, source) =>
      FreeIsPlaced(g, st, placed, pending, index);
      WithoutFree(st.free, index);
      ReuseKeeps(g, st, placed, pending, source, out, KReuse, Without(st.free, index));
  }

  lemma InUseNotFree(g: Graph, st: State, placed: set<Id>, pending: seq<Id>, v: Id)
    requires Accounted(g, st, placed, pending) && v in pending && v in placed
    ensures st.use[st.buffer[v]] >= 1 && !IsFree(st.free, st.buffer[v])
  {
    var i :| 0 <= i < |pending| && pending[i] == v;
    CountAtLeastOne(st.buffer, pending, i);
  }

  lemma FreeIsPlaced(g: Graph, st: State, placed: set<Id>, pending: seq<Id>, index: nat)
    requires Accounted(g, st, placed, pending) && index < |st.free|
    ensures var r := st.free[index].value; r in placed && st.buffer[r] == r && st.use[r] == 0
  {
    var r := st.free[index].value;
    assert IsFree(st.free, r);
  }

  // ----- one node ------------------------------------------------------------------------

  ghost function PlacedAfter(placed: set<Id>, n: Node, j: nat): (s: set<Id>)
    requires j <= |n.outputs|
  {
    placed + IdSet(Existing(n.outputs[..j]))
  }

  lemma PlacedAfterNext(placed: set<Id>, n: Node, j: nat)
    requires j < |n.outputs|
    ensures PlacedAfter(placed, n, j + 1)
         == PlacedAfter(placed, n, j) + if n.outputs[j].Some? then {n.outputs[j].value} else {}
  {
    assert n.outputs[..j + 1][..j] == n.outputs[..j];
    var before, after := Existing(n.outputs[..j]), Existing(n.outputs[..j + 1]);
    if n.outputs[j].Some? {
      assert after[..|after| - 1] == before;
    } else {
      assert after == before;
    }
  }

  lemma PlacedGrows(placed: set<Id>, n: Node, i: nat, j: nat)
    requires i <= j <= |n.outputs|
    ensures PlacedAfter(placed, n, i) <= PlacedAfter(placed, n, j)
    decreases j - i
  {
    if i < j {
      PlacedAfterNext(placed, n, i);
      PlacedGrows(placed, n, i + 1, j);
    }
  }

  lemma FirstOccurrence(outputs: seq<Option<Id>>, i: nat)
    requires i < |outputs| && outputs[i].Some? && NoDuplicates(Existing(outputs))
    ensures outputs[i].value in Existing(outputs)
    ensures outputs[i].value !in Existing(outputs[..i]) && Count(Existing(outputs[..i]), outputs[i].value) == 0
  {
    ExistingMember(outputs, outputs[i].value);
    PositionHolds(outputs, i);
    ExistingPrefix(outputs, i);
    CountPositive(Existing(outputs[..i]), outputs[i].value);
  }

  /** Output `j` of node `k` has no buffer yet while the outputs before it are placed. */
  lemma OutputUnplaced(g: Graph, k: nat, j: nat)
    requires WellFormed(g) && k < |g.nodes|
    requires j < |g.nodes[k].outputs| && g.nodes[k].outputs[j].Some?
    ensures g.nodes[k].outputs[j].value in Defined(g)
    ensures g.nodes[k].outputs[j].value !in PlacedAfter(DefinedBefore(g, k), g.nodes[k], j)
  {
    var n := g.nodes[k];
    var out := n.outputs[j].value;
    assert NodeWellFormed(g, k);
    DefinedGrows(g, k + 1, |g.nodes|);
    FirstOccurrence(n.outputs, j);
    IdSetMember(Existing(n.outputs), out);
    IdSetMember(Existing(n.outputs[..j]), out);
  }

  lemma {:induction false} ExistingPrefix(args: seq<Option<nat>>, j: nat)
    requires j <= |args|
    ensures Existing(args[..j]) <= Existing(args)
    decreases |args| - j
  {
    if j < |args| {
      ExistingPrefix(args, j + 1);
      assert args[..j + 1][..j] == args[..j];
    } else {
      assert args[..j] == args;
    }
  }

  /** What the planner may assume about node `k`'s inputs. */
  lemma InputsReady(g: Graph, k: nat)
    requires WellFormed(g) && k < |g.nodes|
    ensures NodeInRange(g, g.nodes[k]) && InputsPlaced(g.nodes[k], DefinedBefore(g, k))
    ensures PendingAt(g, k) == Released(g.nodes[k]) + PendingAt(g, k + 1)
    ensures forall slot ::
      0 <= slot < |g.nodes[k].inputs| && g.nodes[k].inputs[slot].Some?
      ==> g.nodes[k].inputs[slot].value in PendingAt(g, k)
  {
    var n := g.nodes[k];
    WellFormedNode(g, k);
    assert NodeWellFormed(g, k);
    forall slot | 0 <= slot < |n.inputs| && n.inputs[slot].Some?
      ensures n.inputs[slot].value in DefinedBefore(g, k) && n.inputs[slot].value in Released(n)
    {
      ExistingMember(n.inputs, n.inputs[slot].value);
    }
  }

  lemma PlaceKeeps(g: Graph, before: State, k: nat, j: nat)
    requires WellFormed(g) && k < |g.nodes| && j < |g.nodes[k].outputs| && NodeInRange(g, g.nodes[k])
    requires Accounted(g, before, PlacedAfter(DefinedBefore(g, k), g.nodes[k], j), PendingAt(g, k))
    ensures Accounted(g, PlaceOutput(g, before, g.nodes[k], j),
                      PlacedAfter(DefinedBefore(g, k), g.nodes[k], j + 1), PendingAt(g, k))
  {
    var n, placed := g.nodes[k], PlacedAfter(DefinedBefore(g, k), g.nodes[k], j);
    PlacedAfterNext(DefinedBefore(g, k), n, j);
    if n.outputs[j].Some? {
      InputsReady(g, k);
      OutputUnplaced(g, k, j);
      OutputNumInRange(n.outputs, j);
      var out := n.outputs[j].value;
      var d := Decide(g, before, n, Position(n.outputs, j), out);
      DecideJustified(g, before, n, Position(n.outputs, j), out);
      DecisionKeeps(g, before, placed, PendingAt(g, k), n, Position(n.outputs, j), out, d);
    }
  }

  lemma OutputsKeep(g: Graph, st: State, k: nat, j: nat)
    requires WellFormed(g) && k < |g.nodes| && j <= |g.nodes[k].outputs| && NodeInRange(g, g.nodes[k])
    requires Accounted(g, st, DefinedBefore(g, k), PendingAt(g, k))
    ensures Accounted(g, AfterOutputs(g, st, g.nodes[k], j),
                      PlacedAfter(DefinedBefore(g, k), g.nodes[k], j), PendingAt(g, k))
  {
    var n, defined, pending := g.nodes[k], DefinedBefore(g, k), PendingAt(g, k);
    assert PlacedAfter(defined, n, 0) == defined;
    var Kept := (s: State, m: nat) => m <= |n.outputs| && Accounted(g, s, PlacedAfter(defined, n, m), pending);
    forall s, m | 0 <= m < j && Shaped(g, s) && Kept(s, m) ensures Kept(PlaceOutput(g, s, n, m), m + 1) {
      PlaceKeeps(g, s, k, m);
    }
    OutputsInduction(g, st, n, Kept, 0, j);
  }

  lemma {:induction false} ReleasesKeep(g: Graph, st: State, placed: set<Id>, ids: seq<Id>, rest: seq<Id>, pc: nat)
    requires Accounted(g, st, placed, ids + rest)
    requires AllIn(ids, placed)
    ensures Accounted(g, AfterReleases(g, st, ids, pc), placed, rest)
  {
    if ids == [] {
      assert ids + rest == rest;
    } else {
      var front, v := ids[..|ids| - 1], ids[|ids| - 1];
      assert ids + rest == front + ([v] + rest);
      var mid := AfterReleases(g, st, front, pc);
      ReleasesKeep(g, st, placed, front, [v] + rest, pc);
      ReleaseKeeps(g, mid, placed, v, rest, pc);
      assert AfterReleases(g, st, ids, pc) == Release(g, mid, v, pc);
    }
  }

  lemma NodeKeeps(g: Graph, st: State, k: nat)
    requires WellFormed(g) && k < |g.nodes|
    requires Accounted(g, st, DefinedBefore(g, k), PendingAt(g, k))
    requires NodeInRange(g, g.nodes[k])
    ensures Accounted(g, AfterNode(g, st, g.nodes[k], k), DefinedBefore(g, k + 1), PendingAt(g, k + 1))
  {
    var n := g.nodes[k];
    InputsReady(g, k);
    OutputsKeep(g, st, k, |n.outputs|);
    assert n.outputs[..|n.outputs|] == n.outputs;
    assert NodeWellFormed(g, k);
    IdSetAll(Existing(n.outputs));
    ReleasesKeep(g, AfterOutputs(g, st, n, |n.outputs|), DefinedBefore(g, k + 1), Released(n), PendingAt(g, k + 1), k);
  }

  // ----- the whole plan -------------------------------------------------------------------

  lemma {:induction false} CountRootConcat(buffer: seq<Id>, s: seq<Id>, t: seq<Id>, root: Id)
    requires forall i :: 0 <= i < |s| ==> s[i] < |buffer|
    requires forall i :: 0 <= i < |t| ==> t[i] < |buffer|
    ensures CountRoot(buffer, s + t, root) == CountRoot(buffer, s, root) + CountRoot(buffer, t, root)
  {
    if s == [] {
      assert s + t == t;
    } else {
      CountRootConcat(buffer, s[1..], t, root);
      assert (s + t)[1..] == s[1..] + t;
    }
  }

  lemma {:induction false} CountWhenApart(buffer: seq<Id>, pending: seq<Id>, r: Id)
    requires forall j :: 0 <= j < |pending| ==> pending[j] < |buffer| && buffer[pending[j]] == pending[j]
    ensures CountRoot(buffer, pending, r) == Count(pending, r)
  {
    if pending != [] {
      var front, last := pending[..|pending| - 1], pending[|pending| - 1];
      CountWhenApart(buffer, front, r);
      CountRootConcat(buffer, front, [last], r);
      assert pending == front + [last];
    }
  }

  lemma {:induction false} OutputsReleased(g: Graph, k: nat, v: Id)
    requires k <= |g.nodes| && v in Defined(g) && v !in DefinedBefore(g, k)
    ensures v in ReleasedFrom(g, k)
    decreases |g.nodes| - k
  {
    IdSetMember(Existing(g.nodes[k].outputs), v);
    if v !in DefinedBefore(g, k + 1) {
      OutputsReleased(g, k + 1, v);
    }
  }

  lemma DefinedArePending(g: Graph, v: Id)
    requires v in Defined(g)
    ensures v in PendingAt(g, 0)
  {
    IdSetMember(CallerOwned(g), v);
    if v in DefinedBefore(g, 0) {
      DistinctSubset(CallerOwned(g), v);
    } else {
      OutputsReleased(g, 0, v);
    }
  }

  lemma StartCount(g: Graph, st: State, r: Id)
    requires WellFormed(g) && Started(g, st) && r in Defined(g)
    ensures AllIn(PendingAt(g, 0), Defined(g)) && st.buffer[r] == r
    ensures st.use[r] == CountRoot(st.buffer, PendingAt(g, 0), r) && st.use[r] > 0
  {
    var pending := PendingAt(g, 0);
    PendingDefined(g, 0);
    CountWhenApart(st.buffer, pending, r);
    DefinedArePending(g, r);
    CountPositive(pending, r);
  }

  lemma ApartAccounted(g: Graph, st: State, placed: set<Id>, pending: seq<Id>)
    requires Shaped(g, st) && st.free == [] && placed <= Defined(g) && AllIn(pending, Defined(g))
    requires forall v :: v in Defined(g) ==> v < |g.values|
    requires forall r :: r in Defined(g) ==>
      st.buffer[r] == r && st.use[r] == CountRoot(st.buffer, pending, r) && st.use[r] > 0
    ensures Accounted(g, st, placed, pending)
  {
  }

  lemma StartAccounted(g: Graph, st: State)
    requires WellFormed(g) && Started(g, st)
    ensures Accounted(g, st, DefinedBefore(g, 0), PendingAt(g, 0))
  {
    PendingDefined(g, 0);
    DefinedGrows(g, 0, |g.nodes|);
    forall r | r in Defined(g)
      ensures st.buffer[r] == r && st.use[r] == CountRoot(st.buffer, PendingAt(g, 0), r) && st.use[r] > 0
    {
      StartCount(g, st, r);
    }
    ApartAccounted(g, st, DefinedBefore(g, 0), PendingAt(g, 0));
  }

  /** A run of the planner: the states it is in before each node and after the last. */
  ghost predicate IsRun(g: Graph, run: seq<State>)
  {
    && WellFormed(g)
    && |run| == |g.nodes| + 1
    && Started(g, run[0])
    && (forall k :: 0 <= k < |g.nodes| ==> StepAt(g, run, k))
  }

  ghost predicate StepAt(g: Graph, run: seq<State>, k: nat)
    requires k < |g.nodes| && |run| == |g.nodes| + 1
  {
    RunStep(g, run[k], run[k + 1], k)
  }

  ghost predicate RunStep(g: Graph, st: State, st': State, k: nat)
    requires k < |g.nodes|
  {
    Shaped(g, st) && NodeInRange(g, g.nodes[k]) && st' == AfterNode(g, st, g.nodes[k], k)
  }

  lemma RunStepKeeps(g: Graph, run: seq<State>, k: nat)
    requires IsRun(g, run) && k < |g.nodes|
    requires Accounted(g, run[k], DefinedBefore(g, k), PendingAt(g, k))
    ensures Accounted(g, run[k + 1], DefinedBefore(g, k + 1), PendingAt(g, k + 1))
  {
    assert StepAt(g, run, k);
    NodeKeeps(g, run[k], k);
  }

  /** The accounts balance before every step of the plan and after the last. */
  lemma {:induction false} RunAccounted(g: Graph, run: seq<State>, k: nat)
    requires IsRun(g, run) && k <= |g.nodes|
    ensures Accounted(g, run[k], DefinedBefore(g, k), PendingAt(g, k))
  {
    if k == 0 {
      StartAccounted(g, run[0]);
    } else {
      var j := k - 1;
      RunAccounted(g, run, j);
      RunStepKeeps(g, run, j);
      assert k == j + 1;
    }
  }

  lemma RunShaped(g: Graph, run: seq<State>, k: nat)
    requires IsRun(g, run) && k <= |g.nodes|
    ensures Shaped(g, run[k])
  {
    RunAccounted(g, run, k);
  }

  // ----- the counts, value by value ---------------------------------------------------------

  lemma {:induction false} ClassUsesNext(buffer: seq<Id>, pending: seq<Id>, last: Id, root: Id, n: nat)
    requires n <= |buffer| && last < |buffer|
    ensures ClassUses(buffer, pending + [last], root, n)
         == ClassUses(buffer, pending, root, n) + if last < n && buffer[last] == root then 1 else 0
  {
    if n > 0 {
      ClassUsesNext(buffer, pending, last, root, n - 1);
      assert (pending + [last])[..|pending|] == pending;
    }
  }

  lemma {:induction false} NoUses(buffer: seq<Id>, root: Id, n: nat)
    requires n <= |buffer|
    ensures ClassUses(buffer, [], root, n) == 0
  {
    if n > 0 {
      NoUses(buffer, root, n - 1);
    }
  }

  lemma {:induction false} CountIsClassSum(buffer: seq<Id>, pending: seq<Id>, root: Id)
    requires forall i :: 0 <= i < |pending| ==> pending[i] < |buffer|
    ensures CountRoot(buffer, pending, root) == ClassUses(buffer, pending, root, |buffer|)
  {
    if pending == [] {
      NoUses(buffer, root, |buffer|);
    } else {
      var front, last := pending[..|pending| - 1], pending[|pending| - 1];
      assert pending == front + [last];
      CountIsClassSum(buffer, front, root);
      CountRootConcat(buffer, front, [last], root);
      ClassUsesNext(buffer, front, last, root, |buffer|);
    }
  }

  /** Before every step a buffer's use count is the sum, over the values living in it, of
      the reads still to come, the production still to be acknowledged, and the caller's
      permanent uses; so it is never negative. */
  lemma UseCountMeaning(g: Graph, run: seq<State>, k: nat, r: Id)
    requires IsRun(g, run) && k <= |g.nodes| && r in Defined(g) && Shaped(g, run[k]) && r < |g.values|
    requires run[k].buffer[r] == r
    ensures run[k].use[r] == ClassUses(run[k].buffer, PendingAt(g, k), r, |g.values|)
  {
    RunAccounted(g, run, k);
    CountIsClassSum(run[k].buffer, PendingAt(g, k), r);
  }

  // ----- the uses, slot by slot -------------------------------------------------------------

  /** The slots that hold the value. */
  ghost function Slots(args: seq<Option<Id>>, v: Id): (s: set<int>)
  {
    set i | 0 <= i < |args| && args[i] == Some(v)
  }

  lemma {:induction false} CountIsSlots(args: seq<Option<Id>>, v: Id)
    ensures Count(Existing(args), v) == |Slots(args, v)|
  {
    if args != [] {
      var n := |args| - 1;
      CountIsSlots(args[..n], v);
      CountConcat(Existing(args[..n]), if args[n].Some? then [args[n].value] else [], v);
      assert Slots(args, v) == Slots(args[..n], v) + if args[n] == Some(v) then {n} else {};
    }
  }

  lemma {:induction false} CountIsPlaces(ids: seq<Id>, v: Id)
    ensures Count(ids, v) == |set i | 0 <= i < |ids| && ids[i] == v|
  {
    if ids != [] {
      var n := |ids| - 1;
      CountIsPlaces(ids[..n], v);
      assert (set i | 0 <= i < |ids| && ids[i] == v)
          == (set i | 0 <= i < n && ids[..n][i] == v) + if ids[n] == v then {n} else {};
    }
  }

  /** Slots of the nodes from `k` on that hold the value, as input, implicit input or output. */
  ghost function SlotsFrom(g: Graph, k: nat, v: Id): (c: nat)
    requires k <= |g.nodes|
    decreases |g.nodes| - k
  {
    if k == |g.nodes| then 0
    else
      var n := g.nodes[k];
      |Slots(n.inputs, v)| + |Slots(n.implicitInputs, v)| + |Slots(n.outputs, v)| + SlotsFrom(g, k + 1, v)
  }

  lemma {:induction false} ReleasedFromIsSlots(g: Graph, k: nat, v: Id)
    requires k <= |g.nodes|
    ensures Count(ReleasedFrom(g, k), v) == SlotsFrom(g, k, v)
    decreases |g.nodes| - k
  {
    if k < |g.nodes| {
      var n := g.nodes[k];
      ReleasedFromIsSlots(g, k + 1, v);
      CountIsSlots(n.inputs, v);
      CountIsSlots(n.implicitInputs, v);
      CountIsSlots(n.outputs, v);
      CountConcat(Existing(n.inputs), Existing(n.implicitInputs), v);
      CountConcat(Existing(n.inputs) + Existing(n.implicitInputs), Existing(n.outputs), v);
      CountConcat(Released(n), ReleasedFrom(g, k + 1), v);
    }
  }

  /** The uses a value has before node `k`: one for each slot from there on, one if the caller owns
      it, however often it is listed, and one for each time it is a graph output. */
  lemma UsesMeaning(g: Graph, k: nat, v: Id)
    requires k <= |g.nodes|
    ensures Count(PendingAt(g, k), v) == SlotsFrom(g, k, v) + (if v in CallerOwned(g) then 1 else 0)
                                       + |set i | 0 <= i < |g.outputs| && g.outputs[i] == v|
  {
    ReleasedFromIsSlots(g, k, v);
    DistinctCounts(CallerOwned(g), v);
    CountIsPlaces(g.outputs, v);
    CountConcat(Distinct(CallerOwned(g)), g.outputs, v);
    CountConcat(ReleasedFrom(g, k), Permanent(g), v);
  }
}
