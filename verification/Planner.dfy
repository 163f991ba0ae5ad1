/** The planner itself: counts, buffer indices, free list and plan updated in place, phase by
    phase, and proved to compute the functions of `PlannerState`. */
module Planner {
  import opened Prelude
  import opened PlannerGraph
  import opened PlannerState
  import opened PlannerLedger
  import opened PlannerAccounting
  import opened PlannerLiveness
  import opened PlannerSchedule
  import opened PlannerFence
  import opened PlannerKinds

  // ----- static size tests ----------------------------------------------------------------

  method CompareShapes(a: seq<Dim>, b: seq<Dim>) returns (same: bool)
    ensures same == SameShape(a, b)
  {
    if |b| != |a| {
      return false;
    }
    var i := 0;
    while i < |a|
      invariant 0 <= i <= |a| && forall j :: 0 <= j < i ==> SameDim(a[j], b[j])
    {
      if a[i].DimValue? && b[i].DimValue? && a[i].value == b[i].value {
        i := i + 1;
        continue;
      }
      if a[i].DimParam? && b[i].DimParam? && a[i].name == b[i].name && a[i].name != "" {
        i := i + 1;
        continue;
      }
      return false;
    }
    return true;
  }

  method CompareSizes(a: ValueInfo, b: ValueInfo) returns (same: bool)
    ensures same == SameSize(a, b)
  {
    if a.shape.None? || b.shape.None? {
      return false;
    }
    if a.isString || b.isString || a.elementSize != b.elementSize {
      return false;
    }
    same := CompareShapes(a.shape.value, b.shape.value);
  }

  // ----- giving back a list of uses in two goes ---------------------------------------------

  lemma {:induction false} AfterReleasesConcat(g: Graph, st: State, s: seq<Id>, t: seq<Id>, pc: nat)
    requires Shaped(g, st)
    requires forall i :: 0 <= i < |s| ==> s[i] < |g.values|
    requires forall i :: 0 <= i < |t| ==> t[i] < |g.values|
    ensures AfterReleases(g, AfterReleases(g, st, s, pc), t, pc) == AfterReleases(g, st, s + t, pc)
  {
    if t == [] {
      assert s + t == s;
    } else {
      var front, last := t[..|t| - 1], t[|t| - 1];
      AfterReleasesConcat(g, st, s, front, pc);
      assert (s + t)[..|s + t| - 1] == s + front && (s + t)[|s + t| - 1] == last;
    }
  }

  lemma AfterNodeInThreeGoes(g: Graph, st: State, n: Node, pc: nat)
    requires Shaped(g, st) && NodeInRange(g, n)
    ensures forall i :: 0 <= i < |Existing(n.inputs)| ==> Existing(n.inputs)[i] < |g.values|
    ensures forall i :: 0 <= i < |Existing(n.implicitInputs)| ==> Existing(n.implicitInputs)[i] < |g.values|
    ensures forall i :: 0 <= i < |Existing(n.outputs)| ==> Existing(n.outputs)[i] < |g.values|
    ensures AfterReleases(g, AfterReleases(g, AfterReleases(g, AfterOutputs(g, st, n, |n.outputs|),
              Existing(n.inputs), pc), Existing(n.implicitInputs), pc), Existing(n.outputs), pc)
         == AfterNode(g, st, n, pc)
  {
    ReleasedInRange(g, n.inputs);
    ReleasedInRange(g, n.implicitInputs);
    ReleasedInRange(g, n.outputs);
    var mid := AfterOutputs(g, st, n, |n.outputs|);
    AfterReleasesConcat(g, mid, Existing(n.inputs), Existing(n.implicitInputs), pc);
    AfterReleasesConcat(g, mid, Existing(n.inputs) + Existing(n.implicitInputs), Existing(n.outputs), pc);
  }

  // ----- facts about counting uses -------------------------------------------------------------

  lemma {:induction false} ReleasedBeforeDefined(g: Graph, k: nat)
    requires WellFormed(g) && k <= |g.nodes|
    ensures AllIn(ReleasedBefore(g, k), DefinedBefore(g, k))
  {
    if k > 0 {
      ReleasedBeforeDefined(g, k - 1);
      assert NodeWellFormed(g, k - 1);
      IdSetAll(Existing(g.nodes[k - 1].outputs));
    }
  }

  lemma NotIn(ids: seq<Id>, s: set<Id>, v: Id)
    requires AllIn(ids, s) && v !in s
    ensures Count(ids, v) == 0
  {
    CountPositive(ids, v);
  }

  /** Uses counted when the outputs of node `k` are about to be defined: none of theirs. */
  lemma OutputsUncounted(g: Graph, k: nat, v: Id)
    requires WellFormed(g) && k < |g.nodes| && v in Existing(g.nodes[k].outputs)
    ensures Count(Distinct(CallerOwned(g)), v) == 0 && Count(ReleasedBefore(g, k), v) == 0
    ensures Count(Existing(g.nodes[k].inputs), v) == 0 && Count(Existing(g.nodes[k].implicitInputs), v) == 0
  {
    assert NodeWellFormed(g, k);
    assert v !in DefinedBefore(g, k);
    DefinedGrows(g, 0, k);
    IdSetMember(CallerOwned(g), v);
    DistinctCounts(CallerOwned(g), v);
    ReleasedBeforeDefined(g, k);
    NotIn(ReleasedBefore(g, k), DefinedBefore(g, k), v);
    NotIn(Existing(g.nodes[k].inputs), DefinedBefore(g, k), v);
    NotIn(Existing(g.nodes[k].implicitInputs), DefinedBefore(g, k), v);
  }

  lemma CountReleased(n: Node, v: Id)
    ensures Count(Released(n), v)
      == Count(Existing(n.inputs), v) + Count(Existing(n.implicitInputs), v) + Count(Existing(n.outputs), v)
  {
    CountConcat(Existing(n.inputs), Existing(n.implicitInputs), v);
    CountConcat(Existing(n.inputs) + Existing(n.implicitInputs), Existing(n.outputs), v);
  }

  lemma CountAll(g: Graph, v: Id)
    ensures Count(PendingAt(g, 0), v)
         == Count(Distinct(CallerOwned(g)), v) + Count(ReleasedBefore(g, |g.nodes|), v) + Count(g.outputs, v)
  {
    ReleasedSplit(g, |g.nodes|);
    assert ReleasedBefore(g, |g.nodes|) + [] == ReleasedBefore(g, |g.nodes|);
    CountConcat(ReleasedFrom(g, 0), Permanent(g), v);
    CountConcat(Distinct(CallerOwned(g)), g.outputs, v);
  }

  class Planner {
    const g: Graph

    var use: seq<int>
    var buffer: seq<Id>
    var kind: seq<AllocKind>
    var reused: seq<Id>
    var free: seq<FreeBuffer>

    var toBeFreed: seq<Id>
    var freeFrom: seq<int>
    var freeTo: seq<int>
    var hasFence: seq<bool>

    // The states the planner has been in before each node planned so far, and the current one.
    ghost var run: seq<State>

    ghost function Current(): (st: State)
      reads this
    {
      State(use, buffer, kind, reused, free)
    }

    ghost function Deallocation(): (s: Schedule)
      reads this
    {
      Schedule(toBeFreed, freeFrom, freeTo)
    }

    constructor (g: Graph)
      ensures this.g == g && Shaped(g, Current()) && free == [] && toBeFreed == []
      ensures forall v :: 0 <= v < |g.values| ==> use[v] == 0 && buffer[v] == 0 && kind[v] == KAllocate
      ensures |freeFrom| == |freeTo| == |g.nodes|
      ensures forall k :: 0 <= k < |g.nodes| ==> freeFrom[k] == 1 && freeTo[k] == 0
      ensures |hasFence| == |g.nodes|
    {
      this.g := g;
      use := seq(|g.values|, _ => 0);
      buffer := seq(|g.values|, _ => 0);
      kind := seq(|g.values|, _ => KAllocate);
      reused := seq(|g.values|, _ => 0);
      free := [];
      toBeFreed := [];
      freeFrom := seq(|g.nodes|, _ => 1);
      freeTo := seq(|g.nodes|, _ => 0);
      hasFence := seq(|g.nodes|, _ => false);
      run := [];
    }

    // ----- phase 1: count uses ---------------------------------------------------------------

    /** A value comes into being: no uses yet, and its own buffer. */
    method ProcessDef(v: Id)
      requires Shaped(g, Current()) && v < |g.values|
      modifies this`use, this`buffer
      ensures use == old(use)[v := 0] && buffer == old(buffer)[v := v]
      ensures Shaped(g, Current())
    {
      use := use[v := 0];
      buffer := buffer[v := v];
    }

    /** Define values the graph does not own and hold on to each of them once. */
    method DefineOwned(ids: seq<Id>, ghost done: seq<Id>)
      requires Shaped(g, Current()) && forall i :: 0 <= i < |ids| ==> ids[i] < |g.values|
      requires forall v :: 0 <= v < |g.values| ==> use[v] == (if v in done then 1 else 0)
      requires forall v :: 0 <= v < |g.values| ==> buffer[v] == (if v in done then v else 0)
      modifies this`use, this`buffer
      ensures Shaped(g, Current())
      ensures forall v :: 0 <= v < |g.values| ==> use[v] == (if v in done + ids then 1 else 0)
      ensures forall v :: 0 <= v < |g.values| ==> buffer[v] == (if v in done + ids then v else 0)
    {
      var i := 0;
      while i < |ids|
        invariant 0 <= i <= |ids| && Shaped(g, Current())
        invariant forall v :: 0 <= v < |g.values| ==> use[v] == (if v in done + ids[..i] then 1 else 0)
        invariant forall v :: 0 <= v < |g.values| ==> buffer[v] == (if v in done + ids[..i] then v else 0)
      {
        ProcessDef(ids[i]);
        use := use[ids[i] := use[ids[i]] + 1];
        assert ids[..i + 1] == ids[..i] + [ids[i]];
        i := i + 1;
      }
      assert ids[..i] == ids;
    }

    /** One more use. */
    method AddUse(v: Id, ghost use0: seq<int>, ghost seen: seq<Id>)
      requires Shaped(g, Current()) && v < |g.values| && UsesAre(use, use0, seen)
      modifies this`use
      ensures Shaped(g, Current()) && UsesAre(use, use0, seen + [v])
    {
      UsesGrow(use, use0, seen, v);
      use := use[v := use[v] + 1];
    }

    /** Every argument that is present is one more use. */
    method AddUses(args: seq<Option<Id>>)
      requires Shaped(g, Current()) && ArgsInRange(g, args)
      modifies this`use
      ensures Shaped(g, Current()) && UsesAre(use, old(use), Existing(args))
    {
      var i := 0;
      ghost var seen, use0 := Existing(args[..i]), use;
      while i < |args|
        invariant 0 <= i <= |args| && Shaped(g, Current()) && seen == Existing(args[..i])
        invariant UsesAre(use, use0, seen)
      {
        ExistingNext(args, i);
        if args[i].Some? {
          AddUse(args[i].value, use0, seen);
          seen := seen + [args[i].value];
        }
        i := i + 1;
      }
      assert args[..i] == args;
    }

    /** Define one output, with the use of being produced. */
    method DefineOutput(v: Id, ghost use0: seq<int>, ghost buffer0: seq<Id>, ghost seen: seq<Id>)
      requires Shaped(g, Current()) && v < |g.values| == |use0| && use0[v] == 0 && Count(seen, v) == 0
      requires UsesAre(use, use0, seen) && BuffersAre(buffer, buffer0, seen)
      modifies this`use, this`buffer
      ensures Shaped(g, Current())
      ensures UsesAre(use, use0, seen + [v]) && BuffersAre(buffer, buffer0, seen + [v])
    {
      NotCounted(use, use0, seen, v);
      UsesGrow(use, use0, seen, v);
      BuffersGrow(buffer, buffer0, seen, v);
      ProcessDef(v);
      use := use[v := use[v] + 1];
    }

    /** Define the outputs that are present, each with the use of being produced. */
    method DefineOutputs(outputs: seq<Option<Id>>)
      requires Shaped(g, Current()) && ArgsInRange(g, outputs) && NoDuplicates(Existing(outputs))
      requires forall v :: 0 <= v < |g.values| && v in Existing(outputs) ==> use[v] == 0
      modifies this`use, this`buffer
      ensures Shaped(g, Current())
      ensures UsesAre(use, old(use), Existing(outputs)) && BuffersAre(buffer, old(buffer), Existing(outputs))
    {
      var i := 0;
      ghost var seen, use0, buffer0 := Existing(outputs[..i]), use, buffer;
      while i < |outputs|
        invariant 0 <= i <= |outputs| && Shaped(g, Current()) && seen == Existing(outputs[..i])
        invariant UsesAre(use, use0, seen)
        invariant BuffersAre(buffer, buffer0, seen)
      {
        ExistingNext(outputs, i);
        if outputs[i].Some? {
          FirstOccurrence(outputs, i);
          DefineOutput(outputs[i].value, use0, buffer0, seen);
          seen := seen + [outputs[i].value];
        }
        i := i + 1;
      }
      assert outputs[..i] == outputs;
    }

    /** Everything node `k` uses and defines. */
    method CountNode(k: nat)
      requires WellFormed(g) && k < |g.nodes| && Shaped(g, Current()) && CountedTo(g, use, buffer, k)
      modifies this`use, this`buffer
      ensures Shaped(g, Current()) && CountedTo(g, use, buffer, k + 1)
    {
      var n := g.nodes[k];
      WellFormedNode(g, k);
      assert NodeWellFormed(g, k);
      ghost var use0, buffer0 := use, buffer;
      AddUses(n.inputs);
      ghost var use1 := use;
      AddUses(n.implicitInputs);
      ghost var use2 := use;
      forall v | 0 <= v < |g.values| && v in Existing(n.outputs) ensures use[v] == 0 {
        OutputsUncounted(g, k, v);
      }
      DefineOutputs(n.outputs);
      CountedNext(g, [use0, use1, use2, use], buffer0, buffer, k);
    }

    /** Graph inputs, outer-scope values and initializers. */
    method DefineCallerOwned()
      requires WellFormed(g) && Shaped(g, Current())
      requires forall v :: 0 <= v < |g.values| ==> use[v] == 0 && buffer[v] == 0
      modifies this`use, this`buffer
      ensures Shaped(g, Current()) && CountedTo(g, use, buffer, 0)
    {
      OwnedInRange(g);
      DefineOwned(g.inputs, []);
      DefineOwned(g.outerScope, [] + g.inputs);
      DefineOwned(g.initializers, [] + g.inputs + g.outerScope);
      forall v | 0 <= v < |g.values|
        ensures v in [] + g.inputs + g.outerScope + g.initializers <==> v in DefinedBefore(g, 0)
        ensures Count(Distinct(CallerOwned(g)), v) == if v in DefinedBefore(g, 0) then 1 else 0
      {
        assert [] + g.inputs + g.outerScope + g.initializers == CallerOwned(g);
        IdSetMember(CallerOwned(g), v);
        DistinctCounts(CallerOwned(g), v);
      }
    }

    /** Fails on the first node without a kernel or an execution provider. */
    method CountNodes() returns (ok: bool)
      requires WellFormed(g) && Shaped(g, Current()) && CountedTo(g, use, buffer, 0)
      modifies this`use, this`buffer
      ensures ok <==> Assigned(g, |g.nodes|)
      ensures Shaped(g, Current()) && (ok ==> CountedTo(g, use, buffer, |g.nodes|))
    {
      var k := 0;
      while k < |g.nodes|
        invariant 0 <= k <= |g.nodes| && Assigned(g, k)
        invariant Shaped(g, Current()) && CountedTo(g, use, buffer, k)
      {
        if g.nodes[k].kernel.None? {
          return false;
        }
        if !g.nodes[k].hasProvider {
          return false;
        }
        CountNode(k);
        k := k + 1;
      }
      return true;
    }

    /** Fails if some node has no kernel or no execution provider; otherwise every value's count is
        the number of all its uses. */
    method ComputeUseCounts() returns (ok: bool)
      requires WellFormed(g) && Shaped(g, Current())
      requires forall v :: 0 <= v < |g.values| ==> use[v] == 0 && buffer[v] == 0
      modifies this`use, this`buffer
      ensures ok <==> Assigned(g, |g.nodes|)
      ensures ok ==> Shaped(g, Current())
      ensures ok ==> forall v :: 0 <= v < |g.values| ==> use[v] == Count(PendingAt(g, 0), v)
      ensures ok ==> forall v :: 0 <= v < |g.values| ==> buffer[v] == (if v in Defined(g) then v else 0)
    {
      DefineCallerOwned();
      ok := CountNodes();
      if ok {
        CountOutputs();
      }
    }

    /** The caller's use of the graph outputs. */
    method CountOutputs()
      requires WellFormed(g) && Shaped(g, Current()) && CountedTo(g, use, buffer, |g.nodes|)
      modifies this`use
      ensures Shaped(g, Current())
      ensures forall v :: 0 <= v < |g.values| ==> use[v] == Count(PendingAt(g, 0), v)
    {
      var i := 0;
      while i < |g.outputs|
        invariant 0 <= i <= |g.outputs| && Shaped(g, Current())
        invariant UsesAre(use, old(use), g.outputs[..i])
      {
        AddUse(g.outputs[i], old(use), g.outputs[..i]);
        assert g.outputs[..i + 1] == g.outputs[..i] + [g.outputs[i]];
        i := i + 1;
      }
      assert g.outputs[..i] == g.outputs;
      forall v | 0 <= v < |g.values| ensures use[v] == Count(PendingAt(g, 0), v) {
        CountAll(g, v);
      }
    }

    // ----- phase 2: decide reuse ----------------------------------------------------------------

    /** The caller's values exist already; initializers that are read are allocated once. */
    method SetInitialKinds()
      requires WellFormed(g) && Shaped(g, Current())
      requires forall v :: 0 <= v < |g.values| ==> kind[v] == KAllocate
      modifies this`kind
      ensures Shaped(g, Current())
      ensures forall v :: 0 <= v < |g.values| ==> kind[v] == InitialKind(g, v)
    {
      OwnedInRange(g);
      var i := 0;
      while i < |g.inputs|
        invariant 0 <= i <= |g.inputs| && Shaped(g, Current())
        invariant forall v :: 0 <= v < |g.values| ==> kind[v] == if v in g.inputs[..i] then KPreExisting else KAllocate
      {
        kind := kind[g.inputs[i] := KPreExisting];
        assert g.inputs[..i + 1] == g.inputs[..i] + [g.inputs[i]];
        i := i + 1;
      }
      assert g.inputs[..i] == g.inputs;
      i := 0;
      while i < |g.outerScope|
        invariant 0 <= i <= |g.outerScope| && Shaped(g, Current())
        invariant forall v :: 0 <= v < |g.values| ==>
          kind[v] == if v in g.inputs || v in g.outerScope[..i] then KPreExisting else KAllocate
      {
        kind := kind[g.outerScope[i] := KPreExisting];
        assert g.outerScope[..i + 1] == g.outerScope[..i] + [g.outerScope[i]];
        i := i + 1;
      }
      assert g.outerScope[..i] == g.outerScope;
      var k := 0;
      while k < |g.nodes|
        invariant 0 <= k <= |g.nodes| && Shaped(g, Current())
        invariant forall v :: 0 <= v < |g.values| ==> kind[v] == KindAfter(g, v, k)
      {
        MarkWeights(k);
        k := k + 1;
      }
    }

    /** Initializers that node `k` reads. */
    method MarkWeights(k: nat)
      requires WellFormed(g) && Shaped(g, Current()) && k < |g.nodes|
      requires forall v :: 0 <= v < |g.values| ==> kind[v] == KindAfter(g, v, k)
      modifies this`kind
      ensures Shaped(g, Current())
      ensures forall v :: 0 <= v < |g.values| ==> kind[v] == KindAfter(g, v, k + 1)
    {
      var inputs := g.nodes[k].inputs;
      WellFormedNode(g, k);
      var i := 0;
      while i < |inputs|
        invariant 0 <= i <= |inputs| && Shaped(g, Current())
        invariant forall v :: 0 <= v < |g.values| ==>
          kind[v] == if v in g.initializers && Some(v) in inputs[..i] then KAllocateStatically else old(kind[v])
      {
        if inputs[i].Some? && inputs[i].value in g.initializers {
          kind := kind[inputs[i].value := KAllocateStatically];
        }
        assert inputs[..i + 1] == inputs[..i] + [inputs[i]];
        i := i + 1;
      }
      assert inputs[..i] == inputs;
    }

    /** `out` shares the buffer of `source`.  The two are never the same value. */
    method Reuse(source: Id, out: Id, newKind: AllocKind)
      requires Shaped(g, Current()) && source < |g.values| && out < |g.values|
      requires source != out
      modifies this`use, this`buffer, this`kind, this`reused
      ensures Current() == PlannerState.Reuse(g, old(Current()), source, out, newKind)
    {
      var original := buffer[source];
      buffer := buffer[out := original];
      use := use[original := use[original] + use[out]];
      kind := kind[out := newKind];
      reused := reused[out := original];
    }

    /** An input of the node whose buffer this output must or may take. */
    method FindReusableInput(n: Node, outputNum: nat) returns (r: Option<Decision>)
      requires Shaped(g, Current()) && NodeInRange(g, n) && outputNum < |n.outputs|
      ensures r == ReusableInput(g, Current(), n, outputNum)
    {
      if n.kernel.None? {
        return None;
      }
      var alias := n.kernel.value.alias;
      var i := 0;
      while i < |alias|
        invariant 0 <= i <= |alias| &&
          FindAlias(alias, n.inputs, outputNum) == FindAlias(alias[i..], n.inputs, outputNum)
      {
        var (first, second) := alias[i];
        if second == outputNum && 0 <= first < |n.inputs| && n.inputs[first].Some? {
          return Some(AliasInput(first, n.inputs[first].value));
        }
        assert alias[i..][1..] == alias[i + 1..];
        i := i + 1;
      }
      var inplace := n.kernel.value.mayInplace;
      i := 0;
      while i < |inplace|
        invariant 0 <= i <= |inplace|
        invariant FindInplace(g, Current(), n, inplace, outputNum)
          == FindInplace(g, Current(), n, inplace[i..], outputNum)
      {
        var (first, second) := inplace[i];
        if second == outputNum && 0 <= first < |n.inputs| && n.inputs[first].Some? {
          var original := buffer[n.inputs[first].value];
          if use[original] == 1 && n.outputs[outputNum].Some? {
            var same := CompareSizes(g.values[n.inputs[first].value], g.values[n.outputs[outputNum].value]);
            if same {
              return Some(OverwriteInput(first, n.inputs[first].value));
            }
          }
        }
        assert inplace[i..][1..] == inplace[i + 1..];
        i := i + 1;
      }
      return None;
    }

    /** Where on the free list the first buffer that fits is. */
    method SearchFree(out: Id) returns (r: Option<nat>)
      requires Shaped(g, Current()) && out < |g.values|
      ensures r == FindFree(g, free, g.values[out])
    {
      var required, list := g.values[out], free;
      var i := 0;
      while i < |list|
        invariant 0 <= i <= |list|
        invariant var rest := FindFree(g, list[i..], required);
          FindFree(g, list, required) == if rest.None? then None else Some(rest.value + i)
      {
        if g.values[list[i].value].location == required.location {
          var same := CompareSizes(g.values[list[i].value], required);
          if same {
            return Some(i);
          }
        }
        assert list[i..][1..] == list[i + 1..];
        i := i + 1;
      }
      return None;
    }

    /** Take the most recently freed buffer that fits off the free list. */
    method FindReusableTensor(out: Id) returns (r: Option<Decision>)
      requires Shaped(g, Current()) && out < |g.values|
      modifies this`free
      ensures r == ReusableTensor(g, old(Current()), out)
      ensures r.None? ==> free == old(free)
      ensures r.Some? ==> r.value.Recycle? && r.value.index < |old(free)| && free == Without(old(free), r.value.index)
    {
      if g.values[out].shape.None? || g.values[out].fence {
        return None;
      }
      var found := SearchFree(out);
      if found.None? {
        return None;
      }
      FindFreeFinds(g, free, g.values[out]);
      r := Some(Recycle(found.value, free[found.value].value));
      free := Without(free, found.value);
    }

    /** Find a place for a tensor that is not a graph output. */
    method PlaceTensor(n: Node, outputNum: nat, out: Id)
      requires Shaped(g, Current()) && NodeInRange(g, n) && outputNum < |n.outputs| && out < |g.values|
      requires Some(out) !in n.inputs && forall i :: 0 <= i < |free| ==> free[i].value != out
      modifies this`use, this`buffer, this`kind, this`reused, this`free
      ensures DecisionInRange(g, old(Current()), FindReusable(g, old(Current()), n, outputNum, out))
      ensures Current() == Apply(g, old(Current()), out, FindReusable(g, old(Current()), n, outputNum, out))
    {
      var input := FindReusableInput(n, outputNum);
      if input.Some? {
        if n.kernel.Some? {
          FindAliasFinds(n.kernel.value.alias, n.inputs, outputNum);
          FindInplaceFinds(g, Current(), n, n.kernel.value.mayInplace, outputNum);
        }
        Reuse(input.value.source, out, KReuse);
        return;
      }
      var tensor := None;
      if !g.parallel {
        FindFreeFinds(g, free, g.values[out]);
        tensor := FindReusableTensor(out);
      }
      if tensor.Some? {
        Reuse(tensor.value.source, out, KReuse);
      } else {
        kind := kind[out := KAllocate];
      }
    }

    /** Find a place for one output. */
    method PlaceValue(n: Node, outputNum: nat, out: Id)
      requires Shaped(g, Current()) && NodeInRange(g, n) && outputNum < |n.outputs| && out < |g.values|
      requires Some(out) !in n.inputs && forall i :: 0 <= i < |free| ==> free[i].value != out
      modifies this`use, this`buffer, this`kind, this`reused, this`free
      ensures DecisionInRange(g, old(Current()), Decide(g, old(Current()), n, outputNum, out))
      ensures Current() == Apply(g, old(Current()), out, Decide(g, old(Current()), n, outputNum, out))
    {
      if out in g.outputs {
        kind := kind[out := KAllocateOutput];
        if g.insideLoop && n.isIdentity && kind[n.inputs[0].value] == KPreExisting {
          Reuse(n.inputs[0].value, out, KShare);
        }
      } else if !g.values[out].isTensor {
        kind := kind[out := KAllocate];
      } else {
        PlaceTensor(n, outputNum, out);
      }
    }

    /** Find a place for output `j` of node `k`, if it is present. */
    method PlaceOne(k: nat, j: nat)
      requires WellFormed(g) && k < |g.nodes| && j < |g.nodes[k].outputs| && NodeInRange(g, g.nodes[k])
      requires Accounted(g, Current(), PlacedAfter(DefinedBefore(g, k), g.nodes[k], j), PendingAt(g, k))
      modifies this`use, this`buffer, this`kind, this`reused, this`free
      ensures Current() == PlaceOutput(g, old(Current()), g.nodes[k], j)
    {
      var n := g.nodes[k];
      if n.outputs[j].Some? {
        OutputNumInRange(n.outputs, j);
        NothingToSelf(g, Current(), k, j);
        PlaceValue(n, |Existing(n.outputs[..j])|, n.outputs[j].value);
      }
    }

    /** Find a place for each output of node `k`. */
    method PlaceAll(k: nat)
      requires WellFormed(g) && k < |g.nodes| && NodeInRange(g, g.nodes[k])
      requires Accounted(g, Current(), DefinedBefore(g, k), PendingAt(g, k))
      modifies this`use, this`buffer, this`kind, this`reused, this`free
      ensures Current() == AfterOutputs(g, old(Current()), g.nodes[k], |g.nodes[k].outputs|)
    {
      var j := 0;
      while j < |g.nodes[k].outputs|
        invariant 0 <= j <= |g.nodes[k].outputs|
        invariant Current() == AfterOutputs(g, old(Current()), g.nodes[k], j)
      {
        OutputsKeep(g, old(Current()), k, j);
        PlaceOne(k, j);
        j := j + 1;
      }
    }

    /** Step `pc` is done with one use of `v`. */
    method GiveBackOne(v: Id, pc: nat)
      requires Shaped(g, Current()) && v < |g.values|
      modifies this`use, this`free
      ensures Current() == Release(g, old(Current()), v, pc)
    {
      var original := buffer[v];
      use := use[original := use[original] - 1];
      if use[original] == 0 {
        free := [FreeBuffer(original, pc)] + free;
      }
    }

    /** Step `pc` is done with these arguments. */
    method GiveBack(args: seq<Option<Id>>, pc: nat)
      requires Shaped(g, Current()) && ArgsInRange(g, args)
      modifies this`use, this`free
      ensures forall i :: 0 <= i < |Existing(args)| ==> Existing(args)[i] < |g.values|
      ensures Current() == AfterReleases(g, old(Current()), Existing(args), pc)
    {
      ReleasedInRange(g, args);
      var i := 0;
      while i < |args|
        invariant 0 <= i <= |args| && Existing(args[..i]) <= Existing(args)
        invariant Current() == AfterReleases(g, old(Current()), Existing(args[..i]), pc)
      {
        assert args[..i + 1][..i] == args[..i];
        ExistingPrefix(args, i + 1);
        if args[i].Some? {
          GiveBackOne(args[i].value, pc);
          var next := Existing(args[..i + 1]);
          assert next[..|next| - 1] == Existing(args[..i]);
        } else {
          assert Existing(args[..i + 1]) == Existing(args[..i]);
        }
        i := i + 1;
      }
      assert args[..i] == args;
    }

    /** Place the outputs of node `pc`, then give back the uses it is done with. */
    method PlanNode(pc: nat)
      requires WellFormed(g) && pc < |g.nodes|
      requires Accounted(g, Current(), DefinedBefore(g, pc), PendingAt(g, pc))
      modifies this`use, this`buffer, this`kind, this`reused, this`free
      ensures RunStep(g, old(Current()), Current(), pc)
    {
      var n := g.nodes[pc];
      WellFormedNode(g, pc);
      AfterNodeInThreeGoes(g, Current(), n, pc);
      PlaceAll(pc);
      GiveBack(n.inputs, pc);
      GiveBack(n.implicitInputs, pc);
      GiveBack(n.outputs, pc);
    }

    /** Plan every node in order. */
    method ComputeReusePlan()
      requires WellFormed(g) && Shaped(g, Current()) && free == []
      requires forall v :: 0 <= v < |g.values| ==> use[v] == Count(PendingAt(g, 0), v)
      requires forall v :: 0 <= v < |g.values| ==> buffer[v] == if v in Defined(g) then v else 0
      requires forall v :: 0 <= v < |g.values| ==> kind[v] == KAllocate
      modifies this`use, this`buffer, this`kind, this`reused, this`free, this`run
      ensures IsRun(g, run) && Current() == run[|g.nodes|]
    {
      SetInitialKinds();
      run := [Current()];
      StartAccounted(g, Current());
      var pc := 0;
      while pc < |g.nodes|
        invariant 0 <= pc <= |g.nodes| && RunTo(g, run, pc) && Current() == run[pc]
        invariant Accounted(g, Current(), DefinedBefore(g, pc), PendingAt(g, pc))
      {
        ghost var st := Current();
        PlanNode(pc);
        ExtendRun(g, run, st, Current(), pc);
        run := run + [Current()];
        pc := pc + 1;
      }
      RunToEnd(g, run);
    }

    // ----- phase 3: fences ----------------------------------------------------------------------------

    /** Whether an argument needs a fence, itself or by the buffer it reuses. */
    method HasFence(arg: Option<Id>) returns (fence: bool)
      requires Shaped(g, Current()) && (arg.Some? ==> arg.value < |g.values|)
      ensures fence <==> arg.Some? && ValueHasFence(g, Current(), arg.value)
    {
      fence := false;
      if arg.Some? {
        fence := g.values[arg.value].fence;
        if kind[arg.value] == KReuse && reused[arg.value] < |g.values| {
          fence := fence || g.values[reused[arg.value]].fence;
        }
      }
    }

    /** The loop over one list of arguments. */
    method AnyFence(args: seq<Option<Id>>) returns (fence: bool)
      requires Shaped(g, Current()) && ArgsInRange(g, args)
      ensures fence <==> SomeHasFence(g, Current(), Existing(args))
    {
      fence := false;
      var i := 0;
      ghost var seen := Existing(args[..i]);
      while i < |args|
        invariant 0 <= i <= |args| && seen == Existing(args[..i])
        invariant fence <==> SomeHasFence(g, Current(), seen)
      {
        ExistingNext(args, i);
        var one := HasFence(args[i]);
        if args[i].Some? {
          SomeFenceNext(g, Current(), seen, args[i].value);
          seen := seen + [args[i].value];
        }
        fence := fence || one;
        i := i + 1;
      }
      assert args[..i] == args;
    }

    /** Marks every node that touches a value with a fence. */
    method ComputeFenceCheck()
      requires WellFormed(g) && Shaped(g, Current()) && |hasFence| == |g.nodes|
      modifies this`hasFence
      ensures FencesMarked(g, Current(), hasFence, |g.nodes|)
    {
      var k := 0;
      while k < |g.nodes|
        invariant 0 <= k <= |g.nodes| && FencesMarked(g, Current(), hasFence, k)
      {
        var n := g.nodes[k];
        WellFormedNode(g, k);
        var ins := AnyFence(n.inputs);
        var implicits := AnyFence(n.implicitInputs);
        var outs := AnyFence(n.outputs);
        SomeFenceConcat(g, Current(), Existing(n.inputs), Existing(n.implicitInputs));
        SomeFenceConcat(g, Current(), Existing(n.inputs) + Existing(n.implicitInputs), Existing(n.outputs));
        hasFence := hasFence[k := ins || implicits || outs];
        k := k + 1;
      }
    }

    // ----- phase 4: schedule deallocations --------------------------------------------------------

    /** Release each dead buffer after the step it died at. */
    method GenerateDeallocationPlan()
      requires MostRecentFirst(free) && PointsBelow(free, |g.nodes|)
      requires toBeFreed == [] && |freeFrom| == |freeTo| == |g.nodes|
      requires forall k :: 0 <= k < |g.nodes| ==> freeFrom[k] == 1 && freeTo[k] == 0
      modifies this`toBeFreed, this`freeFrom, this`freeTo
      ensures Schedules(free, |g.nodes|, Deallocation())
    {
      var list, steps := free, |g.nodes|;
      var freed, from, to := [], freeFrom, freeTo;
      var hasPrev, prev := false, 0;
      var current := 0;
      while current < |list|
        invariant 0 <= current <= |list| && |freed| == current && |from| == |to| == steps
        invariant forall i :: 0 <= i < current ==> freed[i] == EntryAt(list, i).value && EntryAt(list, i).point <= prev
        invariant if hasPrev then 0 < prev < steps && current > 0 else prev == 0
        invariant current > 0 ==> EntryAt(list, current - 1).point == prev
        invariant forall step :: 0 <= step < steps && !(hasPrev && step == prev) ==>
          RangeOf(list, current, step, from[step], to[step])
        invariant hasPrev ==> from[prev] <= current && RangeOf(list, current, prev, from[prev], current - 1)
        invariant forall step :: prev < step < steps ==> from[step] == 1 && to[step] == 0
      {
        var entry := list[|list| - 1 - current];
        assert entry == EntryAt(list, current);
        assert current > 0 ==> EntryAt(list, current - 1).point <= entry.point;
        freed := freed + [entry.value];
        if entry.point != prev {
          if hasPrev {
            to := to[prev := current - 1];
          }
          prev := entry.point;
          hasPrev := true;
          from := from[prev := current];
          RangeStarted(list, current, prev);
        } else if hasPrev {
          RangeExtended(list, current, prev, from[prev]);
        }
        forall step | 0 <= step < steps && !(hasPrev && step == prev)
          ensures RangeOf(list, current + 1, step, from[step], to[step])
        {
          RangeUntouched(list, current, step, from[step], to[step]);
        }
        current := current + 1;
      }
      if hasPrev {
        to := to[prev := current - 1];
      }
      toBeFreed, freeFrom, freeTo := freed, from, to;
    }

    // ----- all phases ---------------------------------------------------------------------------------

    /** The whole plan.  Planning fails only if a node has no kernel or no execution provider. */
    method CreatePlan() returns (ok: bool)
      requires WellFormed(g) && Shaped(g, Current()) && free == [] && toBeFreed == []
      requires forall v :: 0 <= v < |g.values| ==> use[v] == 0 && buffer[v] == 0 && kind[v] == KAllocate
      requires |freeFrom| == |freeTo| == |g.nodes|
      requires forall k :: 0 <= k < |g.nodes| ==> freeFrom[k] == 1 && freeTo[k] == 0
      requires |hasFence| == |g.nodes|
      modifies this
      ensures ok <==> Assigned(g, |g.nodes|)
      ensures ok ==> IsRun(g, run) && Current() == run[|g.nodes|]
      ensures ok ==> Schedules(free, |g.nodes|, Deallocation())
      ensures ok ==> FencesMarked(g, Current(), hasFence, |g.nodes|)
      ensures ok ==> KindsSettled(g, buffer, kind, Defined(g))
    {
      ok := ComputeUseCounts();
      if !ok {
        return;
      }
      ComputeReusePlan();
      RunShaped(g, run, |g.nodes|);
      ComputeFenceCheck();
      FreePoints(g, run);
      RunSettles(g, run, |g.nodes|);
      GenerateDeallocationPlan();
    }
  }

  /** A run as far as node `k`. */
  ghost predicate RunTo(g: Graph, run: seq<State>, k: nat)
  {
    && k <= |g.nodes| && |run| == k + 1 && Started(g, run[0])
    && (forall i {:trigger StepTo(g, run, i)} :: 0 <= i < k ==> StepTo(g, run, i))
  }

  ghost predicate StepTo(g: Graph, run: seq<State>, i: nat)
  {
    i + 1 < |run| && i < |g.nodes| && RunStep(g, run[i], run[i + 1], i)
  }

  lemma ExtendRun(g: Graph, run: seq<State>, st: State, st': State, k: nat)
    requires WellFormed(g) && k < |g.nodes| && RunTo(g, run, k) && st == run[k] && RunStep(g, st, st', k)
    requires Accounted(g, st, DefinedBefore(g, k), PendingAt(g, k))
    ensures RunTo(g, run + [st'], k + 1)
    ensures Accounted(g, st', DefinedBefore(g, k + 1), PendingAt(g, k + 1))
  {
    NodeKeeps(g, st, k);
    forall i | 0 <= i < k + 1 ensures StepTo(g, run + [st'], i) {
      if i < k {
        assert StepTo(g, run, i);
      }
    }
  }

  lemma RunToEnd(g: Graph, run: seq<State>)
    requires WellFormed(g) && RunTo(g, run, |g.nodes|)
    ensures IsRun(g, run)
  {
    forall k | 0 <= k < |g.nodes| ensures StepAt(g, run, k) {
      assert StepTo(g, run, k);
    }
  }

  /** An output is neither an input of its node nor in a buffer on the free list. */
  lemma NothingToSelf(g: Graph, st: State, k: nat, j: nat)
    requires WellFormed(g) && k < |g.nodes| && j < |g.nodes[k].outputs| && g.nodes[k].outputs[j].Some?
    requires Accounted(g, st, PlacedAfter(DefinedBefore(g, k), g.nodes[k], j), PendingAt(g, k))
    ensures Some(g.nodes[k].outputs[j].value) !in g.nodes[k].inputs
    ensures forall i :: 0 <= i < |st.free| ==> st.free[i].value != g.nodes[k].outputs[j].value
  {
    var n, placed := g.nodes[k], PlacedAfter(DefinedBefore(g, k), g.nodes[k], j);
    OutputUnplaced(g, k, j);
    InputsReady(g, k);
    forall i | 0 <= i < |st.free| ensures st.free[i].value in placed {
      FreeIsPlaced(g, st, placed, PendingAt(g, k), i);
    }
    forall slot | 0 <= slot < |n.inputs| && n.inputs[slot].Some? ensures n.inputs[slot].value in placed {}
  }

  lemma OwnedInRange(g: Graph)
    requires WellFormed(g)
    ensures forall i :: 0 <= i < |g.inputs| ==> g.inputs[i] < |g.values|
    ensures forall i :: 0 <= i < |g.outerScope| ==> g.outerScope[i] < |g.values|
    ensures forall i :: 0 <= i < |g.initializers| ==> g.initializers[i] < |g.values|
  {
    DefinedGrows(g, 0, |g.nodes|);
    forall v | v in CallerOwned(g) ensures v < |g.values| {
      IdSetMember(CallerOwned(g), v);
    }
    forall i | 0 <= i < |g.inputs| ensures g.inputs[i] in CallerOwned(g) {}
    forall i | 0 <= i < |g.outerScope| ensures g.outerScope[i] in CallerOwned(g) {}
    forall i | 0 <= i < |g.initializers| ensures g.initializers[i] in CallerOwned(g) {}
  }

  ghost predicate ReadBefore(g: Graph, v: Id, k: nat)
    requires k <= |g.nodes|
  {
    exists i :: 0 <= i < k && Some(v) in g.nodes[i].inputs
  }

  /** The kind of `v` once the first `k` nodes have been searched for initializers. */
  ghost function KindAfter(g: Graph, v: Id, k: nat): (kind: AllocKind)
    requires k <= |g.nodes|
  {
    if v in g.initializers && ReadBefore(g, v, k) then KAllocateStatically
    else if v in g.inputs || v in g.outerScope then KPreExisting
    else KAllocate
  }

  lemma ExistingNext(args: seq<Option<Id>>, i: nat)
    requires i < |args|
    ensures Existing(args[..i + 1])
      == if args[i].Some? then Existing(args[..i]) + [args[i].value] else Existing(args[..i])
  {
    assert args[..i + 1][..i] == args[..i];
  }

  lemma CountedNext(g: Graph, uses: seq<seq<int>>, buffer: seq<Id>, buffer': seq<Id>, k: nat)
    requires k < |g.nodes| && |uses| == 4 && |uses[0]| == |uses[3]| == |buffer| == |buffer'| == |g.values|
    requires CountedTo(g, uses[0], buffer, k)
    requires UsesAre(uses[1], uses[0], Existing(g.nodes[k].inputs))
    requires UsesAre(uses[2], uses[1], Existing(g.nodes[k].implicitInputs))
    requires UsesAre(uses[3], uses[2], Existing(g.nodes[k].outputs))
    requires BuffersAre(buffer', buffer, Existing(g.nodes[k].outputs))
    ensures CountedTo(g, uses[3], buffer', k + 1)
  {
    var use' := uses[3];
    var n := g.nodes[k];
    forall v | 0 <= v < |g.values|
      ensures use'[v] == Count(Distinct(CallerOwned(g)), v) + Count(ReleasedBefore(g, k + 1), v)
      ensures buffer'[v] == if v in DefinedBefore(g, k + 1) then v else 0
    {
      CountConcat(ReleasedBefore(g, k), Released(n), v);
      CountReleased(n, v);
      IdSetMember(Existing(n.outputs), v);
    }
  }

  lemma UsesGrow(use: seq<int>, base: seq<int>, seen: seq<Id>, x: Id)
    requires UsesAre(use, base, seen) && x < |use|
    ensures UsesAre(use[x := use[x] + 1], base, seen + [x])
  {
    assert (seen + [x])[..|seen|] == seen;
  }

  lemma BuffersGrow(buffer: seq<Id>, base: seq<Id>, seen: seq<Id>, x: Id)
    requires BuffersAre(buffer, base, seen) && x < |buffer|
    ensures BuffersAre(buffer[x := x], base, seen + [x])
  {
  }

  lemma NotCounted(use: seq<int>, base: seq<int>, seen: seq<Id>, x: Id)
    requires UsesAre(use, base, seen) && x < |use| && Count(seen, x) == 0 && base[x] == 0
    ensures use[x := 0] == use
  {
  }
}
