/** Values that share a buffer have the same size, whatever the symbolic dimensions turn out
    to be. */
module PlannerSizes {
  import opened Prelude
  import opened PlannerGraph
  import opened PlannerState
  import opened PlannerRules
  import opened PlannerLedger
  import opened PlannerAccounting
  import opened PlannerLiveness
  import opened Executor
  import opened PlannerExecution

  /** A dimension under a valuation of the symbolic ones. */
  function DimSize(d: Dim, valuation: string -> int): (n: int)
  {
    if d.DimValue? then d.value else if d.DimParam? then valuation(d.name) else 0
  }

  /** Number of elements under a valuation of the symbolic dimensions. */
  function Elements(shape: seq<Dim>, valuation: string -> int): (n: int)
  {
    if shape == [] then 1 else DimSize(shape[0], valuation) * Elements(shape[1..], valuation)
  }

  ghost predicate FullyNamed(shape: seq<Dim>)
  {
    forall i :: 0 <= i < |shape| ==> !shape[i].AnyDim?
  }

  /** `bytes` are the sizes of the values in one run of the model: where the shape is known
      they follow from it. */
  ghost predicate Sizing(g: Graph, valuation: string -> int, bytes: seq<int>)
  {
    && |bytes| == |g.values|
    && (forall v :: 0 <= v < |bytes| && g.values[v].shape.Some? && FullyNamed(g.values[v].shape.value) ==>
          bytes[v] == g.values[v].elementSize * Elements(g.values[v].shape.value, valuation))
  }

  /** Aliased outputs, and the output of an Identity, are as large as their source. */
  ghost predicate AliasesKeepSize(g: Graph, bytes: seq<int>)
  {
    |bytes| == |g.values| && forall k :: 0 <= k < |g.nodes| ==> NodeKeepsSize(g.nodes[k], bytes)
  }

  ghost predicate NodeKeepsSize(n: Node, bytes: seq<int>)
  {
    forall slot, j {:trigger n.inputs[slot], n.outputs[j]} ::
      && 0 <= slot < |n.inputs| && n.inputs[slot].Some? && n.inputs[slot].value < |bytes|
      && 0 <= j < |n.outputs| && n.outputs[j].Some? && n.outputs[j].value < |bytes|
      && ((n.isIdentity && slot == 0) || Aliased(n, Position(n.outputs, j), slot))
      ==> bytes[n.inputs[slot].value] == bytes[n.outputs[j].value]
  }

  lemma {:induction false} SameShapeSameElements(a: seq<Dim>, b: seq<Dim>, valuation: string -> int)
    requires SameShape(a, b)
    ensures FullyNamed(a) && FullyNamed(b) && Elements(a, valuation) == Elements(b, valuation)
  {
    if a != [] {
      assert SameDim(a[0], b[0]);
      forall i | 0 <= i < |a[1..]| ensures SameDim(a[1..][i], b[1..][i]) {
        assert SameDim(a[i + 1], b[i + 1]);
      }
      SameShapeSameElements(a[1..], b[1..], valuation);
      forall i | 0 <= i < |a| ensures !a[i].AnyDim? && !b[i].AnyDim? {
        assert SameDim(a[i], b[i]);
      }
    }
  }

  /** The planner's static test is sound: buffers it takes for equal are equal in every run
      of the model, and neither holds strings. */
  lemma SameSizeSound(g: Graph, valuation: string -> int, bytes: seq<int>, v: Id, w: Id)
    requires Sizing(g, valuation, bytes) && v < |g.values| && w < |g.values|
    requires SameSize(g.values[v], g.values[w])
    ensures bytes[v] == bytes[w] && !g.values[v].isString && !g.values[w].isString
  {
    SameShapeSameElements(g.values[v].shape.value, g.values[w].shape.value, valuation);
  }

  predicate Anonymous(d: Dim) { d.AnyDim? || (d.DimParam? && d.name == "") }

  /** The dimensions have values or names, and are equal whatever the names stand for. */
  ghost predicate AlwaysEqual(a: Dim, b: Dim)
  {
    !Anonymous(a) && !Anonymous(b) && forall valuation: string -> int :: DimSize(a, valuation) == DimSize(b, valuation)
  }

  /** A valuation that tells two dimensions apart. */
  lemma ToldApart(a: Dim, b: Dim) returns (valuation: string -> int)
    requires !Anonymous(a) && !Anonymous(b) && !SameDim(a, b)
    ensures DimSize(a, valuation) != DimSize(b, valuation)
  {
    var name := if a.DimParam? then a.name else if b.DimParam? then b.name else "";
    var other := if a.DimValue? then a.value else if b.DimValue? then b.value else 0;
    valuation := (s: string) => if s == name then other + 1 else other;
  }

  lemma SameDimIff(a: Dim, b: Dim)
    ensures SameDim(a, b) <==> AlwaysEqual(a, b)
  {
    if !Anonymous(a) && !Anonymous(b) && !SameDim(a, b) {
      var valuation := ToldApart(a, b);
    }
  }

  /** The static test is as good as can be, dimension by dimension: shapes that are known and equal
      whatever the names stand for pass it, and no others. */
  lemma SameSizeIff(a: ValueInfo, b: ValueInfo)
    ensures SameSize(a, b) <==>
      && !a.isString && !b.isString && a.elementSize == b.elementSize
      && a.shape.Some? && b.shape.Some? && |a.shape.value| == |b.shape.value|
      && forall i :: 0 <= i < |a.shape.value| ==> AlwaysEqual(a.shape.value[i], b.shape.value[i])
  {
    if a.shape.Some? && b.shape.Some? && |a.shape.value| == |b.shape.value| {
      forall i | 0 <= i < |a.shape.value|
        ensures SameDim(a.shape.value[i], b.shape.value[i]) <==> AlwaysEqual(a.shape.value[i], b.shape.value[i])
      {
        SameDimIff(a.shape.value[i], b.shape.value[i]);
      }
    }
  }

  ghost predicate AsLargeAsRoot(st: State, placed: set<Id>, bytes: seq<int>)
  {
    forall v {:trigger st.buffer[v]} :: v in placed && v < |st.buffer| && v < |bytes| ==>
      st.buffer[v] < |bytes| && bytes[st.buffer[v]] == bytes[v]
  }

  /** In-place pairs are looked up for output `j` under its number, and the size compared is that of
      the output with this index, if it is present: it is the size of `j` too. */
  ghost predicate ComparesOwnSize(g: Graph, n: Node, j: nat)
    requires j < |n.outputs| && n.outputs[j].Some?
  {
    var num := Position(n.outputs, j);
    num == j || (num < |n.outputs| && n.outputs[num].Some? ==> SameSizeOf(g, n.outputs[num].value, n.outputs[j].value))
  }

  predicate SameSizeOf(g: Graph, v: Id, w: Id)
  {
    v < |g.values| && w < |g.values| && SameSize(g.values[v], g.values[w])
  }

  /** That holds of every output for which the kernel lists an in-place pair. */
  ghost predicate InplaceNumbered(g: Graph, n: Node)
  {
    forall j, slot {:trigger n.outputs[j], (slot, Position(n.outputs, j)) in n.kernel.value.mayInplace} ::
      && 0 <= j < |n.outputs| && n.outputs[j].Some? && n.kernel.Some?
      && (slot, Position(n.outputs, j)) in n.kernel.value.mayInplace
      ==> ComparesOwnSize(g, n, j)
  }

  lemma {:induction false} SameShapeJoins(a: seq<Dim>, b: seq<Dim>, c: seq<Dim>)
    requires SameShape(a, b)
    ensures SameShape(a, c) <==> SameShape(b, c)
  {
    if |a| == |c| {
      forall i | 0 <= i < |a| ensures SameDim(a[i], c[i]) <==> SameDim(b[i], c[i]) {
        assert SameDim(a[i], b[i]);
      }
    }
  }

  lemma SameSizeJoins(a: ValueInfo, b: ValueInfo, c: ValueInfo)
    requires SameSize(a, b)
    ensures SameSize(a, c) <==> SameSize(b, c)
  {
    if c.shape.Some? {
      SameShapeJoins(a.shape.value, b.shape.value, c.shape.value);
    }
  }

  /** When an output overwrites an input, the two have the same size by the static test if and only
      if the output the planner compared has the size of the one it placed. */
  lemma OverwriteSizeIff(g: Graph, st: State, n: Node, j: nat)
    requires Shaped(g, st) && NodeInRange(g, n) && j < |n.outputs| && n.outputs[j].Some?
    requires DecisionAt(g, st, n, j).OverwriteInput?
    ensures var num, d := Position(n.outputs, j), DecisionAt(g, st, n, j);
      && num < |n.outputs| && n.outputs[num].Some?
      && (SameSizeOf(g, d.source, n.outputs[j].value) <==> SameSizeOf(g, n.outputs[num].value, n.outputs[j].value))
  {
    var num, d := Position(n.outputs, j), DecisionAt(g, st, n, j);
    DecisionAtJustified(g, st, n, j);
    SameSizeJoins(g.values[d.source], g.values[n.outputs[num].value], g.values[n.outputs[j].value]);
  }

  /** What is reused in place or from the free list has the size of the output, and is no string. */
  lemma ReusedHasSize(g: Graph, st: State, n: Node, j: nat, d: Decision)
    requires Shaped(g, st) && NodeInRange(g, n) && InplaceNumbered(g, n) && j < |n.outputs| && n.outputs[j].Some?
    requires Position(n.outputs, j) < |n.outputs|
    requires Justified(g, st, n, Position(n.outputs, j), n.outputs[j].value, d) && (d.OverwriteInput? || d.Recycle?)
    ensures SameSizeOf(g, d.source, n.outputs[j].value)
  {
    if d.OverwriteInput? {
      var num := Position(n.outputs, j);
      assert (d.slot, num) in n.kernel.value.mayInplace;
      assert ComparesOwnSize(g, n, j);
      if num != j {
        SameSizeJoins(g.values[d.source], g.values[n.outputs[num].value], g.values[n.outputs[j].value]);
      }
    }
  }

  /** One output placed. */
  lemma PlaceKeepsSize(g: Graph, st: State, placed: set<Id>, pending: seq<Id>, n: Node, j: nat, d: Decision,
                       valuation: string -> int, bytes: seq<int>)
    requires Accounted(g, st, placed, pending) && NodeInRange(g, n) && InputsPlaced(n, placed)
    requires Sizing(g, valuation, bytes) && NodeKeepsSize(n, bytes) && InplaceNumbered(g, n)
    requires j < |n.outputs| && n.outputs[j].Some? && Position(n.outputs, j) < |n.outputs|
    requires n.outputs[j].value in Defined(g) && n.outputs[j].value !in placed
    requires Justified(g, st, n, Position(n.outputs, j), n.outputs[j].value, d) && DecisionInRange(g, st, d)
    requires AsLargeAsRoot(st, placed, bytes)
    ensures AsLargeAsRoot(Apply(g, st, n.outputs[j].value, d), placed + {n.outputs[j].value}, bytes)
  {
    var out := n.outputs[j].value;
    match d
    case OwnOutput =>
    case OwnBuffer =>
    case ShareInput(source) => assert n.inputs[0] == Some(source);
    case AliasInput(slot, source) =>
      assert n.inputs[slot] == Some(source);
      assert Aliased(n, Position(n.outputs, j), slot);
    case OverwriteInput(slot, source) =>
      assert n.inputs[slot] == Some(source);
      ReusedHasSize(g, st, n, j, d);
      SameSizeSound(g, valuation, bytes, source, out);
    case Recycle(index, source) =>
      FreeIsPlaced(g, st, placed, pending, index);
      SameSizeSound(g, valuation, bytes, source, out);
  }

  ghost predicate Sized(g: Graph, valuation: string -> int, bytes: seq<int>)
  {
    && Sizing(g, valuation, bytes) && AliasesKeepSize(g, bytes)
    && (forall k :: 0 <= k < |g.nodes| ==> InplaceNumbered(g, g.nodes[k]))
  }

  lemma OutputKeepsSize(g: Graph, before: State, k: nat, j: nat, valuation: string -> int, bytes: seq<int>)
    requires WellFormed(g) && k < |g.nodes| && j < |g.nodes[k].outputs| && NodeInRange(g, g.nodes[k])
    requires Accounted(g, before, PlacedAfter(DefinedBefore(g, k), g.nodes[k], j), PendingAt(g, k))
    requires Sized(g, valuation, bytes)
    requires AsLargeAsRoot(before, PlacedAfter(DefinedBefore(g, k), g.nodes[k], j), bytes)
    ensures AsLargeAsRoot(PlaceOutput(g, before, g.nodes[k], j),
                          PlacedAfter(DefinedBefore(g, k), g.nodes[k], j + 1), bytes)
  {
    var n, placed := g.nodes[k], PlacedAfter(DefinedBefore(g, k), g.nodes[k], j);
    PlacedAfterNext(DefinedBefore(g, k), n, j);
    if n.outputs[j].Some? {
      var num, out := Position(n.outputs, j), n.outputs[j].value;
      InputsReady(g, k);
      OutputUnplaced(g, k, j);
      PlacedAsDecided(g, before, n, j);
      PlaceKeepsSize(g, before, placed, PendingAt(g, k), n, j, Decide(g, before, n, num, out), valuation, bytes);
    }
  }

  lemma PlacedAsDecided(g: Graph, st: State, n: Node, j: nat)
    requires Shaped(g, st) && NodeInRange(g, n) && j < |n.outputs| && n.outputs[j].Some?
    ensures Position(n.outputs, j) < |n.outputs|
    ensures var num, out := Position(n.outputs, j), n.outputs[j].value;
      var d := Decide(g, st, n, num, out);
      Justified(g, st, n, num, out, d) && DecisionInRange(g, st, d) && PlaceOutput(g, st, n, j) == Apply(g, st, out, d)
  {
    OutputNumInRange(n.outputs, j);
    DecideJustified(g, st, n, Position(n.outputs, j), n.outputs[j].value);
  }

  lemma OutputsKeepSize(g: Graph, st: State, k: nat, j: nat, valuation: string -> int, bytes: seq<int>)
    requires WellFormed(g) && k < |g.nodes| && j <= |g.nodes[k].outputs| && NodeInRange(g, g.nodes[k])
    requires Accounted(g, st, DefinedBefore(g, k), PendingAt(g, k)) && Sized(g, valuation, bytes)
    requires AsLargeAsRoot(st, DefinedBefore(g, k), bytes)
    ensures AsLargeAsRoot(AfterOutputs(g, st, g.nodes[k], j), PlacedAfter(DefinedBefore(g, k), g.nodes[k], j), bytes)
  {
    var n, defined, pending := g.nodes[k], DefinedBefore(g, k), PendingAt(g, k);
    assert PlacedAfter(defined, n, 0) == defined;
    var Kept := (s: State, m: nat) => m <= |n.outputs| &&
      Accounted(g, s, PlacedAfter(defined, n, m), pending) && AsLargeAsRoot(s, PlacedAfter(defined, n, m), bytes);
    forall s, m | 0 <= m < j && Shaped(g, s) && Kept(s, m) ensures Kept(PlaceOutput(g, s, n, m), m + 1) {
      PlaceKeeps(g, s, k, m);
      OutputKeepsSize(g, s, k, m, valuation, bytes);
    }
    OutputsInduction(g, st, n, Kept, 0, j);
  }

  lemma RunStepKeepsSize(g: Graph, run: seq<State>, k: nat, valuation: string -> int, bytes: seq<int>)
    requires IsRun(g, run) && k < |g.nodes| && Sized(g, valuation, bytes)
    requires AsLargeAsRoot(run[k], DefinedBefore(g, k), bytes)
    ensures AsLargeAsRoot(run[k + 1], DefinedBefore(g, k + 1), bytes)
  {
    var n := g.nodes[k];
    assert StepAt(g, run, k);
    RunAccounted(g, run, k);
    OutputsKeepSize(g, run[k], k, |n.outputs|, valuation, bytes);
    assert n.outputs[..|n.outputs|] == n.outputs;
    ReleasedInRange(g, n.inputs);
    ReleasedInRange(g, n.implicitInputs);
    ReleasedInRange(g, n.outputs);
    ReleasesLeaveBuffers(g, AfterOutputs(g, run[k], n, |n.outputs|), Released(n), k);
  }

  /** In every run of the model, all values of a buffer have the size of the value that
      owns it, through any chain of aliasing, in-place update and recycling. */
  lemma {:induction false} SharersHaveEqualSize(g: Graph, run: seq<State>, k: nat, valuation: string -> int,
                                                bytes: seq<int>)
    requires IsRun(g, run) && k <= |g.nodes| && Sized(g, valuation, bytes)
    ensures AsLargeAsRoot(run[k], DefinedBefore(g, k), bytes)
  {
    if k == 0 {
      DefinedGrows(g, 0, |g.nodes|);
    } else {
      SharersHaveEqualSize(g, run, k - 1, valuation, bytes);
      RunStepKeepsSize(g, run, k - 1, valuation, bytes);
    }
  }

  /** Strings are never reused except by aliasing. */
  lemma StringsNeverReused(g: Graph, run: seq<State>, k: nat, j: nat)
    requires IsRun(g, run) && k < |g.nodes| && InplaceNumbered(g, g.nodes[k])
    requires j < |g.nodes[k].outputs| && g.nodes[k].outputs[j].Some?
    ensures Shaped(g, run[k]) && NodeInRange(g, g.nodes[k])
    ensures var d, out := DecisionAt(g, run[k], g.nodes[k], j), g.nodes[k].outputs[j].value;
      out < |g.values| && (d.OverwriteInput? || d.Recycle? ==>
        d.source < |g.values| && !g.values[d.source].isString && !g.values[out].isString)
  {
    RunShaped(g, run, k);
    WellFormedNode(g, k);
    DecisionAtJustified(g, run[k], g.nodes[k], j);
    var d := DecisionAt(g, run[k], g.nodes[k], j);
    if d.OverwriteInput? || d.Recycle? {
      ReusedHasSize(g, AfterOutputs(g, run[k], g.nodes[k], j), g.nodes[k], j, d);
    }
  }

  /** A buffer from the free list is at the location of the value put there and as large; the plan is
      sequential, the value needs no fence, and nothing freed since would have served. */
  lemma RecycledServes(g: Graph, run: seq<State>, k: nat, j: nat)
    requires IsRun(g, run) && k < |g.nodes| && j < |g.nodes[k].outputs| && g.nodes[k].outputs[j].Some?
    ensures Shaped(g, run[k]) && NodeInRange(g, g.nodes[k])
    ensures var n, d := g.nodes[k], DecisionAt(g, run[k], g.nodes[k], j);
      d.Recycle? ==> Recycled(g, AfterOutputs(g, run[k], n, j).free, d.index, d.source, n.outputs[j].value)
  {
    RunShaped(g, run, k);
    WellFormedNode(g, k);
    var n := g.nodes[k];
    OutputNumInRange(n.outputs, j);
    DecisionInPriority(g, AfterOutputs(g, run[k], n, j), n, Position(n.outputs, j), n.outputs[j].value);
  }

  ghost predicate Recycled(g: Graph, free: seq<FreeBuffer>, index: nat, source: Id, out: Id)
  {
    && index < |free| && free[index].value == source && source < |g.values| && out < |g.values|
    && g.values[source].location == g.values[out].location && SameSizeOf(g, source, out)
    && !g.parallel && !g.values[out].fence
    && forall i :: 0 <= i < index && free[i].value < |g.values| ==>
         g.values[free[i].value].location != g.values[out].location || !SameSizeOf(g, free[i].value, out)
  }
}
