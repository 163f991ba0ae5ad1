/** The planner's working state as a value, and each of its operations as a function on
    that value.  The class in `Planner` is proved to compute exactly these functions; what
    they guarantee is proved in `PlannerAccounting`, `PlannerSizes`, `PlannerSchedule` and
    `PlannerExecution`. */
module PlannerState {
  import opened Prelude
  import opened PlannerGraph

  datatype AllocKind =
    | KAllocate | KReuse | KPreExisting | KAllocateStatically | KAllocateOutput | KShare

  /** A buffer nobody uses any more, and the step after which that became so. */
  datatype FreeBuffer = FreeBuffer(value: Id, point: nat)

  datatype State = State(
    use: seq<int>,
    buffer: seq<Id>,
    kind: seq<AllocKind>,
    reused: seq<Id>,
    free: seq<FreeBuffer>)

  ghost predicate Shaped(g: Graph, st: State)
  {
    && |st.use| == |st.buffer| == |st.kind| == |st.reused| == |g.values|
    && (forall v :: 0 <= v < |st.buffer| ==> st.buffer[v] < |g.values|)
    && (forall i :: 0 <= i < |st.free| ==> st.free[i].value < |g.values|)
  }

  // ----- which shapes are certainly the same size ---------------------------------

  predicate SameDim(a: Dim, b: Dim)
  {
    || (a.DimValue? && b.DimValue? && a.value == b.value)
    || (a.DimParam? && b.DimParam? && a.name == b.name && a.name != "")
  }

  predicate SameShape(a: seq<Dim>, b: seq<Dim>)
  {
    |a| == |b| && forall i :: 0 <= i < |a| ==> SameDim(a[i], b[i])
  }

  /** Both shapes known, and the buffers certainly interchangeable. */
  predicate SameSize(a: ValueInfo, b: ValueInfo)
  {
    && a.shape.Some? && b.shape.Some?
    && !a.isString && !b.isString
    && a.elementSize == b.elementSize
    && SameShape(a.shape.value, b.shape.value)
  }

  // ----- searching for something to reuse ------------------------------------------

  /** The slot named by `pair` holds an argument and the pair is about this output. */
  predicate PairApplies(pair: (int, int), inputs: seq<Option<Id>>, outputNum: nat)
  {
    pair.1 == outputNum && 0 <= pair.0 < |inputs| && inputs[pair.0].Some?
  }

  /** First input that the kernel requires this output to alias. */
  function FindAlias(pairs: seq<(int, int)>, inputs: seq<Option<Id>>, outputNum: nat): (r: Option<nat>)
  {
    if pairs == [] then None
    else if PairApplies(pairs[0], inputs, outputNum) then Some(pairs[0].0)
    else FindAlias(pairs[1..], inputs, outputNum)
  }

  lemma {:induction false} FindAliasFinds(pairs: seq<(int, int)>, inputs: seq<Option<Id>>, outputNum: nat)
    ensures var r := FindAlias(pairs, inputs, outputNum);
      if r.Some? then
        exists i :: 0 <= i < |pairs| && PairApplies(pairs[i], inputs, outputNum) && pairs[i].0 == r.value
      else
        forall i :: 0 <= i < |pairs| ==> !PairApplies(pairs[i], inputs, outputNum)
  {
    if pairs != [] && !PairApplies(pairs[0], inputs, outputNum) {
      FindAliasFinds(pairs[1..], inputs, outputNum);
      var r := FindAlias(pairs, inputs, outputNum);
      if r.Some? {
        var i :| 0 <= i < |pairs[1..]| && PairApplies(pairs[1..][i], inputs, outputNum) && pairs[1..][i].0 == r.value;
        assert pairs[i + 1] == pairs[1..][i];
      }
    }
  }

  ghost predicate ArgsInRange(g: Graph, args: seq<Option<Id>>)
  {
    forall i :: 0 <= i < |args| && args[i].Some? ==> args[i].value < |g.values|
  }

  /** The input in `slot` has its very last use here and certainly fits the output. */
  predicate MayOverwrite(g: Graph, st: State, n: Node, slot: nat, outputNum: nat)
    requires Shaped(g, st) && ArgsInRange(g, n.inputs) && ArgsInRange(g, n.outputs)
    requires slot < |n.inputs| && n.inputs[slot].Some? && outputNum < |n.outputs|
  {
    && st.use[st.buffer[n.inputs[slot].value]] == 1
    && n.outputs[outputNum].Some?
    && SameSize(g.values[n.inputs[slot].value], g.values[n.outputs[outputNum].value])
  }

  /** First input this output may overwrite in place. */
  function FindInplace(g: Graph, st: State, n: Node, pairs: seq<(int, int)>, outputNum: nat): (r: Option<nat>)
    requires Shaped(g, st) && ArgsInRange(g, n.inputs) && ArgsInRange(g, n.outputs)
    requires outputNum < |n.outputs|
  {
    if pairs == [] then None
    else if PairApplies(pairs[0], n.inputs, outputNum) && MayOverwrite(g, st, n, pairs[0].0, outputNum) then
      Some(pairs[0].0)
    else FindInplace(g, st, n, pairs[1..], outputNum)
  }

  ghost predicate InplaceApplies(g: Graph, st: State, n: Node, pair: (int, int), outputNum: nat)
    requires Shaped(g, st) && ArgsInRange(g, n.inputs) && ArgsInRange(g, n.outputs)
    requires outputNum < |n.outputs|
  {
    PairApplies(pair, n.inputs, outputNum) && MayOverwrite(g, st, n, pair.0, outputNum)
  }

  lemma {:induction false} FindInplaceFinds(g: Graph, st: State, n: Node, pairs: seq<(int, int)>, outputNum: nat)
    requires Shaped(g, st) && ArgsInRange(g, n.inputs) && ArgsInRange(g, n.outputs)
    requires outputNum < |n.outputs|
    ensures var r := FindInplace(g, st, n, pairs, outputNum);
      if r.Some? then
        exists i :: 0 <= i < |pairs| && InplaceApplies(g, st, n, pairs[i], outputNum) && pairs[i].0 == r.value
      else
        forall i :: 0 <= i < |pairs| ==> !InplaceApplies(g, st, n, pairs[i], outputNum)
  {
    if pairs != [] && !InplaceApplies(g, st, n, pairs[0], outputNum) {
      FindInplaceFinds(g, st, n, pairs[1..], outputNum);
      var r := FindInplace(g, st, n, pairs, outputNum);
      if r.Some? {
        var i :| 0 <= i < |pairs[1..]| && InplaceApplies(g, st, n, pairs[1..][i], outputNum) &&
          pairs[1..][i].0 == r.value;
        assert pairs[i + 1] == pairs[1..][i];
      }
    }
  }

  predicate Fits(available: ValueInfo, required: ValueInfo)
  {
    available.location == required.location && SameSize(available, required)
  }

  /** Most recently freed buffer that certainly fits. */
  function FindFree(g: Graph, free: seq<FreeBuffer>, required: ValueInfo): (r: Option<nat>)
    requires forall i :: 0 <= i < |free| ==> free[i].value < |g.values|
  {
    if free == [] then None
    else if Fits(g.values[free[0].value], required) then Some(0)
    else
      var rest := FindFree(g, free[1..], required);
      if rest.None? then None else Some(rest.value + 1)
  }

  lemma {:induction false} FindFreeFinds(g: Graph, free: seq<FreeBuffer>, required: ValueInfo)
    requires forall i :: 0 <= i < |free| ==> free[i].value < |g.values|
    ensures var r := FindFree(g, free, required);
      if r.Some? then
        && r.value < |free| && Fits(g.values[free[r.value].value], required)
        && (forall i :: 0 <= i < r.value ==> !Fits(g.values[free[i].value], required))
      else
        forall i :: 0 <= i < |free| ==> !Fits(g.values[free[i].value], required)
  {
    if free != [] && !Fits(g.values[free[0].value], required) {
      FindFreeFinds(g, free[1..], required);
      assert free == [free[0]] + free[1..];
    }
  }

  // ----- deciding where one output goes ----------------------------------------------

  datatype Decision =
    | OwnOutput
    | ShareInput(source: Id)
    | OwnBuffer
    | AliasInput(slot: nat, source: Id)
    | OverwriteInput(slot: nat, source: Id)
    | Recycle(index: nat, source: Id)

  ghost predicate NodeInRange(g: Graph, n: Node)
  {
    && ArgsInRange(g, n.inputs) && ArgsInRange(g, n.implicitInputs) && ArgsInRange(g, n.outputs)
    && (n.isIdentity ==> |n.inputs| > 0 && n.inputs[0].Some?)
  }

  function Decide(g: Graph, st: State, n: Node, outputNum: nat, out: Id): (d: Decision)
    requires Shaped(g, st) && NodeInRange(g, n)
    requires outputNum < |n.outputs| && out < |g.values|
  {
    if out in g.outputs then
      if g.insideLoop && n.isIdentity && st.kind[n.inputs[0].value] == KPreExisting
      then ShareInput(n.inputs[0].value)
      else OwnOutput
    else if !g.values[out].isTensor then OwnBuffer
    else FindReusable(g, st, n, outputNum, out)
  }

  /** An input of the node whose buffer the output must or may take. */
  function ReusableInput(g: Graph, st: State, n: Node, outputNum: nat): (d: Option<Decision>)
    requires Shaped(g, st) && NodeInRange(g, n) && outputNum < |n.outputs|
  {
    if n.kernel.None? then None
    else
      var alias := FindAlias(n.kernel.value.alias, n.inputs, outputNum);
      if alias.Some? then
        FindAliasFinds(n.kernel.value.alias, n.inputs, outputNum);
        Some(AliasInput(alias.value, n.inputs[alias.value].value))
      else
        var inplace := FindInplace(g, st, n, n.kernel.value.mayInplace, outputNum);
        if inplace.Some? then
          FindInplaceFinds(g, st, n, n.kernel.value.mayInplace, outputNum);
          Some(OverwriteInput(inplace.value, n.inputs[inplace.value].value))
        else None
  }

  /** A dead buffer the output can take; none while its shape is unknown or it needs a fence. */
  function ReusableTensor(g: Graph, st: State, out: Id): (d: Option<Decision>)
    requires Shaped(g, st) && out < |g.values|
  {
    if g.values[out].shape.None? || g.values[out].fence then None
    else
      var found := FindFree(g, st.free, g.values[out]);
      if found.Some? then
        FindFreeFinds(g, st.free, g.values[out]);
        Some(Recycle(found.value, st.free[found.value].value))
      else None
  }

  /** The search for a tensor's place: an input it must alias or may overwrite, a dead
      buffer unless nodes may run in parallel, a new buffer. */
  function FindReusable(g: Graph, st: State, n: Node, outputNum: nat, out: Id): (d: Decision)
    requires Shaped(g, st) && NodeInRange(g, n)
    requires outputNum < |n.outputs| && out < |g.values|
  {
    var input := ReusableInput(g, st, n, outputNum);
    if input.Some? then input.value
    else
      var tensor := if g.parallel then None else ReusableTensor(g, st, out);
      if tensor.Some? then tensor.value else OwnBuffer
  }

  /** Why each decision was taken. */
  ghost predicate Justified(g: Graph, st: State, n: Node, outputNum: nat, out: Id, d: Decision)
    requires Shaped(g, st) && NodeInRange(g, n)
    requires outputNum < |n.outputs| && out < |g.values|
  {
    match d
    case OwnOutput => out in g.outputs
    case OwnBuffer => out !in g.outputs
    case ShareInput(source) =>
      out in g.outputs && g.insideLoop && n.isIdentity && Some(source) == n.inputs[0] && st.kind[source] == KPreExisting
    case AliasInput(slot, source) =>
      && slot < |n.inputs| && Some(source) == n.inputs[slot] && n.kernel.Some? && out !in g.outputs
      && FindAlias(n.kernel.value.alias, n.inputs, outputNum) == Some(slot)
    case OverwriteInput(slot, source) =>
      && slot < |n.inputs| && Some(source) == n.inputs[slot] && n.kernel.Some? && out !in g.outputs
      && (slot, outputNum) in n.kernel.value.mayInplace
      && MayOverwrite(g, st, n, slot, outputNum)
    case Recycle(index, source) =>
      && index < |st.free| && source == st.free[index].value && !g.parallel && out !in g.outputs
      && Fits(g.values[source], g.values[out])
  }

  lemma DecideJustified(g: Graph, st: State, n: Node, outputNum: nat, out: Id)
    requires Shaped(g, st) && NodeInRange(g, n)
    requires outputNum < |n.outputs| && out < |g.values|
    ensures Justified(g, st, n, outputNum, out, Decide(g, st, n, outputNum, out))
  {
    if n.kernel.Some? {
      FindAliasFinds(n.kernel.value.alias, n.inputs, outputNum);
      FindInplaceFinds(g, st, n, n.kernel.value.mayInplace, outputNum);
    }
    FindFreeFinds(g, st.free, g.values[out]);
  }

  /** `out` will live in the buffer `reused` lives in. */
  function Reuse(g: Graph, st: State, reused: Id, out: Id, kind: AllocKind): (st': State)
    requires Shaped(g, st) && reused < |g.values| && out < |g.values|
    ensures Shaped(g, st')
  {
    var original := st.buffer[reused];
    State(st.use[original := st.use[original] + st.use[out]],
          st.buffer[out := original],
          st.kind[out := kind],
          st.reused[out := original],
          st.free)
  }

  function Without<T>(s: seq<T>, i: nat): (r: seq<T>)
    requires i < |s|
  {
    s[..i] + s[i + 1..]
  }

  predicate DecisionInRange(g: Graph, st: State, d: Decision)
  {
    && (d.OwnOutput? || d.OwnBuffer? || d.source < |g.values|)
    && (d.Recycle? ==> d.index < |st.free|)
  }

  function Apply(g: Graph, st: State, out: Id, d: Decision): (st': State)
    requires Shaped(g, st) && out < |g.values| && DecisionInRange(g, st, d)
    ensures Shaped(g, st')
  {
    match d
    case OwnOutput => st.(kind := st.kind[out := KAllocateOutput])
    case OwnBuffer => st.(kind := st.kind[out := KAllocate])
    case ShareInput(source) => Reuse(g, st, source, out, KShare)
    case AliasInput(_, source) => Reuse(g, st, source, out, KReuse)
    case OverwriteInput(_, source) => Reuse(g, st, source, out, KReuse)
    case Recycle(index, source) => Reuse(g, st.(free := Without(st.free, index)), source, out, KReuse)
  }

  // ----- one node, and the whole plan -------------------------------------------------

  /** Find a place for output `j`, if it is present.  The planner counts only the outputs
      that are present when it numbers them. */
  function PlaceOutput(g: Graph, st: State, n: Node, j: nat): (st': State)
    requires Shaped(g, st) && NodeInRange(g, n) && j < |n.outputs|
    ensures Shaped(g, st')
  {
    if n.outputs[j].None? then st
    else
      var out := n.outputs[j].value;
      OutputNumInRange(n.outputs, j);
      DecideJustified(g, st, n, Position(n.outputs, j), out);
      Apply(g, st, out, Decide(g, st, n, Position(n.outputs, j), out))
  }

  /** State once the first `j` outputs of the node have been given a place. */
  function AfterOutputs(g: Graph, st: State, n: Node, j: nat): (st': State)
    requires Shaped(g, st) && NodeInRange(g, n) && j <= |n.outputs|
    ensures Shaped(g, st')
  {
    if j == 0 then st else PlaceOutput(g, AfterOutputs(g, st, n, j - 1), n, j - 1)
  }

  lemma OneMoreOutput(g: Graph, st: State, n: Node, m: nat)
    requires Shaped(g, st) && NodeInRange(g, n) && m < |n.outputs|
    ensures AfterOutputs(g, st, n, m + 1) == PlaceOutput(g, AfterOutputs(g, st, n, m), n, m)
  {
  }

  /** What holds after the first `i` outputs and is kept by each further one holds after `j`. */
  lemma OutputsInduction(g: Graph, st: State, n: Node, P: (State, nat) -> bool, i: nat, j: nat)
    requires Shaped(g, st) && NodeInRange(g, n) && i <= j <= |n.outputs|
    requires P(AfterOutputs(g, st, n, i), i)
    requires forall s, m {:trigger PlaceOutput(g, s, n, m)} ::
      i <= m < j && Shaped(g, s) && P(s, m) ==> P(PlaceOutput(g, s, n, m), m + 1)
    ensures P(AfterOutputs(g, st, n, j), j)
  {
    var m, now := i, AfterOutputs(g, st, n, i);
    while m < j
      invariant i <= m <= j && now == AfterOutputs(g, st, n, m) && P(now, m)
    {
      OneMoreOutput(g, st, n, m);
      now := PlaceOutput(g, now, n, m);
      m := m + 1;
    }
  }

  lemma {:induction false} ExistingShorter(args: seq<Option<nat>>)
    ensures |Existing(args)| <= |args|
  {
    if args != [] {
      ExistingShorter(args[..|args| - 1]);
    }
  }

  lemma OutputNumInRange(outputs: seq<Option<nat>>, j: nat)
    requires j < |outputs|
    ensures Position(outputs, j) <= j
  {
    ExistingShorter(outputs[..j]);
  }

  /** One use of `v` is over at step `pc`. */
  function Release(g: Graph, st: State, v: Id, pc: nat): (st': State)
    requires Shaped(g, st) && v < |g.values|
    ensures Shaped(g, st')
  {
    var original := st.buffer[v];
    var use := st.use[original := st.use[original] - 1];
    st.(use := use,
        free := if use[original] == 0 then [FreeBuffer(original, pc)] + st.free else st.free)
  }

  function AfterReleases(g: Graph, st: State, ids: seq<Id>, pc: nat): (st': State)
    requires Shaped(g, st) && forall i :: 0 <= i < |ids| ==> ids[i] < |g.values|
    ensures Shaped(g, st')
  {
    if ids == [] then st
    else Release(g, AfterReleases(g, st, ids[..|ids| - 1], pc), ids[|ids| - 1], pc)
  }

  lemma {:induction false} ReleasedInRange(g: Graph, args: seq<Option<Id>>)
    requires ArgsInRange(g, args)
    ensures forall i :: 0 <= i < |Existing(args)| ==> Existing(args)[i] < |g.values|
  {
    forall i | 0 <= i < |Existing(args)| ensures Existing(args)[i] < |g.values| {
      ExistingMember(args, Existing(args)[i]);
    }
  }

  function AfterNode(g: Graph, st: State, n: Node, pc: nat): (st': State)
    requires Shaped(g, st) && NodeInRange(g, n)
    ensures Shaped(g, st')
  {
    ReleasedInRange(g, n.inputs);
    ReleasedInRange(g, n.implicitInputs);
    ReleasedInRange(g, n.outputs);
    AfterReleases(g, AfterOutputs(g, st, n, |n.outputs|), Released(n), pc)
  }

  // ----- before the first node --------------------------------------------------------

  predicate ReadBySomeNode(g: Graph, v: Id)
  {
    exists k :: 0 <= k < |g.nodes| && Some(v) in g.nodes[k].inputs
  }

  function InitialKind(g: Graph, v: Id): (kind: AllocKind)
  {
    if v in g.initializers && ReadBySomeNode(g, v) then KAllocateStatically
    else if v in g.inputs || v in g.outerScope then KPreExisting
    else KAllocate
  }

  /** Every value in its own buffer, with all of its uses outstanding. */
  ghost predicate Started(g: Graph, st: State)
  {
    && Shaped(g, st) && st.free == []
    && (forall v {:trigger st.use[v]} :: 0 <= v < |g.values| ==> st.use[v] == Count(PendingAt(g, 0), v))
    && (forall v {:trigger st.buffer[v]} :: 0 <= v < |g.values| ==> st.buffer[v] == if v in Defined(g) then v else 0)
    && (forall v {:trigger st.kind[v]} :: 0 <= v < |g.values| ==> st.kind[v] == InitialKind(g, v))
  }

  lemma WellFormedNode(g: Graph, k: nat)
    requires WellFormed(g) && k < |g.nodes|
    ensures NodeInRange(g, g.nodes[k])
  {
    assert NodeWellFormed(g, k);
    DefinedGrows(g, k, |g.nodes|);
    DefinedGrows(g, k + 1, |g.nodes|);
    var n := g.nodes[k];
    forall i | 0 <= i < |n.inputs| && n.inputs[i].Some? ensures n.inputs[i].value < |g.values| {
      ExistingMember(n.inputs, n.inputs[i].value);
    }
    forall i | 0 <= i < |n.implicitInputs| && n.implicitInputs[i].Some? ensures n.implicitInputs[i].value < |g.values| {
      ExistingMember(n.implicitInputs, n.implicitInputs[i].value);
    }
    forall i | 0 <= i < |n.outputs| && n.outputs[i].Some? ensures n.outputs[i].value < |g.values| {
      ExistingMember(n.outputs, n.outputs[i].value);
      IdSetMember(Existing(n.outputs), n.outputs[i].value);
    }
  }
}
