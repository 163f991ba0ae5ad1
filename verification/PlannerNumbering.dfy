/** The number under which the planner looks up the alias and in-place pairs of an output: its
    position among the outputs that are present, while kernels declare pairs by index. */
module PlannerNumbering {
  import opened Prelude
  import opened PlannerGraph
  import opened PlannerState
  import opened PlannerLedger
  import opened Executor
  import opened PlannerAccounting
  import opened PlannerExecution
  import opened PlannerSizes
  import opened PlannerFirstStep

  /** Optional outputs that are missing come last. */
  ghost predicate MissingLast(outputs: seq<Option<Id>>)
  {
    forall i, j :: 0 <= i < j < |outputs| && outputs[j].Some? ==> outputs[i].Some?
  }

  lemma {:induction false} NumberedByPosition(outputs: seq<Option<Id>>, j: nat)
    requires MissingLast(outputs) && j < |outputs| && outputs[j].Some?
    ensures Position(outputs, j) == j
  {
    if j > 0 {
      NumberedByPosition(outputs, j - 1);
      assert outputs[..j][..j - 1] == outputs[..j - 1];
    }
  }

  lemma {:induction false} AllPresent(args: seq<Option<Id>>, j: nat)
    requires j <= |args| && |Existing(args[..j])| == j
    ensures forall i :: 0 <= i < j ==> args[i].Some?
  {
    if j > 0 {
      assert args[..j][..j - 1] == args[..j - 1];
      ExistingShorter(args[..j - 1]);
      AllPresent(args, j - 1);
    }
  }

  /** The number the planner gives an output is its index, for all outputs that are present, if and
      only if the missing ones come last. */
  lemma NumberingExactIff(outputs: seq<Option<Id>>)
    ensures MissingLast(outputs)
       <==> forall j :: 0 <= j < |outputs| && outputs[j].Some? ==> Position(outputs, j) == j
  {
    if MissingLast(outputs) {
      forall j | 0 <= j < |outputs| && outputs[j].Some? ensures Position(outputs, j) == j {
        NumberedByPosition(outputs, j);
      }
    } else {
      var i, j :| 0 <= i < j < |outputs| && outputs[j].Some? && outputs[i].None?;
      if Position(outputs, j) == j {
        AllPresent(outputs, j);
        assert false;
      }
    }
  }

  // ----- aliases as kernels declare them ----------------------------------------------------

  /** The node's outputs have the contents of the inputs they alias by their index. */
  ghost predicate NodeHonoursDeclared<T>(n: Node, ins: seq<Option<T>>, outs: seq<T>)
    requires |ins| == |n.inputs|
  {
    && |outs| == |n.outputs|
    && (forall slot, j {:trigger ins[slot], outs[j]} ::
          && 0 <= slot < |ins| && ins[slot].Some? && 0 <= j < |outs| && n.outputs[j].Some? && Aliased(n, j, slot)
          ==> outs[j] == ins[slot].value)
    && (n.isIdentity && |ins| > 0 && ins[0].Some? ==> forall j :: 0 <= j < |outs| ==> outs[j] == ins[0].value)
  }

  ghost predicate HonoursDeclared<T(!new)>(g: Graph, f: Kernels<T>)
  {
    forall k, ins, imps {:trigger f(k, ins, imps)} ::
      0 <= k < |g.nodes| && |ins| == |g.nodes[k].inputs| ==> NodeHonoursDeclared(g.nodes[k], ins, f(k, ins, imps))
  }

  /** An alias found under the number of an output is the one found under its index. */
  ghost predicate AliasesNumbered(n: Node)
  {
    forall j, slot: nat {:trigger Aliased(n, j, slot)} :: 0 <= j < |n.outputs| && n.outputs[j].Some? ==>
      Aliased(n, Position(n.outputs, j), slot) ==> Aliased(n, j, slot)
  }

  lemma MissingLastNumbers(g: Graph, n: Node)
    requires MissingLast(n.outputs)
    ensures AliasesNumbered(n) && InplaceNumbered(g, n)
  {
    NumberingExactIff(n.outputs);
  }

  lemma NoPairsNumber(g: Graph, n: Node)
    requires n.kernel.Some? ==> n.kernel.value.alias == [] && n.kernel.value.mayInplace == []
    ensures AliasesNumbered(n) && InplaceNumbered(g, n)
  {
  }

  lemma NodeDeclaredSuffices<T>(n: Node, ins: seq<Option<T>>, outs: seq<T>)
    requires AliasesNumbered(n) && |ins| == |n.inputs| && NodeHonoursDeclared(n, ins, outs)
    ensures NodeHonours(n, ins, outs)
  {
    forall slot: nat, j: nat |
      && slot < |ins| && ins[slot].Some? && j < |outs| && n.outputs[j].Some?
      && Aliased(n, Position(n.outputs, j), slot)
      ensures outs[j] == ins[slot].value
    {
      assert Aliased(n, j, slot);
    }
  }

  /** Kernels that honour their declarations by index give the planner what it relies on. */
  lemma DeclaredSuffices<T(!new)>(g: Graph, f: Kernels<T>)
    requires HonoursDeclared(g, f) && forall k :: 0 <= k < |g.nodes| ==> AliasesNumbered(g.nodes[k])
    ensures Honours(g, f)
  {
    forall k, ins, imps | 0 <= k < |g.nodes| && |ins| == |g.nodes[k].inputs|
      ensures NodeHonours(g.nodes[k], ins, f(k, ins, imps))
    {
      assert NodeHonoursDeclared(g.nodes[k], ins, f(k, ins, imps));
      NodeDeclaredSuffices(g.nodes[k], ins, f(k, ins, imps));
    }
  }

  /** Whatever honours the declarations of the node does what the planner relies on. */
  ghost predicate DeclarationsDo(n: Node)
  {
    forall ins: seq<Option<int>>, outs: seq<int> {:trigger NodeHonours(n, ins, outs)} ::
      |ins| == |n.inputs| && NodeHonoursDeclared(n, ins, outs) ==> NodeHonours(n, ins, outs)
  }

  /** Inputs that hold their own slot, and outputs that hold the slot they alias by index. */
  ghost function SlotOf(n: Node, j: nat): (x: int)
  {
    if n.kernel.Some? && FindAlias(n.kernel.value.alias, n.inputs, j).Some?
    then FindAlias(n.kernel.value.alias, n.inputs, j).value else -1
  }

  lemma MisnumberedBreaks(n: Node, j: nat, slot: nat)
    requires !n.isIdentity && j < |n.outputs| && n.outputs[j].Some?
    requires Aliased(n, Position(n.outputs, j), slot) && !Aliased(n, j, slot)
    ensures !DeclarationsDo(n)
  {
    var ins: seq<Option<int>> := seq(|n.inputs|, s => Some(s));
    var outs: seq<int> := seq(|n.outputs|, i requires i >= 0 => SlotOf(n, i));
    FindAliasFinds(n.kernel.value.alias, n.inputs, Position(n.outputs, j));
    assert ins[slot] == Some(slot) && outs[j] != slot;
    assert NodeHonoursDeclared(n, ins, outs);
    assert !NodeHonours(n, ins, outs);
  }

  /** Honouring the declarations is enough for the planner if and only if aliases are found under
      numbers as under indices. */
  lemma DeclarationsDoIff(n: Node)
    requires !n.isIdentity
    ensures DeclarationsDo(n) <==> AliasesNumbered(n)
  {
    if AliasesNumbered(n) {
      forall ins: seq<Option<int>>, outs: seq<int> | |ins| == |n.inputs| && NodeHonoursDeclared(n, ins, outs)
        ensures NodeHonours(n, ins, outs)
      {
        NodeDeclaredSuffices(n, ins, outs);
      }
    } else {
      var j, slot: nat :| 0 <= j < |n.outputs| && n.outputs[j].Some? &&
        Aliased(n, Position(n.outputs, j), slot) && !Aliased(n, j, slot);
      MisnumberedBreaks(n, j, slot);
    }
  }

  // ----- a plan that goes wrong -------------------------------------------------------------

  function Vector(n: int): (info: ValueInfo)
  {
    ValueInfo(Some([DimValue(n)]), 4, false, true, 0, false)
  }

  /** A node produces value 0; a second one reads it, leaves its first output out and produces values
      1 and 2, and its kernel lists the pair of input 0 and output 1. */
  function Misnumbered(kernel: KernelDef): (g: Graph)
  {
    Graph([Vector(4), Vector(4), Vector(8)], [], [], [],
          [Node([], [], [Some(0)], Some(KernelDef([], [])), true, false),
           Node([Some(0)], [], [None, Some(1), Some(2)], Some(kernel), true, false)],
          [], false, false)
  }

  lemma MisnumberedArguments(g: Graph, kernel: KernelDef)
    requires g == Misnumbered(kernel)
    ensures Existing(g.nodes[0].outputs) == [0] && Existing(g.nodes[1].inputs) == [0]
    ensures Existing(g.nodes[1].outputs[..1]) == [] && Existing(g.nodes[1].outputs[..2]) == [1]
    ensures Existing(g.nodes[1].outputs) == [1, 2]
  {
    var outputs := g.nodes[1].outputs;
    assert g.nodes[0].outputs[..0] == [] && g.nodes[1].inputs[..0] == [];
    assert outputs[..2][..1] == outputs[..1];
    assert Existing(outputs[..1]) == [];
  }

  lemma MisnumberedDefined(g: Graph, kernel: KernelDef)
    requires g == Misnumbered(kernel)
    ensures DefinedBefore(g, 0) == {} && DefinedBefore(g, 1) == {0} && DefinedBefore(g, 2) == {0, 1, 2}
  {
    MisnumberedArguments(g, kernel);
    assert IdSet([0]) == {0};
    assert [1, 2][..1] == [1] && [1][..0] == [];
    assert IdSet([1]) == {1} && IdSet([1, 2]) == {1, 2};
  }

  lemma PlainNode(g: Graph, k: nat, ins: seq<Id>, outs: seq<Id>, before: set<Id>)
    requires k < |g.nodes| && !g.nodes[k].isIdentity && g.nodes[k].implicitInputs == [] && DefinedBefore(g, k) == before
    requires Existing(g.nodes[k].inputs) == ins && AllIn(ins, before)
    requires Existing(g.nodes[k].outputs) == outs && NoDuplicates(outs)
    requires forall i :: 0 <= i < |outs| ==> outs[i] !in before
    ensures NodeWellFormed(g, k)
  {
    assert Existing(g.nodes[k].implicitInputs) == [];
  }

  lemma MisnumberedWellFormed(g: Graph, kernel: KernelDef)
    requires g == Misnumbered(kernel)
    ensures WellFormed(g)
  {
    MisnumberedArguments(g, kernel);
    MisnumberedDefined(g, kernel);
    PlainNode(g, 0, [], [0], {});
    PlainNode(g, 1, [0], [1, 2], {0});
  }

  lemma SomeFree(g: Graph, st: State)
    requires Shaped(g, st) && (forall v :: v in Defined(g) ==> v < |g.values|) && FreeExact(g, st) && st.free != []
    ensures exists r :: r in Defined(g) && r < |st.use| && st.use[r] == 0
  {
    assert IsFree(st.free, st.free[0].value);
  }

  /** Before the second node runs, every value is in its own buffer, value 0 has one use left and
      nothing is free. */
  lemma MisnumberedBefore(g: Graph, kernel: KernelDef, run: seq<State>)
    requires g == Misnumbered(kernel) && IsRun(g, run)
    ensures Shaped(g, run[1]) && run[1].buffer == [0, 1, 2] && run[1].use[0] == 1 && run[1].free == []
  {
    MisnumberedDefined(g, kernel);
    RunAccounted(g, run, 1);
    var st := run[1];
    if st.free != [] {
      SomeFree(g, st);
    }
    assert st.buffer[0] in {0};
    assert st.buffer[1] == 1 && st.use[1] > 0 && st.buffer[2] == 2 && st.use[2] > 0;
    MisnumberedPending(g, kernel);
    assert CountRoot(st.buffer, [2], 0) == 0;
    assert [1, 2][1..] == [2] && [0, 1, 2][1..] == [1, 2];
    assert CountRoot(st.buffer, [0, 1, 2], 0) == 1;
  }

  lemma MisnumberedPending(g: Graph, kernel: KernelDef)
    requires g == Misnumbered(kernel)
    ensures PendingAt(g, 1) == [0, 1, 2]
  {
    MisnumberedArguments(g, kernel);
    assert Existing(g.nodes[1].implicitInputs) == [];
    assert Released(g.nodes[1]) == [0, 1, 2];
    assert ReleasedFrom(g, 2) == [] && ReleasedFrom(g, 1) == [0, 1, 2];
    assert Permanent(g) == [];
  }

  ghost predicate OnePair(pairs: seq<(int, int)>)
  {
    pairs == [] || pairs == [(0, 1)]
  }

  /** Value 1 has number 0, under which nothing is listed: it gets a buffer of its own. */
  lemma MisnumberedFirstDecision(g: Graph, kernel: KernelDef, st: State)
    requires g == Misnumbered(kernel) && OnePair(kernel.alias) && OnePair(kernel.mayInplace)
    requires Shaped(g, st) && NodeInRange(g, g.nodes[1]) && st.free == []
    ensures Decide(g, st, g.nodes[1], 0, 1) == OwnBuffer
  {
    FindAliasFinds(kernel.alias, g.nodes[1].inputs, 0);
    FindInplaceFinds(g, st, g.nodes[1], kernel.mayInplace, 0);
  }

  lemma MisnumberedFirstOutput(g: Graph, kernel: KernelDef, run: seq<State>)
    requires g == Misnumbered(kernel) && IsRun(g, run) && OnePair(kernel.alias) && OnePair(kernel.mayInplace)
    ensures Shaped(g, run[1]) && NodeInRange(g, g.nodes[1])
    ensures var st := AfterOutputs(g, run[1], g.nodes[1], 2); st.use == run[1].use && st.buffer == run[1].buffer
  {
    var n := g.nodes[1];
    MisnumberedBefore(g, kernel, run);
    WellFormedNode(g, 1);
    MisnumberedArguments(g, kernel);
    MisnumberedFirstDecision(g, kernel, run[1]);
    OneMoreOutput(g, run[1], n, 0);
    OneMoreOutput(g, run[1], n, 1);
    assert Position(n.outputs, 1) == 0;
  }

  /** Value 2 has number 1: it takes the buffer of the input listed for output 1. */
  lemma MisnumberedDecision(g: Graph, kernel: KernelDef, run: seq<State>)
    requires g == Misnumbered(kernel) && IsRun(g, run) && OnePair(kernel.alias) && OnePair(kernel.mayInplace)
    ensures Shaped(g, run[1]) && NodeInRange(g, g.nodes[1])
    ensures kernel.alias != [] ==> DecisionAt(g, run[1], g.nodes[1], 2) == AliasInput(0, 0)
    ensures kernel.alias == [] && kernel.mayInplace != [] ==>
      DecisionAt(g, run[1], g.nodes[1], 2) == OverwriteInput(0, 0)
  {
    var n := g.nodes[1];
    MisnumberedBefore(g, kernel, run);
    MisnumberedFirstOutput(g, kernel, run);
    var st := AfterOutputs(g, run[1], n, 2);
    MisnumberedArguments(g, kernel);
    assert Position(n.outputs, 2) == 1;
    assert PairApplies((0, 1), n.inputs, 1);
    assert SameDim(DimValue(4), DimValue(4));
    assert SameSize(Vector(4), Vector(4));
    assert MayOverwrite(g, st, n, 0, 1);
  }

  lemma MisnumberedBytes(g: Graph, kernel: KernelDef, valuation: string -> int, bytes: seq<int>)
    requires g == Misnumbered(kernel) && Sizing(g, valuation, bytes)
    ensures bytes[0] == 16 && bytes[2] == 32
  {
    assert Elements([DimValue(4)], valuation) == 4 * Elements([], valuation);
    assert Elements([DimValue(8)], valuation) == 8 * Elements([], valuation);
    assert g.values[0].shape == Some([DimValue(4)]) && g.values[2].shape == Some([DimValue(8)]);
  }

  /** The pair (0, 1) for in-place reuse: in every run value 2, of 32 bytes, ends up in the buffer of
      value 0, of 16. */
  lemma MisnumberedOverwrites(run: seq<State>, valuation: string -> int, bytes: seq<int>)
    requires IsRun(Misnumbered(KernelDef([], [(0, 1)])), run)
    requires Sizing(Misnumbered(KernelDef([], [(0, 1)])), valuation, bytes)
    ensures var g := Misnumbered(KernelDef([], [(0, 1)]));
      && !InplaceNumbered(g, g.nodes[1]) && |run[2].buffer| == 3 && run[2].buffer[2] == run[2].buffer[0]
      && bytes[0] == 16 && bytes[2] == 32 && !AsLargeAsRoot(run[2], Defined(g), bytes)
  {
    var g := Misnumbered(KernelDef([], [(0, 1)]));
    MisnumberedDecision(g, KernelDef([], [(0, 1)]), run);
    OutputBuffer(g, run, 1, 2);
    MisnumberedSizes(g, KernelDef([], [(0, 1)]));
    MisnumberedDefined(g, KernelDef([], [(0, 1)]));
    MisnumberedBytes(g, KernelDef([], [(0, 1)]), valuation, bytes);
  }

  lemma MisnumberedSizes(g: Graph, kernel: KernelDef)
    requires g == Misnumbered(kernel) && kernel.mayInplace == [(0, 1)]
    ensures !InplaceNumbered(g, g.nodes[1]) && !SameSizeOf(g, 0, 2)
  {
    var n := g.nodes[1];
    MisnumberedArguments(g, kernel);
    var four, eight := [DimValue(4)], [DimValue(8)];
    assert !SameDim(four[0], eight[0]);
    assert Position(n.outputs, 2) == 1;
    assert n.outputs[2] == Some(2) && (0, Position(n.outputs, 2)) in n.kernel.value.mayInplace;
    assert !ComparesOwnSize(g, n, 2);
  }

  /** The pair (0, 1) as an alias: in every run value 2, whose index is 2, shares the buffer of value 0
      without having been declared its alias. */
  lemma MisnumberedAliases(run: seq<State>)
    requires IsRun(Misnumbered(KernelDef([(0, 1)], [])), run)
    ensures var g := Misnumbered(KernelDef([(0, 1)], []));
      && !AliasesNumbered(g.nodes[1]) && !Aliased(g.nodes[1], 2, 0)
      && |run[2].buffer| == 3 && run[2].buffer[2] == run[2].buffer[0]
  {
    var g := Misnumbered(KernelDef([(0, 1)], []));
    var n := g.nodes[1];
    MisnumberedDecision(g, KernelDef([(0, 1)], []), run);
    OutputBuffer(g, run, 1, 2);
    DecisionAtJustified(g, run[1], n, 2);
    assert Aliased(n, Position(n.outputs, 2), 0);
    FindAliasFinds([(0, 1)], n.inputs, 2);
    assert !Aliased(n, 2, 0);
    assert n.outputs[2].Some?;
  }
}
