/** In which order the planner tries its rules, said without reference to how it searches. */
module PlannerRules {
  import opened Prelude
  import opened PlannerGraph
  import opened PlannerState

  /** The argument in a slot, if the slot exists and holds one. */
  function Argument(n: Node, slot: int): (arg: Option<Id>)
  {
    if 0 <= slot < |n.inputs| then n.inputs[slot] else None
  }

  /** Alias pair `i` gives the output this slot, and the pairs before it give it no argument. */
  ghost predicate FirstAlias(n: Node, outputNum: nat, i: nat, slot: nat)
  {
    && n.kernel.Some? && i < |n.kernel.value.alias| && n.kernel.value.alias[i] == (slot, outputNum)
    && Argument(n, slot).Some?
    && forall j :: 0 <= j < i && n.kernel.value.alias[j].1 == outputNum ==> Argument(n, n.kernel.value.alias[j].0).None?
  }

  ghost predicate NoAlias(n: Node, outputNum: nat)
  {
    n.kernel.Some? ==> forall slot: int :: (slot, outputNum as int) in n.kernel.value.alias ==> Argument(n, slot).None?
  }

  /** The slot holds an argument whose buffer has just the one use left, and whose size is that of
      the output with this index. */
  ghost predicate Spent(g: Graph, st: State, n: Node, slot: int, outputNum: nat)
    requires Shaped(g, st) && NodeInRange(g, n) && outputNum < |n.outputs|
  {
    && Argument(n, slot).Some? && st.use[st.buffer[Argument(n, slot).value]] == 1
    && n.outputs[outputNum].Some? && SameSize(g.values[Argument(n, slot).value], g.values[n.outputs[outputNum].value])
  }

  /** In-place pair `i` gives the output this slot, which is spent, and those before it none that is. */
  ghost predicate FirstInplace(g: Graph, st: State, n: Node, outputNum: nat, i: nat, slot: nat)
    requires Shaped(g, st) && NodeInRange(g, n) && outputNum < |n.outputs|
  {
    && n.kernel.Some? && i < |n.kernel.value.mayInplace| && n.kernel.value.mayInplace[i] == (slot, outputNum)
    && Spent(g, st, n, slot, outputNum)
    && forall j :: 0 <= j < i && n.kernel.value.mayInplace[j].1 == outputNum ==>
         !Spent(g, st, n, n.kernel.value.mayInplace[j].0, outputNum)
  }

  ghost predicate NoInplace(g: Graph, st: State, n: Node, outputNum: nat)
    requires Shaped(g, st) && NodeInRange(g, n) && outputNum < |n.outputs|
  {
    n.kernel.Some? ==> forall slot: int :: (slot, outputNum as int) in n.kernel.value.mayInplace ==>
      !Spent(g, st, n, slot, outputNum)
  }

  /** Free buffers are looked at only for a known shape, without a fence, in sequential plans. */
  ghost predicate MayRecycle(g: Graph, out: Id)
    requires out < |g.values|
  {
    g.values[out].shape.Some? && !g.values[out].fence && !g.parallel
  }

  /** The buffer is where the output must be, and as large. */
  ghost predicate Serves(g: Graph, source: Id, out: Id)
    requires source < |g.values| && out < |g.values|
  {
    g.values[source].location == g.values[out].location && SameSize(g.values[source], g.values[out])
  }

  ghost predicate NoneServes(g: Graph, st: State, out: Id, n: nat)
    requires Shaped(g, st) && out < |g.values| && n <= |st.free|
  {
    forall i :: 0 <= i < n ==> !Serves(g, st.free[i].value, out)
  }

  ghost predicate PassThrough(g: Graph, st: State, n: Node)
    requires Shaped(g, st) && NodeInRange(g, n)
  {
    g.insideLoop && n.isIdentity && st.kind[n.inputs[0].value] == KPreExisting
  }

  lemma {:induction false} FindAliasFirst(pairs: seq<(int, int)>, inputs: seq<Option<Id>>, outputNum: nat)
    returns (i: nat)
    requires FindAlias(pairs, inputs, outputNum).Some?
    ensures i < |pairs| && PairApplies(pairs[i], inputs, outputNum) &&
      pairs[i].0 == FindAlias(pairs, inputs, outputNum).value
    ensures forall j :: 0 <= j < i ==> !PairApplies(pairs[j], inputs, outputNum)
  {
    if PairApplies(pairs[0], inputs, outputNum) {
      i := 0;
    } else {
      var rest := FindAliasFirst(pairs[1..], inputs, outputNum);
      i := rest + 1;
      assert forall j :: 1 <= j < i ==> pairs[j] == pairs[1..][j - 1];
    }
  }

  lemma {:induction false} FindInplaceFirst(g: Graph, st: State, n: Node, pairs: seq<(int, int)>, outputNum: nat)
    returns (i: nat)
    requires Shaped(g, st) && ArgsInRange(g, n.inputs) && ArgsInRange(g, n.outputs) && outputNum < |n.outputs|
    requires FindInplace(g, st, n, pairs, outputNum).Some?
    ensures i < |pairs| && InplaceApplies(g, st, n, pairs[i], outputNum)
    ensures pairs[i].0 == FindInplace(g, st, n, pairs, outputNum).value
    ensures forall j :: 0 <= j < i ==> !InplaceApplies(g, st, n, pairs[j], outputNum)
  {
    if InplaceApplies(g, st, n, pairs[0], outputNum) {
      i := 0;
    } else {
      var rest := FindInplaceFirst(g, st, n, pairs[1..], outputNum);
      i := rest + 1;
      assert forall j :: 1 <= j < i ==> pairs[j] == pairs[1..][j - 1];
    }
  }

  /** Each rule is applied exactly when no earlier rule applies, and picks its first candidate. */
  ghost predicate InPriority(g: Graph, st: State, n: Node, outputNum: nat, out: Id, d: Decision)
    requires Shaped(g, st) && NodeInRange(g, n) && outputNum < |n.outputs| && out < |g.values|
  {
    match d
    case ShareInput(source) => out in g.outputs && PassThrough(g, st, n) && Some(source) == n.inputs[0]
    case OwnOutput => out in g.outputs && !PassThrough(g, st, n)
    case AliasInput(slot, source) =>
      && out !in g.outputs && g.values[out].isTensor && slot < |n.inputs| && n.inputs[slot] == Some(source)
      && exists i: nat :: FirstAlias(n, outputNum, i, slot)
    case OverwriteInput(slot, source) =>
      && out !in g.outputs && g.values[out].isTensor && slot < |n.inputs| && n.inputs[slot] == Some(source)
      && NoAlias(n, outputNum)
      && exists i: nat :: FirstInplace(g, st, n, outputNum, i, slot)
    case Recycle(index, source) =>
      && out !in g.outputs && g.values[out].isTensor && NoAlias(n, outputNum) && NoInplace(g, st, n, outputNum)
      && MayRecycle(g, out) && index < |st.free| && st.free[index].value == source
      && Serves(g, source, out) && NoneServes(g, st, out, index)
    case OwnBuffer =>
      && out !in g.outputs
      && (g.values[out].isTensor ==>
            && NoAlias(n, outputNum) && NoInplace(g, st, n, outputNum)
            && (MayRecycle(g, out) ==> NoneServes(g, st, out, |st.free|)))
  }

  lemma InputPriority(g: Graph, st: State, n: Node, outputNum: nat, out: Id)
    requires Shaped(g, st) && NodeInRange(g, n) && outputNum < |n.outputs| && out < |g.values|
    requires out !in g.outputs && g.values[out].isTensor
    ensures var d := ReusableInput(g, st, n, outputNum);
      if d.Some? then (d.value.AliasInput? || d.value.OverwriteInput?) && InPriority(g, st, n, outputNum, out, d.value)
      else NoAlias(n, outputNum) && NoInplace(g, st, n, outputNum)
  {
    if n.kernel.Some? {
      var kernel := n.kernel.value;
      FindAliasFinds(kernel.alias, n.inputs, outputNum);
      FindInplaceFinds(g, st, n, kernel.mayInplace, outputNum);
      if FindAlias(kernel.alias, n.inputs, outputNum).Some? {
        var i := FindAliasFirst(kernel.alias, n.inputs, outputNum);
        assert FirstAlias(n, outputNum, i, kernel.alias[i].0);
      } else if FindInplace(g, st, n, kernel.mayInplace, outputNum).Some? {
        var i := FindInplaceFirst(g, st, n, kernel.mayInplace, outputNum);
        assert FirstInplace(g, st, n, outputNum, i, kernel.mayInplace[i].0);
      }
    }
  }

  lemma DecisionInPriority(g: Graph, st: State, n: Node, outputNum: nat, out: Id)
    requires Shaped(g, st) && NodeInRange(g, n) && outputNum < |n.outputs| && out < |g.values|
    ensures InPriority(g, st, n, outputNum, out, Decide(g, st, n, outputNum, out))
  {
    FindFreeFinds(g, st.free, g.values[out]);
    if out !in g.outputs && g.values[out].isTensor {
      InputPriority(g, st, n, outputNum, out);
    }
  }
}
