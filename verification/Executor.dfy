/** An abstract executor: a node reads its inputs from the buffers they live in, applies a
    function and writes its outputs to the buffers they live in; some buffers are released
    after each node. */
module Executor {
  import opened Prelude
  import opened PlannerGraph
  import opened PlannerState

  /** What each node's kernel computes from the contents of its inputs and implicit inputs. */
  type Kernels<!T> = (nat, seq<Option<T>>, seq<Option<T>>) -> seq<T>

  function Fetch<T>(arg: Option<Id>, buffer: seq<Id>, mem: map<Id, T>): (c: Option<T>)
  {
    if arg.Some? && arg.value < |buffer| && buffer[arg.value] in mem then Some(mem[buffer[arg.value]]) else None
  }

  function Read<T>(args: seq<Option<Id>>, buffer: seq<Id>, mem: map<Id, T>): (c: seq<Option<T>>)
  {
    seq(|args|, i requires 0 <= i < |args| => Fetch(args[i], buffer, mem))
  }

  /** Every argument that is present has been found. */
  ghost predicate AllFound<T>(args: seq<Option<Id>>, contents: seq<Option<T>>)
  {
    |args| == |contents| && forall i :: 0 <= i < |args| && args[i].Some? ==> contents[i].Some?
  }

  /** Memory once the first `j` outputs have been written. */
  function Write<T>(outputs: seq<Option<Id>>, buffer: seq<Id>, mem: map<Id, T>, contents: seq<T>, j: nat)
    : (m: map<Id, T>)
    requires j <= |outputs| && |contents| == |outputs|
    requires forall i :: 0 <= i < |outputs| && outputs[i].Some? ==> outputs[i].value < |buffer|
  {
    if j == 0 then mem
    else
      var before := Write(outputs, buffer, mem, contents, j - 1);
      if outputs[j - 1].None? then before
      else before[buffer[outputs[j - 1].value] := contents[j - 1]]
  }

  /** The input that the output with number `num` aliases: of several pairs for one output the first
      that applies. */
  predicate Aliased(n: Node, num: nat, slot: nat)
  {
    n.kernel.Some? && FindAlias(n.kernel.value.alias, n.inputs, num) == Some(slot)
  }

  /** Kernels produce one content per output, an output that aliases an input has that input's
      content, and so has the output of an Identity. The planner looks pairs up under the number of
      an output among those present. */
  ghost predicate Honours<T(!new)>(g: Graph, f: Kernels<T>)
  {
    forall k, ins, imps {:trigger f(k, ins, imps)} ::
      0 <= k < |g.nodes| && |ins| == |g.nodes[k].inputs| ==> NodeHonours(g.nodes[k], ins, f(k, ins, imps))
  }

  ghost predicate NodeHonours<T>(n: Node, ins: seq<Option<T>>, outs: seq<T>)
    requires |ins| == |n.inputs|
  {
    && |outs| == |n.outputs|
    && (forall slot, j {:trigger ins[slot], outs[j]} ::
          && 0 <= slot < |ins| && ins[slot].Some? && 0 <= j < |outs| && n.outputs[j].Some?
          && Aliased(n, Position(n.outputs, j), slot)
          ==> outs[j] == ins[slot].value)
    && (n.isIdentity && |ins| > 0 && ins[0].Some? ==> forall j :: 0 <= j < |outs| ==> outs[j] == ins[0].value)
  }

  /** No kernel aliases an input to one output and lets an earlier one overwrite it. */
  ghost predicate AliasesApart(n: Node)
  {
    forall slot: nat, num: nat, num' {:trigger Aliased(n, num, slot), (slot, num') in n.kernel.value.mayInplace} ::
      Aliased(n, num, slot) && (slot, num') in n.kernel.value.mayInplace ==> num <= num'
  }

  function Compute<T>(g: Graph, f: Kernels<T>, buffer: seq<Id>, mem: map<Id, T>, k: nat): (outs: seq<T>)
    requires k < |g.nodes|
  {
    f(k, Read(g.nodes[k].inputs, buffer, mem), Read(g.nodes[k].implicitInputs, buffer, mem))
  }

  /** Run node `k`: read, compute, write. */
  function RunNode<T>(g: Graph, f: Kernels<T>, buffer: seq<Id>, mem: map<Id, T>, k: nat): (mem': map<Id, T>)
    requires k < |g.nodes|
  {
    var outs := Compute(g, f, buffer, mem, k);
    var n := g.nodes[k];
    if |outs| == |n.outputs| &&
      (forall i :: 0 <= i < |n.outputs| && n.outputs[i].Some? ==> n.outputs[i].value < |buffer|)
    then Write(n.outputs, buffer, mem, outs, |n.outputs|)
    else mem
  }

  /** Memory before node `k` runs: earlier nodes have run and `frees` tells what was released
      after each. */
  function MemoryBefore<T>(g: Graph, f: Kernels<T>, buffer: seq<Id>, frees: seq<set<Id>>, start: map<Id, T>, k: nat)
    : (mem: map<Id, T>)
    requires k <= |g.nodes| == |frees|
  {
    if k == 0 then start
    else RunNode(g, f, buffer, MemoryBefore(g, f, buffer, frees, start, k - 1), k - 1) - frees[k - 1]
  }

  // ----- comparing two executions ------------------------------------------------------------------

  /** The planned buffer of `v` holds what its private buffer holds. */
  ghost predicate Holds<T>(buffer: seq<Id>, planned: map<Id, T>, private: map<Id, T>, v: Id)
  {
    v < |buffer| && v in private && buffer[v] in planned && planned[buffer[v]] == private[v]
  }

  /** Every placed value with a use to come is found where the plan says it is. */
  ghost predicate Agrees<T>(buffer: seq<Id>, planned: map<Id, T>, private: map<Id, T>, placed: set<Id>,
                            pending: seq<Id>)
  {
    forall v {:trigger Holds(buffer, planned, private, v)} ::
      v in placed && Count(pending, v) > 0 && v < |buffer| ==> Holds(buffer, planned, private, v)
  }

  ghost predicate AgreesAt<T>(g: Graph, buffer: seq<Id>, planned: map<Id, T>, private: map<Id, T>, k: nat)
    requires k <= |g.nodes|
  {
    Agrees(buffer, planned, private, DefinedBefore(g, k), PendingAt(g, k))
  }

  /** Memories that agree before node `k` agree after it. */
  ghost predicate StepKeepsAgreement<T(!new)>(g: Graph, f: Kernels<T>, buffer: seq<Id>, frees: seq<set<Id>>,
                                              own: seq<Id>, none: seq<set<Id>>, k: nat)
    requires k < |g.nodes| == |frees| == |none|
  {
    forall p: map<Id, T>, q: map<Id, T> {:trigger AgreesAt(g, buffer, p, q, k)} :: AgreesAt(g, buffer, p, q, k) ==>
      AgreesAt(g, buffer, RunNode(g, f, buffer, p, k) - frees[k], RunNode(g, f, own, q, k) - none[k], k + 1)
  }

  ghost predicate StepsKeepAgreement<T(!new)>(g: Graph, f: Kernels<T>, buffer: seq<Id>, frees: seq<set<Id>>,
                                              own: seq<Id>, none: seq<set<Id>>)
  {
    && |frees| == |none| == |g.nodes|
    && forall k :: 0 <= k < |g.nodes| ==> StepKeepsAgreement(g, f, buffer, frees, own, none, k)
  }

  /** The releases of a plan: only buffers of the finished free list, each at its point. */
  ghost predicate ReleasesOf(g: Graph, last: State, frees: seq<set<Id>>)
  {
    |frees| == |g.nodes| &&
    forall k, r :: 0 <= k < |frees| && r in frees[k] ==> FreeBuffer(r, k) in last.free
  }

  /** Nothing shared and nothing released. */
  ghost predicate Private(g: Graph, own: seq<Id>, none: seq<set<Id>>)
  {
    && |own| == |g.values| && (forall v :: 0 <= v < |own| ==> own[v] == v)
    && |none| == |g.nodes| && (forall k :: 0 <= k < |none| ==> none[k] == {})
  }

  ghost predicate KernelsFit<T(!new)>(g: Graph, f: Kernels<T>)
  {
    && Honours(g, f)
    && (forall k :: 0 <= k < |g.nodes| ==> AliasesApart(g.nodes[k]))
  }

  ghost predicate Supplied<T>(g: Graph, start: map<Id, T>)
  {
    forall v :: v in DefinedBefore(g, 0) ==> v in start
  }

  /** A finished plan, kernels that honour their declarations, the releases of the plan, a
      placement with nothing shared or released, and the caller's values. */
  ghost predicate Setting<T(!new)>(g: Graph, last: State, f: Kernels<T>, frees: seq<set<Id>>,
                                   own: seq<Id>, none: seq<set<Id>>, start: map<Id, T>)
  {
    && KernelsFit(g, f) && ReleasesOf(g, last, frees)
    && Private(g, own, none) && Supplied(g, start)
  }
}
