/** What the sequential allocation planner is given: a graph in topological order whose
    values are already numbered, the kernels bound to its nodes, and what is known
    statically about every value. */
module PlannerGraph {
  import opened Prelude

  type Id = nat

  datatype Dim = AnyDim | DimValue(value: int) | DimParam(name: string)

  datatype ValueInfo = ValueInfo(
    shape: Option<seq<Dim>>,
    elementSize: nat,
    isString: bool,
    isTensor: bool,
    location: int,
    fence: bool)

  /** Pairs (input slot, output slot). */
  datatype KernelDef = KernelDef(alias: seq<(int, int)>, mayInplace: seq<(int, int)>)

  datatype Node = Node(
    inputs: seq<Option<Id>>,
    implicitInputs: seq<Option<Id>>,
    outputs: seq<Option<Id>>,
    kernel: Option<KernelDef>,
    hasProvider: bool,
    isIdentity: bool)

  datatype Graph = Graph(
    values: seq<ValueInfo>,
    inputs: seq<Id>,
    outerScope: seq<Id>,
    initializers: seq<Id>,
    nodes: seq<Node>,
    outputs: seq<Id>,
    insideLoop: bool,
    parallel: bool)

  /** Values whose buffers this graph does not own. */
  function CallerOwned(g: Graph): (ids: seq<Id>)
  {
    g.inputs + g.outerScope + g.initializers
  }

  function IdSet(ids: seq<Id>): (s: set<Id>)
  {
    if ids == [] then {} else IdSet(ids[..|ids| - 1]) + {ids[|ids| - 1]}
  }

  lemma {:induction false} IdSetMember(ids: seq<Id>, v: Id)
    ensures v in IdSet(ids) <==> v in ids
  {
    if ids != [] {
      IdSetMember(ids[..|ids| - 1], v);
      assert ids == ids[..|ids| - 1] + [ids[|ids| - 1]];
    }
  }

  lemma IdSetAll(ids: seq<Id>)
    ensures AllIn(ids, IdSet(ids))
  {
    forall i | 0 <= i < |ids| ensures ids[i] in IdSet(ids) {
      IdSetMember(ids, ids[i]);
    }
  }

  /** Values that exist before node `k` runs. */
  function DefinedBefore(g: Graph, k: nat): (ids: set<Id>)
    requires k <= |g.nodes|
  {
    if k == 0 then IdSet(CallerOwned(g))
    else DefinedBefore(g, k - 1) + IdSet(Existing(g.nodes[k - 1].outputs))
  }

  function Defined(g: Graph): (ids: set<Id>)
  {
    DefinedBefore(g, |g.nodes|)
  }

  ghost predicate AllIn(ids: seq<Id>, s: set<Id>)
  {
    forall i :: 0 <= i < |ids| ==> ids[i] in s
  }

  /** Node `k` reads only earlier values and defines fresh ones. */
  ghost predicate NodeWellFormed(g: Graph, k: nat)
    requires k < |g.nodes|
  {
    var n := g.nodes[k];
    && AllIn(Existing(n.inputs), DefinedBefore(g, k))
    && AllIn(Existing(n.implicitInputs), DefinedBefore(g, k))
    && NoDuplicates(Existing(n.outputs))
    && (forall i :: 0 <= i < |Existing(n.outputs)| ==> Existing(n.outputs)[i] !in DefinedBefore(g, k))
    && (n.isIdentity ==> |n.inputs| > 0 && n.inputs[0].Some? && |n.outputs| == 1)
  }

  /** A resolved model: single assignment, topologically sorted, every value numbered. */
  ghost predicate WellFormed(g: Graph)
  {
    && (forall v :: v in Defined(g) ==> v < |g.values|)
    && (forall k :: 0 <= k < |g.nodes| ==> NodeWellFormed(g, k))
    && AllIn(g.outputs, Defined(g))
  }

  lemma {:induction false} DefinedGrows(g: Graph, j: nat, k: nat)
    requires j <= k <= |g.nodes|
    ensures DefinedBefore(g, j) <= DefinedBefore(g, k)
    decreases k - j
  {
    if j < k {
      DefinedGrows(g, j + 1, k);
    }
  }

  /** The uses a node gives back once it has run: one per read and one per output it
      produced, in the order the planner gives them back. */
  function Released(n: Node): (ids: seq<Id>)
  {
    Existing(n.inputs) + Existing(n.implicitInputs) + Existing(n.outputs)
  }

  function ReleasedBefore(g: Graph, k: nat): (ids: seq<Id>)
    requires k <= |g.nodes|
  {
    if k == 0 then [] else ReleasedBefore(g, k - 1) + Released(g.nodes[k - 1])
  }

  function ReleasedFrom(g: Graph, k: nat): (ids: seq<Id>)
    requires k <= |g.nodes|
    decreases |g.nodes| - k
  {
    if k == |g.nodes| then [] else Released(g.nodes[k]) + ReleasedFrom(g, k + 1)
  }

  /** Uses that are never given back: the caller's hold on what it owns, and its use of
      the graph outputs after the run. */
  function Permanent(g: Graph): (ids: seq<Id>)
  {
    Distinct(CallerOwned(g)) + g.outputs
  }

  /** All uses outstanding when node `k` is about to be planned. */
  function PendingAt(g: Graph, k: nat): (ids: seq<Id>)
    requires k <= |g.nodes|
  {
    ReleasedFrom(g, k) + Permanent(g)
  }

  lemma {:induction false} ReleasedSplit(g: Graph, k: nat)
    requires k <= |g.nodes|
    ensures ReleasedBefore(g, k) + ReleasedFrom(g, k) == ReleasedFrom(g, 0)
  {
    if k > 0 {
      ReleasedSplit(g, k - 1);
      assert ReleasedBefore(g, k) + ReleasedFrom(g, k)
          == ReleasedBefore(g, k - 1) + (Released(g.nodes[k - 1]) + ReleasedFrom(g, k));
    }
  }

  lemma {:induction false} DistinctSubset(s: seq<nat>, v: nat)
    ensures v in Distinct(s) <==> v in s
  {
    DistinctCounts(s, v);
    CountPositive(Distinct(s), v);
  }

  lemma {:induction false} ReleasedFromDefined(g: Graph, k: nat)
    requires WellFormed(g) && k <= |g.nodes|
    ensures AllIn(ReleasedFrom(g, k), Defined(g))
    decreases |g.nodes| - k
  {
    if k < |g.nodes| {
      ReleasedFromDefined(g, k + 1);
      assert NodeWellFormed(g, k);
      DefinedGrows(g, k, |g.nodes|);
      DefinedGrows(g, k + 1, |g.nodes|);
      IdSetAll(Existing(g.nodes[k].outputs));
    }
  }

  lemma {:induction false} PendingDefined(g: Graph, k: nat)
    requires WellFormed(g) && k <= |g.nodes|
    ensures AllIn(PendingAt(g, k), Defined(g))
  {
    ReleasedFromDefined(g, k);
    DefinedGrows(g, 0, |g.nodes|);
    forall i | 0 <= i < |Permanent(g)| ensures Permanent(g)[i] in Defined(g) {
      if i < |Distinct(CallerOwned(g))| {
        DistinctSubset(CallerOwned(g), Permanent(g)[i]);
        IdSetMember(CallerOwned(g), Permanent(g)[i]);
      }
    }
  }
}
