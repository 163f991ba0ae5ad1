/** What the planner's bookkeeping means: the vocabulary of its invariants. */
module PlannerLedger {
  import opened Prelude
  import opened PlannerGraph
  import opened PlannerState

  /** How many of the outstanding uses are of a value living in `root`. */
  ghost function CountRoot(buffer: seq<Id>, pending: seq<Id>, root: Id): (c: nat)
    requires forall i :: 0 <= i < |pending| ==> pending[i] < |buffer|
  {
    if pending == [] then 0
    else (if buffer[pending[0]] == root then 1 else 0) + CountRoot(buffer, pending[1..], root)
  }

  /** The same, value by value: over the values living in `root`, the sum of the uses each
      still has. */
  ghost function ClassUses(buffer: seq<Id>, pending: seq<Id>, root: Id, n: nat): (c: nat)
    requires n <= |buffer|
  {
    if n == 0 then 0
    else ClassUses(buffer, pending, root, n - 1) + if buffer[n - 1] == root then Count(pending, n - 1) else 0
  }

  ghost predicate IsFree(free: seq<FreeBuffer>, r: Id)
  {
    exists i :: 0 <= i < |free| && free[i].value == r
  }

  ghost predicate FreeOnce(free: seq<FreeBuffer>)
  {
    forall i, j :: 0 <= i < j < |free| ==> free[i].value != free[j].value
  }

  /** The placed values are in the same buffers as in the state. */
  ghost predicate SameBuffers(g: Graph, st: State, buffer: seq<Id>, placed: set<Id>)
  {
    |buffer| == |st.buffer| == |g.values| &&
    forall v {:trigger buffer[v]} :: v in placed ==> v < |g.values| && buffer[v] == st.buffer[v]
  }

  /** Every buffer index is one hop from the buffer it stands for, and a value that has
      not been placed yet is alone in its own. */
  ghost predicate Rooted(g: Graph, st: State, placed: set<Id>)
  {
    && Shaped(g, st)
    && (forall v :: v in Defined(g) ==> v < |g.values|)
    && placed <= Defined(g)
    && (forall v {:trigger st.buffer[v]} :: v in placed ==>
          st.buffer[v] in placed && st.buffer[st.buffer[v]] == st.buffer[v])
    && (forall v {:trigger st.buffer[v]} :: v in Defined(g) && v !in placed ==> st.buffer[v] == v && st.use[v] > 0)
  }

  /** Every buffer's count is the number of outstanding uses of the values living in it. */
  ghost predicate Counted(g: Graph, st: State, placed: set<Id>, pending: seq<Id>)
    requires Rooted(g, st, placed)
  {
    && AllIn(pending, Defined(g))
    && (forall r {:trigger st.use[r]} {:trigger CountRoot(st.buffer, pending, r)} ::
          r in Defined(g) && st.buffer[r] == r ==> st.use[r] == CountRoot(st.buffer, pending, r))
  }

  /** The free list holds exactly the buffers nobody uses, each once. */
  ghost predicate FreeExact(g: Graph, st: State)
    requires Shaped(g, st) && forall v :: v in Defined(g) ==> v < |g.values|
  {
    && (forall r: Id {:trigger IsFree(st.free, r)} ::
          IsFree(st.free, r) <==> r in Defined(g) && st.buffer[r] == r && st.use[r] == 0)
    && FreeOnce(st.free)
  }

  /** `placed` are the values that already have a buffer; `pending` the outstanding uses. */
  ghost predicate Accounted(g: Graph, st: State, placed: set<Id>, pending: seq<Id>)
  {
    Rooted(g, st, placed) && Counted(g, st, placed, pending) && FreeExact(g, st)
  }

  /** Every value of the buffer has had its last use by step `e.point`, and one of them
      has it exactly then. */
  ghost predicate Dead(g: Graph, buffer: seq<Id>, placed: set<Id>, e: FreeBuffer)
  {
    match e
    case FreeBuffer(root, point) =>
      && point < |g.nodes|
      && (forall v {:trigger buffer[v]} ::
            v in placed && v < |buffer| && buffer[v] == root ==> Count(PendingAt(g, point + 1), v) == 0)
      && (exists v {:trigger buffer[v]} ::
            v in placed && v < |buffer| && buffer[v] == root && Count(Released(g.nodes[point]), v) > 0)
  }

  ghost predicate MostRecentFirst(free: seq<FreeBuffer>)
  {
    forall i, j :: 0 <= i < j < |free| ==> free[i].point >= free[j].point
  }

  ghost predicate PointsBelow(free: seq<FreeBuffer>, limit: nat)
  {
    forall i :: 0 <= i < |free| ==> free[i].point < limit
  }

  /** Every entry is dead, and became so before step `limit`. */
  ghost predicate AllDead(g: Graph, buffer: seq<Id>, free: seq<FreeBuffer>, placed: set<Id>, limit: nat)
  {
    forall i {:trigger Dead(g, buffer, placed, free[i])} ::
      0 <= i < |free| ==> Dead(g, buffer, placed, free[i]) && free[i].point < limit
  }

  ghost predicate FreeListOk(g: Graph, st: State, placed: set<Id>, limit: nat)
  {
    AllDead(g, st.buffer, st.free, placed, limit) && MostRecentFirst(st.free)
  }

  // ----- counting the uses -----------------------------------------------------------------

  /** The first `k` nodes have a kernel and an execution provider. */
  ghost predicate Assigned(g: Graph, k: nat)
    requires k <= |g.nodes|
  {
    forall i :: 0 <= i < k ==> g.nodes[i].kernel.Some? && g.nodes[i].hasProvider
  }

  /** Counts and buffers once the caller's values and the first `k` nodes have been counted. */
  ghost predicate CountedTo(g: Graph, use: seq<int>, buffer: seq<Id>, k: nat)
    requires k <= |g.nodes| && |use| == |buffer| == |g.values|
  {
    && (forall v :: 0 <= v < |g.values| ==>
          use[v] == Count(Distinct(CallerOwned(g)), v) + Count(ReleasedBefore(g, k), v))
    && (forall v :: 0 <= v < |g.values| ==> buffer[v] == (if v in DefinedBefore(g, k) then v else 0))
  }

  /** Counts that started as `base` and have risen by one for each id seen. */
  ghost predicate UsesAre(use: seq<int>, base: seq<int>, seen: seq<Id>)
  {
    |use| == |base| && forall v :: 0 <= v < |use| ==> use[v] == base[v] + Count(seen, v)
  }

  /** Buffers that started as `base`, where each id seen has got its own. */
  ghost predicate BuffersAre(buffer: seq<Id>, base: seq<Id>, seen: seq<Id>)
  {
    |buffer| == |base| && forall v :: 0 <= v < |buffer| ==> buffer[v] == if v in seen then v else base[v]
  }
}
