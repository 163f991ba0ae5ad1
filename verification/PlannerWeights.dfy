/** Where initializers are allocated: at the place all their readers want them, else on the CPU. */
module PlannerWeights {
  import opened Prelude
  import opened PlannerGraph
  import opened PlannerState
  import opened Planner

  /** The place at which node `k` wants its input in slot `i`. */
  type Places = (nat, nat) -> int

  /** Node `k` reads initializer `v` in slot `i`. */
  predicate Reads(g: Graph, v: Id, k: nat, i: nat)
  {
    v in g.initializers && k < |g.nodes| && i < |g.nodes[k].inputs| && g.nodes[k].inputs[i] == Some(v)
  }

  /** Slot `i'` of node `k'` comes before slot `i` of node `k`. */
  predicate Earlier(k': nat, i': nat, k: nat, i: nat) { k' < k || (k' == k && i' < i) }

  ghost predicate IsRead(g: Graph, v: Id) { exists k, i :: Reads(g, v, k, i) }

  ghost predicate AllWant(g: Graph, place: Places, v: Id, at: int)
  {
    forall k, i :: Reads(g, v, k, i) ==> place(k, i) == at
  }

  /** An initializer nobody reads has no place; one whose readers agree is where they want it; else
      it is on the CPU. */
  ghost predicate WellPlaced(g: Graph, place: Places, cpu: int, v: Id, location: Option<int>)
  {
    && (location.Some? <==> IsRead(g, v))
    && (location.Some? ==>
          if exists at :: AllWant(g, place, v, at) then AllWant(g, place, v, location.value) else location.value == cpu)
  }

  /** `wanted` holds the places the reads of `v` before slot `i` of node `k` want, and no others. */
  ghost predicate Collected(g: Graph, place: Places, v: Id, k: nat, i: nat, wanted: seq<int>)
  {
    && (forall k', i' :: Reads(g, v, k', i') && Earlier(k', i', k, i) ==> place(k', i') in wanted)
    && (forall at :: at in wanted ==> Wanted(g, place, v, k, i, at))
  }

  ghost predicate Wanted(g: Graph, place: Places, v: Id, k: nat, i: nat, at: int)
  {
    exists k', i' :: Reads(g, v, k', i') && Earlier(k', i', k, i) && place(k', i') == at
  }

  lemma CollectedNext(g: Graph, place: Places, v: Id, k: nat, i: nat, wanted: seq<int>)
    requires k < |g.nodes| && i < |g.nodes[k].inputs| && Collected(g, place, v, k, i, wanted)
    ensures Collected(g, place, v, k, i + 1, if Reads(g, v, k, i) then wanted + [place(k, i)] else wanted)
  {
    var now := if Reads(g, v, k, i) then wanted + [place(k, i)] else wanted;
    forall at | at in now ensures Wanted(g, place, v, k, i + 1, at) {
      if at in wanted {
        var k', i' :| Reads(g, v, k', i') && Earlier(k', i', k, i) && place(k', i') == at;
        assert Earlier(k', i', k, i + 1);
      } else {
        assert Reads(g, v, k, i) && Earlier(k, i, k, i + 1);
      }
    }
  }

  lemma CollectedNode(g: Graph, place: Places, v: Id, k: nat, wanted: seq<int>)
    requires k < |g.nodes| && Collected(g, place, v, k, |g.nodes[k].inputs|, wanted)
    ensures Collected(g, place, v, k + 1, 0, wanted)
  {
    forall at | at in wanted ensures Wanted(g, place, v, k + 1, 0, at) {
      var k', i' :| Reads(g, v, k', i') && Earlier(k', i', k, |g.nodes[k].inputs|) && place(k', i') == at;
      assert Earlier(k', i', k + 1, 0);
    }
    forall k', i' | Reads(g, v, k', i') && Earlier(k', i', k + 1, 0) ensures place(k', i') in wanted {
      assert Earlier(k', i', k, |g.nodes[k].inputs|);
    }
  }

  ghost function Chosen(wanted: seq<int>, cpu: int): (location: Option<int>)
  {
    if wanted == [] then None
    else if forall j :: 0 <= j < |wanted| ==> wanted[j] == wanted[0] then Some(wanted[0])
    else Some(cpu)
  }

  /** One place from those that are wanted. */
  method Choose(wanted: seq<int>, cpu: int) returns (location: Option<int>)
    ensures location == Chosen(wanted, cpu)
  {
    if wanted == [] {
      return None;
    }
    var j := 0;
    while j < |wanted|
      invariant 0 <= j <= |wanted| && forall l :: 0 <= l < j ==> wanted[l] == wanted[0]
    {
      if wanted[j] != wanted[0] {
        return Some(cpu);
      }
      j := j + 1;
    }
    return Some(wanted[0]);
  }

  lemma ChosenWellPlaced(g: Graph, place: Places, cpu: int, v: Id, wanted: seq<int>)
    requires Collected(g, place, v, |g.nodes|, 0, wanted)
    ensures WellPlaced(g, place, cpu, v, Chosen(wanted, cpu))
  {
    if wanted != [] {
      assert Wanted(g, place, v, |g.nodes|, 0, wanted[0]);
    }
    forall k, i | Reads(g, v, k, i) ensures place(k, i) in wanted {
      assert Earlier(k, i, |g.nodes|, 0);
    }
    if at :| AllWant(g, place, v, at) {
      forall j | 0 <= j < |wanted| ensures wanted[j] == at {
        assert Wanted(g, place, v, |g.nodes|, 0, wanted[j]);
      }
    } else if wanted != [] {
      assert !AllWant(g, place, v, wanted[0]);
    }
  }

  /** The places node `k` wants are added to those wanted before. */
  method CollectNode(g: Graph, place: Places, k: nat, before: seq<seq<int>>) returns (wanted: seq<seq<int>>)
    requires WellFormed(g) && k < |g.nodes| && |before| == |g.values|
    requires forall v :: 0 <= v < |g.values| ==> Collected(g, place, v, k, 0, before[v])
    ensures |wanted| == |g.values| && forall v :: 0 <= v < |g.values| ==> Collected(g, place, v, k + 1, 0, wanted[v])
  {
    wanted := before;
    var inputs, i := g.nodes[k].inputs, 0;
    OwnedInRange(g);
    while i < |inputs|
      invariant 0 <= i <= |inputs| && |wanted| == |g.values|
      invariant forall v :: 0 <= v < |g.values| ==> Collected(g, place, v, k, i, wanted[v])
    {
      forall v | 0 <= v < |g.values|
        ensures Collected(g, place, v, k, i + 1,
                          if Reads(g, v, k, i) then wanted[v] + [place(k, i)] else wanted[v])
      {
        CollectedNext(g, place, v, k, i, wanted[v]);
      }
      if inputs[i].Some? && inputs[i].value in g.initializers {
        wanted := wanted[inputs[i].value := wanted[inputs[i].value] + [place(k, i)]];
      }
      i := i + 1;
    }
    forall v | 0 <= v < |g.values| ensures Collected(g, place, v, k + 1, 0, wanted[v]) {
      CollectedNode(g, place, v, k, wanted[v]);
    }
  }

  /** Collect the places wanted for every initializer, then choose one each. */
  method LocateWeights(g: Graph, place: Places, cpu: int) returns (locations: seq<Option<int>>)
    requires WellFormed(g)
    ensures |locations| == |g.values| && forall v :: 0 <= v < |g.values| ==> WellPlaced(g, place, cpu, v, locations[v])
  {
    var wanted: seq<seq<int>> := seq(|g.values|, _ => []);
    var k := 0;
    while k < |g.nodes|
      invariant 0 <= k <= |g.nodes| && |wanted| == |g.values|
      invariant forall v :: 0 <= v < |g.values| ==> Collected(g, place, v, k, 0, wanted[v])
    {
      wanted := CollectNode(g, place, k, wanted);
      k := k + 1;
    }
    locations := [];
    while |locations| < |g.values|
      invariant |locations| <= |g.values|
      invariant forall v :: 0 <= v < |locations| ==> WellPlaced(g, place, cpu, v, locations[v])
    {
      var v := |locations|;
      var location := Choose(wanted[v], cpu);
      ChosenWellPlaced(g, place, cpu, v, wanted[v]);
      locations := locations + [location];
    }
  }

  /** A value is given a place here exactly if the planner marks it as allocated once and for all. */
  lemma PlacedIffStatic(g: Graph, place: Places, cpu: int, v: Id, location: Option<int>)
    requires WellPlaced(g, place, cpu, v, location)
    ensures location.Some? <==> InitialKind(g, v) == KAllocateStatically
  {
    if location.Some? {
      var k: nat, i: nat :| Reads(g, v, k, i);
      assert Some(v) in g.nodes[k].inputs;
    } else if v in g.initializers && ReadBefore(g, v, |g.nodes|) {
      var k :| 0 <= k < |g.nodes| && Some(v) in g.nodes[k].inputs;
      var i :| 0 <= i < |g.nodes[k].inputs| && g.nodes[k].inputs[i] == Some(v);
      assert Reads(g, v, k, i);
    }
  }
}
