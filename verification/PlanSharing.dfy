/** What values that share a buffer hold: contents that are needed at the same time are equal. */
module PlanSharing {
  import opened Prelude
  import opened PlannerGraph
  import opened PlannerState
  import opened PlannerAccounting
  import opened PlannerExecution
  import opened Executor

  /** Two values in one buffer that both have a use to come hold the same content when each has a
      buffer to itself. */
  lemma LiveSharersEqual<T(!new)>(g: Graph, run: seq<State>, f: Kernels<T>, frees: seq<set<Id>>, own: seq<Id>,
                                  none: seq<set<Id>>, start: map<Id, T>, k: nat, u: Id, v: Id)
    requires IsRun(g, run) && Setting(g, run[|g.nodes|], f, frees, own, none, start) && k <= |g.nodes|
    requires u in DefinedBefore(g, k) && Count(PendingAt(g, k), u) > 0 && u < |run[|g.nodes|].buffer|
    requires v in DefinedBefore(g, k) && Count(PendingAt(g, k), v) > 0 && v < |run[|g.nodes|].buffer|
    requires run[|g.nodes|].buffer[u] == run[|g.nodes|].buffer[v]
    ensures var private := MemoryBefore(g, f, own, none, start, k);
      u in private && v in private && private[u] == private[v]
  {
    PlannedRunAgrees(g, run, f, frees, own, none, start, k);
    var buffer := run[|g.nodes|].buffer;
    var planned, private := MemoryBefore(g, f, buffer, frees, start, k), MemoryBefore(g, f, own, none, start, k);
    assert Holds(buffer, planned, private, u);
    assert Holds(buffer, planned, private, v);
  }

  // ----- one node with private buffers ------------------------------------------------------

  lemma {:induction false} WritePrivate<T>(outputs: seq<Option<Id>>, own: seq<Id>, mem: map<Id, T>, contents: seq<T>,
                                           i: nat, j: nat)
    requires i < j <= |outputs| && |contents| == |outputs| && outputs[i].Some? && NoDuplicates(Existing(outputs))
    requires forall v :: 0 <= v < |own| ==> own[v] == v
    requires forall m :: 0 <= m < |outputs| && outputs[m].Some? ==> outputs[m].value < |own|
    ensures var mem' := Write(outputs, own, mem, contents, j);
      outputs[i].value in mem' && mem'[outputs[i].value] == contents[i]
  {
    if i + 1 < j {
      WritePrivate(outputs, own, mem, contents, i, j - 1);
      if outputs[j - 1].Some? {
        PositionHolds(outputs, i);
        PositionHolds(outputs, j - 1);
        PositionGrows(outputs, i, j - 1);
      }
    }
  }

  /** After node `k` each output holds what the kernel computed, and what was there before is kept. */
  lemma PrivateStep<T(!new)>(g: Graph, f: Kernels<T>, own: seq<Id>, none: seq<set<Id>>, start: map<Id, T>, k: nat)
    requires WellFormed(g) && Honours(g, f) && Private(g, own, none) && k < |g.nodes|
    ensures var before, after := MemoryBefore(g, f, own, none, start, k), MemoryBefore(g, f, own, none, start, k + 1);
      && |Compute(g, f, own, before, k)| == |g.nodes[k].outputs|
      && (forall j :: 0 <= j < |g.nodes[k].outputs| && g.nodes[k].outputs[j].Some? ==>
            var out := g.nodes[k].outputs[j].value; out in after && after[out] == Compute(g, f, own, before, k)[j])
      && (forall v :: v in DefinedBefore(g, k) && v in before ==> v in after && after[v] == before[v])
  {
    var n := g.nodes[k];
    var before, after := MemoryBefore(g, f, own, none, start, k), MemoryBefore(g, f, own, none, start, k + 1);
    WellFormedNode(g, k);
    assert NodeWellFormed(g, k);
    var outs := Compute(g, f, own, before, k);
    assert NodeHonours(n, Read(n.inputs, own, before), outs);
    assert after == Write(n.outputs, own, before, outs, |n.outputs|);
    forall j | 0 <= j < |n.outputs| && n.outputs[j].Some?
      ensures var out := n.outputs[j].value; out in after && after[out] == outs[j]
    {
      WritePrivate(n.outputs, own, before, outs, j, |n.outputs|);
    }
    forall v | v in DefinedBefore(g, k) && v in before ensures v in after && after[v] == before[v] {
      forall i | 0 <= i < |n.outputs| && n.outputs[i].Some? ensures own[n.outputs[i].value] != v {
        ExistingMember(n.outputs, n.outputs[i].value);
      }
      WriteLeaves(n.outputs, own, before, outs, |n.outputs|, v);
    }
  }

  // ----- an output and the values it shares its buffer with ---------------------------------

  ghost predicate TakesCopy(d: Decision)
  {
    d.AliasInput? || d.ShareInput?
  }

  /** An output placed by aliasing or sharing holds what its source holds. */
  lemma CopyHoldsSource<T(!new)>(g: Graph, run: seq<State>, f: Kernels<T>, frees: seq<set<Id>>, own: seq<Id>,
                                 none: seq<set<Id>>, start: map<Id, T>, k: nat, j: nat)
    requires IsRun(g, run) && Setting(g, run[|g.nodes|], f, frees, own, none, start) && k < |g.nodes|
    requires j < |g.nodes[k].outputs| && g.nodes[k].outputs[j].Some?
    requires Shaped(g, run[k]) && NodeInRange(g, g.nodes[k]) && TakesCopy(DecisionAt(g, run[k], g.nodes[k], j))
    ensures var before, after := MemoryBefore(g, f, own, none, start, k), MemoryBefore(g, f, own, none, start, k + 1);
      var out, source := g.nodes[k].outputs[j].value, DecisionAt(g, run[k], g.nodes[k], j).source;
      && source in DefinedBefore(g, k) && source < |g.values| && Count(PendingAt(g, k), source) > 0
      && source in before && out in after && after[out] == before[source]
  {
    var n := g.nodes[k];
    var before := MemoryBefore(g, f, own, none, start, k);
    var d := DecisionAt(g, run[k], n, j);
    SameReads(g, run, f, frees, own, none, start, k);
    PrivateStep(g, f, own, none, start, k);
    assert NodeWellFormed(g, k);
    ArgsReady(g, k, n.inputs);
    var ins := Read(n.inputs, own, before);
    assert NodeHonours(n, ins, Compute(g, f, own, before, k));
    OutputCopies(g, run[k], n, j, ins, Compute(g, f, own, before, k));
    var slot := if d.AliasInput? then d.slot else 0;
    assert n.inputs[slot] == Some(d.source);
    assert ins[slot] == Fetch(n.inputs[slot], own, before);
  }

  /** A second output that is placed by aliasing or sharing aliases an input in its buffer. */
  lemma CopyInItsBuffer(g: Graph, run: seq<State>, k: nat, j: nat)
    requires IsRun(g, run) && 0 < j && k < |g.nodes| && j < |g.nodes[k].outputs| && g.nodes[k].outputs[j].Some?
    requires Shaped(g, run[k]) && NodeInRange(g, g.nodes[k]) && Shaped(g, run[|g.nodes|])
    requires TakesCopy(DecisionAt(g, run[k], g.nodes[k], j))
    ensures var n, d, buffer := g.nodes[k], DecisionAt(g, run[k], g.nodes[k], j), run[|g.nodes|].buffer;
      && d.AliasInput? && d.slot < |n.inputs| && n.inputs[d.slot].Some? && Aliased(n, Position(n.outputs, j), d.slot)
      && buffer[n.inputs[d.slot].value] == buffer[n.outputs[j].value]
  {
    assert NodeWellFormed(g, k);
    DecisionAtJustified(g, run[k], g.nodes[k], j);
    PlacementsHarmless(g, run, k, j);
  }

  /** An earlier output of the same node in the same buffer was placed by aliasing or sharing too. */
  lemma EarlierSharerIsCopy(g: Graph, run: seq<State>, k: nat, i: nat, j: nat)
    requires IsRun(g, run) && k < |g.nodes| && i < j < |g.nodes[k].outputs| && AliasesApart(g.nodes[k])
    requires g.nodes[k].outputs[i].Some? && g.nodes[k].outputs[j].Some?
    requires Shaped(g, run[k]) && NodeInRange(g, g.nodes[k]) && Shaped(g, run[|g.nodes|])
    requires TakesCopy(DecisionAt(g, run[k], g.nodes[k], j))
    requires run[|g.nodes|].buffer[g.nodes[k].outputs[i].value] == run[|g.nodes|].buffer[g.nodes[k].outputs[j].value]
    ensures TakesCopy(DecisionAt(g, run[k], g.nodes[k], i))
  {
    CopyInItsBuffer(g, run, k, j);
    var n, slot := g.nodes[k], DecisionAt(g, run[k], g.nodes[k], j).slot;
    var e := DecisionAt(g, run[k], n, i);
    DecisionAtJustified(g, run[k], n, i);
    PlacementsHarmless(g, run, k, i);
    SharedInputMeansAlias(g, run[|g.nodes|].buffer, k, i, e, slot);
    if e.OverwriteInput? {
      AliasedNotTaken(g, run[k], n, slot, j, i + 1);
    }
  }

  /** When an output is placed by aliasing or sharing, whatever else is in the buffer and has a
      later use holds the same content as the output. */
  lemma CopySharersEqual<T(!new)>(g: Graph, run: seq<State>, f: Kernels<T>, frees: seq<set<Id>>, own: seq<Id>,
                                  none: seq<set<Id>>, start: map<Id, T>, k: nat, j: nat, v: Id)
    requires IsRun(g, run) && Setting(g, run[|g.nodes|], f, frees, own, none, start) && k < |g.nodes|
    requires j < |g.nodes[k].outputs| && g.nodes[k].outputs[j].Some?
    requires Shaped(g, run[k]) && NodeInRange(g, g.nodes[k]) && Shaped(g, run[|g.nodes|])
    requires TakesCopy(DecisionAt(g, run[k], g.nodes[k], j))
    requires v in PlacedAfter(DefinedBefore(g, k), g.nodes[k], j) && v < |g.values| && Count(PendingAt(g, k + 1), v) > 0
    requires run[|g.nodes|].buffer[v] == run[|g.nodes|].buffer[g.nodes[k].outputs[j].value]
    ensures var after, out := MemoryBefore(g, f, own, none, start, k + 1), g.nodes[k].outputs[j].value;
      v in after && out in after && after[v] == after[out]
  {
    var n, d := g.nodes[k], DecisionAt(g, run[k], g.nodes[k], j);
    CopyHoldsSource(g, run, f, frees, own, none, start, k, j);
    PlacementsHarmless(g, run, k, j);
    if v in DefinedBefore(g, k) {
      InputsReady(g, k);
      CountConcat(Released(n), PendingAt(g, k + 1), v);
      LiveSharersEqual(g, run, f, frees, own, none, start, k, d.source, v);
      PrivateStep(g, f, own, none, start, k);
    } else {
      ExistingPrefix(n.outputs, j);
      IdSetMember(Existing(n.outputs[..j]), v);
      ExistingMember(n.outputs[..j], v);
      var i :| 0 <= i < j && n.outputs[i] == Some(v);
      EarlierSharerIsCopy(g, run, k, i, j);
      CopyHoldsSource(g, run, f, frees, own, none, start, k, i);
      PlacementsHarmless(g, run, k, i);
      LiveSharersEqual(g, run, f, frees, own, none, start, k, d.source, DecisionAt(g, run[k], n, i).source);
    }
  }

  /** An output takes the buffer of an earlier value only as its alias, or once that value has no
      use after the node: live ranges of sharers that are not aliases do not overlap. */
  lemma LiveRangesDisjoint(g: Graph, run: seq<State>, k: nat, j: nat, v: Id)
    requires IsRun(g, run) && k < |g.nodes|
    requires j < |g.nodes[k].outputs| && g.nodes[k].outputs[j].Some?
    requires v in PlacedAfter(DefinedBefore(g, k), g.nodes[k], j) && v < |run[|g.nodes|].buffer|
    requires g.nodes[k].outputs[j].value < |run[|g.nodes|].buffer|
    requires run[|g.nodes|].buffer[v] == run[|g.nodes|].buffer[g.nodes[k].outputs[j].value]
    ensures Shaped(g, run[k]) && NodeInRange(g, g.nodes[k])
    ensures var d := DecisionAt(g, run[k], g.nodes[k], j);
      TakesCopy(d) || Count(PendingAt(g, k + 1), v) == 0
  {
    PlacementsHarmless(g, run, k, j);
    var d := DecisionAt(g, run[k], g.nodes[k], j);
    DecisionAtJustified(g, run[k], g.nodes[k], j);
    if Count(PendingAt(g, k + 1), v) > 0 {
      LaterUseMeansAlias(g, run[|g.nodes|].buffer, k, j, d, v);
    }
  }

  /** Whenever an output is given the buffer of an earlier value, that value has no use after the
      node, or it holds the same content as the output. */
  lemma NothingLiveIsLost<T(!new)>(g: Graph, run: seq<State>, f: Kernels<T>, frees: seq<set<Id>>, own: seq<Id>,
                                   none: seq<set<Id>>, start: map<Id, T>, k: nat, j: nat, v: Id)
    requires IsRun(g, run) && Setting(g, run[|g.nodes|], f, frees, own, none, start) && k < |g.nodes|
    requires j < |g.nodes[k].outputs| && g.nodes[k].outputs[j].Some?
    requires v in PlacedAfter(DefinedBefore(g, k), g.nodes[k], j) && v < |run[|g.nodes|].buffer|
    requires g.nodes[k].outputs[j].value < |run[|g.nodes|].buffer|
    requires run[|g.nodes|].buffer[v] == run[|g.nodes|].buffer[g.nodes[k].outputs[j].value]
    ensures var after, out := MemoryBefore(g, f, own, none, start, k + 1), g.nodes[k].outputs[j].value;
      Count(PendingAt(g, k + 1), v) == 0 || (v in after && out in after && after[v] == after[out])
  {
    LiveRangesDisjoint(g, run, k, j, v);
    RunShaped(g, run, |g.nodes|);
    if Count(PendingAt(g, k + 1), v) > 0 {
      CopySharersEqual(g, run, f, frees, own, none, start, k, j, v);
    }
  }
}
