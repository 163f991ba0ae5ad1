/** The deallocation schedule: which index range of `to_be_freed` each step releases. */
module PlannerSchedule {
  import opened PlannerGraph
  import opened PlannerState
  import opened PlannerLedger
  import opened Executor

  datatype Schedule = Schedule(toBeFreed: seq<Id>, freeFrom: seq<int>, freeTo: seq<int>)

  ghost predicate Releases(sched: Schedule, step: nat, i: int)
    requires step < |sched.freeFrom| == |sched.freeTo|
  {
    sched.freeFrom[step] <= i <= sched.freeTo[step]
  }

  /** Entry `i` of the schedule, counted from the oldest. */
  ghost function EntryAt(free: seq<FreeBuffer>, i: nat): (e: FreeBuffer)
    requires i < |free|
  {
    free[|free| - 1 - i]
  }

  /** Among the oldest `n` entries the range holds exactly those freed at `step`; step 0 has
      no range. */
  ghost predicate RangeOf(free: seq<FreeBuffer>, n: nat, step: nat, from: int, to: int)
    requires n <= |free|
  {
    && (from <= to ==> 0 <= from && to < n)
    && (forall i :: 0 <= i < n ==> (from <= i <= to <==> step != 0 && EntryAt(free, i).point == step))
  }

  lemma RangeUntouched(free: seq<FreeBuffer>, n: nat, step: nat, from: int, to: int)
    requires n < |free| && RangeOf(free, n, step, from, to) && (step == 0 || EntryAt(free, n).point != step)
    ensures RangeOf(free, n + 1, step, from, to)
  {
    forall i | 0 <= i < n + 1 ensures from <= i <= to <==> step != 0 && EntryAt(free, i).point == step {
      var e := EntryAt(free, i);
    }
  }

  lemma RangeExtended(free: seq<FreeBuffer>, n: nat, step: nat, from: int)
    requires n < |free| && step != 0 && from <= n && RangeOf(free, n, step, from, n - 1)
    requires EntryAt(free, n).point == step
    ensures RangeOf(free, n + 1, step, from, n)
  {
  }

  lemma RangeStarted(free: seq<FreeBuffer>, n: nat, step: nat)
    requires n < |free| && step != 0 && EntryAt(free, n).point == step
    requires forall i :: 0 <= i < n ==> EntryAt(free, i).point < step
    ensures RangeOf(free, n + 1, step, n, n)
  {
  }

  /** The oldest entries come first, and each step's range holds exactly the entries freed
      at that step. */
  ghost predicate Schedules(free: seq<FreeBuffer>, steps: nat, sched: Schedule)
  {
    && |sched.toBeFreed| == |free| && |sched.freeFrom| == |sched.freeTo| == steps
    && (forall i :: 0 <= i < |free| ==> sched.toBeFreed[i] == EntryAt(free, i).value)
    && (forall step :: 0 <= step < steps ==>
          RangeOf(free, |free|, step, sched.freeFrom[step], sched.freeTo[step]))
  }

  lemma ReleasesExactly(free: seq<FreeBuffer>, steps: nat, sched: Schedule, step: nat, i: int)
    requires Schedules(free, steps, sched) && step < steps
    ensures Releases(sched, step, i) <==> step != 0 && 0 <= i < |free| && EntryAt(free, i).point == step
  {
    assert RangeOf(free, |free|, step, sched.freeFrom[step], sched.freeTo[step]);
    if 0 <= i < |free| {
      var e := EntryAt(free, i);
    }
  }

  /** Ranges are disjoint and follow the order of the steps. */
  lemma RangesInOrder(free: seq<FreeBuffer>, steps: nat, sched: Schedule, s: nat, i: int, s': nat, i': int)
    requires Schedules(free, steps, sched) && MostRecentFirst(free) && s < steps && s' < steps
    requires Releases(sched, s, i) && Releases(sched, s', i')
    ensures i == i' ==> s == s'
    ensures s < s' ==> i < i'
  {
    ReleasesExactly(free, steps, sched, s, i);
    ReleasesExactly(free, steps, sched, s', i');
  }

  ghost predicate Covered(sched: Schedule, i: int)
    requires |sched.freeFrom| == |sched.freeTo|
  {
    exists step :: 0 <= step < |sched.freeFrom| && Releases(sched, step, i)
  }

  /** An entry is released by some step if and only if it did not die at step 0. */
  lemma CoveredIff(free: seq<FreeBuffer>, steps: nat, sched: Schedule, i: nat)
    requires Schedules(free, steps, sched) && i < |free| && EntryAt(free, i).point < steps
    ensures Covered(sched, i) <==> EntryAt(free, i).point != 0
  {
    var point := EntryAt(free, i).point;
    ReleasesExactly(free, steps, sched, point, i);
    forall step | 0 <= step < steps ensures Releases(sched, step, i) ==> step == point && point != 0 {
      ReleasesExactly(free, steps, sched, step, i);
    }
  }

  /** Every dead buffer is released by some step if and only if none died at step 0. */
  lemma AllReleasedIffNoneDiesFirst(free: seq<FreeBuffer>, steps: nat, sched: Schedule)
    requires Schedules(free, steps, sched) && forall i :: 0 <= i < |free| ==> free[i].point < steps
    ensures (forall i :: 0 <= i < |free| ==> Covered(sched, i)) <==>
      (forall i :: 0 <= i < |free| ==> free[i].point != 0)
  {
    forall i | 0 <= i < |free| ensures Covered(sched, i) <==> EntryAt(free, i).point != 0 {
      CoveredIff(free, steps, sched, i);
    }
    forall i | 0 <= i < |free| ensures free[i] == EntryAt(free, |free| - 1 - i) {}
  }

  /** What the executor releases after a step. */
  ghost function ReleasedAt(sched: Schedule, step: nat): (ids: set<Id>)
    requires step < |sched.freeFrom| == |sched.freeTo|
  {
    set i | 0 <= i < |sched.toBeFreed| && Releases(sched, step, i) :: sched.toBeFreed[i]
  }

  /** The schedule releases buffers of the free list only, each at its own point, so the
      executor may follow it. */
  lemma ScheduleIsSafe(g: Graph, last: State, sched: Schedule, frees: seq<set<Id>>)
    requires Schedules(last.free, |g.nodes|, sched)
    requires |frees| == |g.nodes| && forall k :: 0 <= k < |frees| ==> frees[k] == ReleasedAt(sched, k)
    ensures ReleasesOf(g, last, frees)
  {
    forall k, r | 0 <= k < |frees| && r in frees[k] ensures FreeBuffer(r, k) in last.free {
      var i :| 0 <= i < |sched.toBeFreed| && Releases(sched, k, i) && sched.toBeFreed[i] == r;
      ReleasesExactly(last.free, |g.nodes|, sched, k, i);
      assert EntryAt(last.free, i) == FreeBuffer(r, k);
    }
  }

  /** No buffer is released twice. */
  lemma ReleasedOnce(free: seq<FreeBuffer>, steps: nat, sched: Schedule, s: nat, i: int, s': nat, i': int)
    requires Schedules(free, steps, sched) && FreeOnce(free) && s < steps && s' < steps
    requires Releases(sched, s, i) && Releases(sched, s', i')
    requires 0 <= i < |free| && 0 <= i' < |free| && sched.toBeFreed[i] == sched.toBeFreed[i']
    ensures s == s' && i == i'
  {
    ReleasesExactly(free, steps, sched, s, i);
    ReleasesExactly(free, steps, sched, s', i');
    assert EntryAt(free, i).value == EntryAt(free, i').value;
  }
}
