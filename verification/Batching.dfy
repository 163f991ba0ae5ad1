/** Splitting a loop into batches for the pool, and what the split guarantees. */
module Batching {
  import opened Prelude
  import opened ThreadPool

  const INT32_MAX := 0x7fff_ffff

  function Range(start: int, end: int): (r: seq<int>)
    decreases end - start
  {
    if end <= start then [] else Range(start, end - 1) + [end - 1]
  }

  lemma {:induction false} RangeCount(start: int, end: int, x: int)
    ensures Count(Range(start, end), x) == if start <= x < end then 1 else 0
    decreases end - start
  {
    if start < end {
      RangeCount(start, end - 1, x);
      var r := Range(start, end);
      assert r[..|r| - 1] == Range(start, end - 1);
    }
  }

  ghost predicate FitsInt32(x: int)
  {
    -INT32_MAX - 1 <= x <= INT32_MAX
  }

  /** A product as 32 bits in two's complement hold it. */
  function Wrap32(x: int): (w: int)
    ensures FitsInt32(w) && (FitsInt32(x) ==> w == x)
  {
    (x + 0x8000_0000) % 0x1_0000_0000 - 0x8000_0000
  }

  /** Division that rounds toward zero. */
  function Quotient(x: int, d: nat): (q: int)
    requires d > 0
  {
    if x >= 0 then x / d else -(-x / d)
  }

  /** Where batch `b` starts, and batch `b - 1` ends, as the code computes it. */
  function Bound(total: nat, batches: nat, b: nat): (x: int)
    requires batches > 0
  {
    Quotient(Wrap32(b * total), batches)
  }

  /** The plain loop over a batch. */
  method CallRange(start: int, end: int) returns (log: seq<int>)
    ensures log == Range(start, end)
  {
    log := [];
    var i := start;
    while i < end
      invariant start <= i && (i <= end || i == start) && log == Range(start, i)
    {
      log := log + [i];
      i := i + 1;
    }
  }

  lemma DivMonotone(a: nat, b: nat, d: nat)
    requires a <= b && d > 0
    ensures a / d <= b / d
  {
    assert a == d * (a / d) + a % d && b == d * (b / d) + b % d;
    assert d * (a / d) < d * (b / d + 1);
    MulCancel(d, a / d, b / d + 1);
  }

  /** While no product overflows the bounds go from 0 up to the total. */
  lemma BoundsGrow(total: nat, batches: nat, b: nat)
    requires batches > 0 && b <= batches && FitsInt32(batches * total)
    ensures Bound(total, batches, 0) == 0 && Bound(total, batches, batches) == total
    ensures b > 0 ==> Bound(total, batches, b - 1) <= Bound(total, batches, b)
  {
    assert 0 * total == 0;
    DivUnique(batches * total, batches, total, 0);
    MulMonotone(b, batches, total);
    if b > 0 {
      MulMonotone(b - 1, b, total);
      DivMonotone((b - 1) * total, b * total, batches);
    }
  }

  lemma QuotientBelow(x: int, d: nat, y: nat)
    requires 0 < d && 0 < y && x < d * y
    ensures Quotient(x, d) < y
  {
    if x >= 0 {
      assert x == d * (x / d) + x % d;
      MulCancel(d, x / d, y);
    } else {
      assert -x / d >= 0;
    }
  }

  /** No bound passes the largest 32-bit integer divided by the number of batches. */
  lemma BoundBelow(total: nat, batches: nat, b: nat)
    requires 0 < batches && 0 < total && !FitsInt32(batches * total)
    ensures Bound(total, batches, b) < total
  {
    MulMonotone(0, batches, total);
    QuotientBelow(Wrap32(b * total), batches, total);
  }

  /** One iteration per index, `n` of them from `first` on. */
  function Singles(first: int, n: nat): (work: seq<seq<int>>)
  {
    seq(n, i requires i >= 0 => [first + i])
  }

  /** The bounds of all batches. */
  function Bounds(total: nat, batches: nat): (bounds: seq<int>)
    requires batches > 0
  {
    seq(batches + 1, b requires b >= 0 => Bound(total, batches, b))
  }

  /** One iteration per piece between consecutive bounds. */
  function Pieces(bounds: seq<int>): (work: seq<seq<int>>)
    requires |bounds| > 0
  {
    seq(|bounds| - 1, b requires 0 <= b < |bounds| - 1 => Range(bounds[b], bounds[b + 1]))
  }

  /** What each branch hands to the pool. */
  function BatchWork(total: int, batches: int): (work: seq<seq<int>>)
  {
    if total <= 0 then []
    else if total == 1 then [[0]]
    else if batches <= 1 then [Range(0, total)]
    else if batches >= total then Singles(0, total)
    else Pieces(Bounds(total, batches))
  }

  /** What an iteration of the last branch does: two products, two divisions, a loop. */
  method RunBatch(total: nat, batches: nat, b: nat) returns (log: seq<int>)
    requires 1 < batches < total && b < batches
    ensures b < |BatchWork(total, batches)| && log == BatchWork(total, batches)[b]
  {
    var start := Quotient(Wrap32(b * total), batches);
    var end := Quotient(Wrap32((b + 1) * total), batches);
    log := CallRange(start, end);
  }

  lemma {:induction false} SinglesCover(first: int, total: nat, x: int, n: nat)
    requires n <= total
    ensures AllCalls(Singles(first, total), x, n) == if first <= x < first + n then 1 else 0
  {
    if n > 0 {
      SinglesCover(first, total, x, n - 1);
      assert Count([first + n - 1], x) == if first + n - 1 == x then 1 else 0;
    }
  }

  /** Consecutive pieces: together the first `n` cover exactly what lies below the next
      bound, each index once. */
  lemma {:induction false} PiecesTile(bounds: seq<int>, x: int, n: nat)
    requires |bounds| > 0 && bounds[0] == 0 && n < |bounds|
    requires forall b :: 0 <= b < |bounds| - 1 ==> bounds[b] <= bounds[b + 1]
    ensures 0 <= bounds[n] && AllCalls(Pieces(bounds), x, n) == if 0 <= x < bounds[n] then 1 else 0
  {
    if n > 0 {
      PiecesTile(bounds, x, n - 1);
      RangeCount(bounds[n - 1], bounds[n], x);
      assert bounds[n - 1] <= bounds[n - 1 + 1];
    }
  }

  /** The batches are consecutive, disjoint and tile the whole range. */
  lemma BatchesTile(total: nat, batches: nat, x: int)
    requires 0 < batches && FitsInt32(batches * total)
    ensures AllCalls(Pieces(Bounds(total, batches)), x, batches) == if 0 <= x < total then 1 else 0
  {
    var bounds := Bounds(total, batches);
    BoundsGrow(total, batches, batches);
    forall b | 0 <= b < |bounds| - 1 ensures bounds[b] <= bounds[b + 1] {
      BoundsGrow(total, batches, b + 1);
    }
    PiecesTile(bounds, x, batches);
  }

  lemma OneIterationCovers(calls: seq<int>, x: int)
    ensures AllCalls([calls], x, 1) == Count(calls, x)
  {
    assert AllCalls([calls], x, 0) == 0;
  }

  lemma OneLoopCovers(total: nat, x: int)
    ensures AllCalls([Range(0, total)], x, 1) == if 0 <= x < total then 1 else 0
  {
    OneIterationCovers(Range(0, total), x);
    RangeCount(0, total, x);
  }

  /** The bounds are not computed, or the largest product they need fits 32 bits. */
  ghost predicate NoOverflow(total: int, batches: int)
  {
    total <= 1 || batches <= 1 || batches >= total || FitsInt32(batches * total)
  }

  /** Each index below `total` is called once and nothing else is. */
  ghost predicate CallsEachOnce(work: seq<seq<int>>, total: int)
  {
    forall x: int :: AllCalls(work, x, |work|) == if 0 <= x < total then 1 else 0
  }

  ghost predicate LogsEachOnce(log: seq<int>, total: int)
  {
    forall x: int :: Count(log, x) == if 0 <= x < total then 1 else 0
  }

  lemma BatchWorkCovers(total: int, batches: int, x: int)
    requires NoOverflow(total, batches)
    ensures AllCalls(BatchWork(total, batches), x, |BatchWork(total, batches)|) == if 0 <= x < total then 1 else 0
  {
    if 0 < total {
      if total == 1 {
        assert [0] == Range(0, 1);
        OneLoopCovers(1, x);
      } else if batches <= 1 {
        OneLoopCovers(total, x);
      } else if batches >= total {
        SinglesCover(0, total, x, total);
      } else {
        BatchesTile(total, batches, x);
      }
    }
  }

  /** Pieces that all end before `x` do not call it. */
  lemma {:induction false} PiecesMiss(bounds: seq<int>, x: int, n: nat)
    requires |bounds| > 0 && n < |bounds| && forall b :: 0 <= b < |bounds| ==> bounds[b] <= x
    ensures AllCalls(Pieces(bounds), x, n) == 0
  {
    if n > 0 {
      PiecesMiss(bounds, x, n - 1);
      RangeCount(bounds[n - 1], bounds[n], x);
    }
  }

  lemma BatchesMiss(total: nat, batches: nat)
    requires 0 < batches && 0 < total && !FitsInt32(batches * total)
    ensures AllCalls(Pieces(Bounds(total, batches)), total - 1, batches) == 0
  {
    var bounds := Bounds(total, batches);
    forall b | 0 <= b < |bounds| ensures bounds[b] <= total - 1 {
      BoundBelow(total, batches, b);
    }
    PiecesMiss(bounds, total - 1, batches);
  }

  /** When a product overflows the last index is in no batch. */
  lemma OverflowSkipsLast(total: int, batches: int)
    requires !NoOverflow(total, batches)
    ensures AllCalls(BatchWork(total, batches), total - 1, |BatchWork(total, batches)|) == 0
  {
    BatchesMiss(total, batches);
  }

  /** The branches call the function exactly once on each index below `total`, and on nothing
      else, if and only if the product of total and batches fits 32 bits where it is needed. */
  lemma BatchWorkCoversIff(total: int, batches: int)
    ensures CallsEachOnce(BatchWork(total, batches), total) <==> NoOverflow(total, batches)
  {
    if NoOverflow(total, batches) {
      forall x: int
        ensures AllCalls(BatchWork(total, batches), x, |BatchWork(total, batches)|) == if 0 <= x < total then 1 else 0
      {
        BatchWorkCovers(total, batches, x);
      }
    } else {
      OverflowSkipsLast(total, batches);
    }
  }

  /** The smallest power of two where it happens. */
  lemma OverflowWitness()
    ensures !NoOverflow(65536, 32768) && FitsInt32(65536) && !CallsEachOnce(BatchWork(65536, 32768), 65536)
  {
    BatchWorkCoversIff(65536, 32768);
  }

  /** ParallelFor: in every interleaving the function has been called exactly once on each
      index when the call returns. */
  lemma ParallelForCallsEachOnce(total: nat, threads: nat, states: seq<Pool>, steps: seq<Step>, i: nat)
    requires IsExecution(Singles(0, total), threads, states, steps) && i < |states| && states[i].caller.Returned?
    ensures LogsEachOnce(states[i].log, total)
  {
    ReturnMeansDone(Singles(0, total), threads, states, steps, i);
    forall x: int ensures Count(states[i].log, x) == if 0 <= x < total then 1 else 0 {
      SinglesCover(0, total, x, total);
    }
  }

  lemma SameCalls(work: seq<seq<int>>, log: seq<int>, total: int)
    requires forall x :: Count(log, x) == AllCalls(work, x, |work|)
    ensures CallsEachOnce(work, total) <==> LogsEachOnce(log, total)
  {
    if CallsEachOnce(work, total) {
      forall x: int ensures Count(log, x) == if 0 <= x < total then 1 else 0 {
        assert AllCalls(work, x, |work|) == if 0 <= x < total then 1 else 0;
      }
    }
    if LogsEachOnce(log, total) {
      forall x: int ensures AllCalls(work, x, |work|) == if 0 <= x < total then 1 else 0 {
        assert Count(log, x) == if 0 <= x < total then 1 else 0;
      }
    }
  }

  /** In every interleaving BatchParallelFor does what the plain loop does, if and only if the
      product of total and batches fits 32 bits where it is needed. */
  lemma BatchParallelForCallsEachOnce(total: int, batches: int, threads: nat, states: seq<Pool>, steps: seq<Step>,
                                      i: nat)
    requires IsExecution(BatchWork(total, batches), threads, states, steps)
    requires i < |states| && states[i].caller.Returned?
    ensures LogsEachOnce(states[i].log, total) <==> NoOverflow(total, batches)
  {
    ReturnMeansDone(BatchWork(total, batches), threads, states, steps, i);
    SameCalls(BatchWork(total, batches), states[i].log, total);
    BatchWorkCoversIff(total, batches);
  }

  // ----- ranges -----------------------------------------------------------------------------

  /** What `ParallelForRange` hands to the pool: an iteration is called on one index. */
  function RangeWork(first: int, last: int): (work: seq<seq<int>>)
  {
    if last <= first then []
    else if last - first == 1 then [[first]]
    else Singles(first, last - first + 1)
  }

  /** Each index of the interval, both ends included, is called once and nothing else is. */
  ghost predicate LogsInterval(log: seq<int>, first: int, last: int)
  {
    forall x: int :: Count(log, x) == if first <= x <= last then 1 else 0
  }

  lemma RangeWorkCovers(first: int, last: int, x: int)
    ensures AllCalls(RangeWork(first, last), x, |RangeWork(first, last)|)
         == if first <= x && (if last - first <= 1 then x < last else x <= last) then 1 else 0
  {
    if last - first == 1 {
      OneIterationCovers([first], x);
      assert Count([first], x) == if x == first then 1 else 0;
    } else if last - first > 1 {
      SinglesCover(first, last - first + 1, x, last - first + 1);
    }
  }

  /** In every interleaving ParallelForRange calls the function on the interval with both ends, as
      documented, if and only if the interval is empty or has more than two indices; of shorter
      ones the last index is left out. */
  lemma ParallelForRangeIff(first: int, last: int, threads: nat, states: seq<Pool>, steps: seq<Step>, i: nat)
    requires IsExecution(RangeWork(first, last), threads, states, steps) && i < |states| && states[i].caller.Returned?
    ensures LogsInterval(states[i].log, first, last) <==> last < first || last - first >= 2
    ensures 0 <= last - first <= 1 ==> Count(states[i].log, last) == 0
  {
    ReturnMeansDone(RangeWork(first, last), threads, states, steps, i);
    var log := states[i].log;
    forall x: int
      ensures Count(log, x) == if first <= x && (if last - first <= 1 then x < last else x <= last) then 1 else 0
    {
      RangeWorkCovers(first, last, x);
    }
    assert Count(log, last) == if first <= last && last - first > 1 then 1 else 0;
  }

  // ----- overflow ---------------------------------------------------------------------------

  /** Both products batch `b` computes fit a 32-bit integer. */
  ghost predicate BatchFits(total: nat, b: nat)
  {
    FitsInt32(b * total) && FitsInt32((b + 1) * total)
  }

  /** No product in any batch overflows a 32-bit integer if and only if the largest does not. */
  lemma NoOverflowIff(total: nat, batches: nat)
    requires batches > 0
    ensures (forall b :: 0 <= b < batches ==> BatchFits(total, b)) <==> FitsInt32(batches * total)
  {
    if FitsInt32(batches * total) {
      forall b | 0 <= b < batches ensures BatchFits(total, b) {
        MulMonotone(b, batches, total);
        MulMonotone(b + 1, batches, total);
      }
    } else {
      assert !BatchFits(total, batches - 1);
    }
  }

  // ----- the arithmetic and the shares ------------------------------------------------------

  /** Wrapping keeps a number up to multiples of 2^32. */
  lemma Wrap32Congruent(x: int)
    ensures (x - Wrap32(x)) % 0x1_0000_0000 == 0
  {
  }

  /** Division leaves a rest that is smaller than the divisor and has the sign of the dividend. */
  lemma QuotientTruncates(x: int, d: nat)
    requires d > 0
    ensures var rest := x - d * Quotient(x, d);
      (x >= 0 ==> 0 <= rest < d) && (x <= 0 ==> rest <= 0 < rest + d)
  {
    if x < 0 {
      assert -x == d * (-x / d) + -x % d;
      assert d * -(-x / d) == -(d * (-x / d));
    }
  }

  /** One index after the other. */
  lemma {:induction false} RangeAt(start: int, end: int)
    requires start <= end
    ensures |Range(start, end)| == end - start
    ensures forall i :: 0 <= i < end - start ==> Range(start, end)[i] == start + i
    decreases end - start
  {
    if start < end {
      RangeAt(start, end - 1);
    }
  }

  /** Adding the divisor's share moves the quotient by that of the share, or one more. */
  lemma QuotientMoves(a: nat, total: nat, batches: nat)
    requires batches > 0
    ensures 0 <= (a + total) / batches - a / batches - total / batches <= 1
  {
    var q, r, q', r' := a / batches, a % batches, total / batches, total % batches;
    assert a == batches * q + r && total == batches * q' + r';
    if r + r' < batches {
      DivUnique(a + total, batches, q + q', r + r');
    } else {
      DivUnique(a + total, batches, q + q' + 1, r + r' - batches);
    }
  }

  lemma Share(total: nat, batches: nat, b: nat)
    requires 0 < batches && b < batches && FitsInt32(batches * total)
    ensures var share := |Range(Bound(total, batches, b), Bound(total, batches, b + 1))|;
      total / batches <= share <= total / batches + 1
  {
    MulMonotone(b, batches, total);
    MulMonotone(b + 1, batches, total);
    assert (b + 1) * total == b * total + total;
    QuotientMoves(b * total, total, batches);
    BoundsGrow(total, batches, b + 1);
    RangeAt(Bound(total, batches, b), Bound(total, batches, b + 1));
  }

  /** How the work is cut: one loop, one iteration for each index, or as many batches as asked for,
      none of which is more than one index longer than another. */
  lemma BatchesBalanced(total: int, batches: int)
    requires NoOverflow(total, batches)
    ensures var work := BatchWork(total, batches);
      && |work| == (if total <= 0 then 0 else if total == 1 || batches <= 1 then 1
                    else if batches >= total then total else batches)
      && (1 < batches && 1 < total ==> forall b :: 0 <= b < |work| ==>
            total / |work| <= |work[b]| <= total / |work| + 1)
  {
    if 1 < batches < total {
      var work := BatchWork(total, batches);
      forall b | 0 <= b < batches ensures total / batches <= |work[b]| <= total / batches + 1 {
        Share(total, batches, b);
      }
    } else if 1 < batches && 1 < total {
      DivUnique(total, total, 1, 0);
    }
  }
}
