/** The batched convolution: one matrix product per run, bias and activation in place, and
    pooling back into one output row per word. */
module WordConvBatch {

  import opened Prelude
  import opened WordConvSpec
  import opened WordConv

  // ----- the rows of a run ------------------------------------------------------------------

  function ConvRow(p: Problem, window: seq<real>): (row: seq<real>)
    requires WellFormed(p) && |window| == Kernel(p)
    ensures |row| == p.filters
  {
    seq(p.filters, f requires 0 <= f < p.filters => Dot(window, Filter(p, f)))
  }

  ghost function ConvRows(p: Problem, rows: seq<seq<real>>): (out: seq<seq<real>>)
    requires WellFormed(p) && AllWide(rows, Kernel(p))
    ensures |out| == |rows| && AllWide(out, p.filters)
  {
    seq(|rows|, r requires 0 <= r < |rows| => ConvRow(p, rows[r]))
  }

  function SumRow(a: seq<real>, b: seq<real>): (row: seq<real>)
    requires |a| == |b|
    ensures |row| == |a|
  {
    seq(|a|, f requires 0 <= f < |a| => a[f] + b[f])
  }

  ghost function BiasedRows(p: Problem, rows: seq<seq<real>>): (out: seq<seq<real>>)
    requires |p.bias| == p.filters && AllWide(rows, p.filters)
    ensures |out| == |rows| && AllWide(out, p.filters)
  {
    seq(|rows|, r requires 0 <= r < |rows| => SumRow(rows[r], p.bias))
  }

  /** The next row fits behind the first `r` rows. */
  lemma NextRowFits(rows: seq<seq<real>>, r: nat, n: nat, size: nat)
    requires AllWide(rows, n) && r < |rows| && Times(|rows|, n) <= size
    ensures |Flat(rows[..r])| == Times(r, n) && Times(r, n) + n == Times(r + 1, n) <= size
    ensures Flat(rows[..r + 1]) == Flat(rows[..r]) + rows[r]
  {
    FlatLength(rows[..r], n);
    TimesMonotone(r + 1, |rows|, n);
    Distribute(r, 1, n);
    assert rows[..r + 1] == rows[..r] + [rows[r]];
    FlatAppend(rows[..r], rows[r]);
  }

  /** The matrix product, row by row. */
  method Gemm(p: Problem, count: nat, buffer: seq<real>, conv: array<real>, ghost rows: seq<seq<real>>, ghost end: nat)
    returns (next: nat)
    requires WellFormed(p) && AllWide(rows, Kernel(p)) && |rows| == count
    requires StartsWith(buffer, rows, end) && Times(count, p.filters) <= conv.Length
    modifies conv
    ensures StartsWith(conv[..], ConvRows(p, rows), next)
  {
    ghost var out := ConvRows(p, rows);
    next := 0;
    var r := 0;
    while r < count
      invariant 0 <= r <= count && StartsWith(conv[..], out[..r], next)
    {
      RowInBuffer(buffer, rows, end, Kernel(p), r);
      NextRowFits(out, r, p.filters, conv.Length);
      var window := buffer[Times(r, Kernel(p))..Times(r, Kernel(p)) + Kernel(p)];
      PutRow(conv, next, ConvRow(p, window), out[..r], out[..r + 1]);
      next := next + p.filters;
      r := r + 1;
    }
    assert out[..r] == out;
  }

  lemma RowInBuffer(s: seq<real>, rows: seq<seq<real>>, end: nat, n: nat, r: nat)
    requires StartsWith(s, rows, end) && AllWide(rows, n) && r < |rows|
    ensures Times(r, n) + n <= end && s[Times(r, n)..Times(r, n) + n] == rows[r]
  {
    FlatRow(rows, n, r);
    assert s[..end][Times(r, n)..Times(r, n) + n] == s[Times(r, n)..Times(r, n) + n];
  }

  /** Add `b` to the row at `at` in place. */
  method AddTo(conv: array<real>, at: nat, b: seq<real>)
    requires at + |b| <= conv.Length
    modifies conv
    ensures conv[at..at + |b|] == SumRow(old(conv[at..at + |b|]), b)
    ensures conv[..at] == old(conv[..at]) && conv[at + |b|..] == old(conv[at + |b|..])
  {
    ghost var was := conv[..];
    var f := 0;
    while f < |b|
      invariant 0 <= f <= |b|
      invariant forall k :: 0 <= k < conv.Length ==> conv[k] == if at <= k < at + f then was[k] + b[k - at] else was[k]
    {
      conv[at + f] := conv[at + f] + b[f];
      f := f + 1;
    }
    assert old(conv[at..at + |b|]) == was[at..at + |b|];
  }

  /** Add the bias to the row behind the rows that have it already. */
  method BiasNext(p: Problem, conv: array<real>, at: nat, ghost done: seq<seq<real>>, ghost more: seq<seq<real>>,
                  ghost row: seq<real>, ghost before: seq<real>)
    requires |p.bias| == p.filters == |row| && at + p.filters <= conv.Length == |before|
    requires StartsWith(conv[..], done, at) && conv[at..] == before[at..] && before[at..at + p.filters] == row
    requires Flat(more) == Flat(done) + SumRow(row, p.bias)
    modifies conv
    ensures StartsWith(conv[..], more, at + p.filters)
    ensures conv[at + p.filters..] == before[at + p.filters..]
  {
    RowAhead(conv[..], before, at, p.filters);
    ghost var were := conv[..];
    assert were[at..at + p.filters] == conv[at..at + p.filters] && were[..at] == conv[..at];
    AddTo(conv, at, p.bias);
    assert conv[..at + p.filters] == conv[..at] + conv[at..at + p.filters];
    RowReplaced(were, conv[..], at, at + p.filters, done, more, SumRow(row, p.bias));
    RestKept(were, conv[..], before, at, at + p.filters);
  }

  method AddBias(p: Problem, count: nat, conv: array<real>, ghost rows: seq<seq<real>>, ghost end: nat)
    requires |p.bias| == p.filters && AllWide(rows, p.filters) && |rows| == count
    requires StartsWith(conv[..], rows, end)
    modifies conv
    ensures StartsWith(conv[..], BiasedRows(p, rows), end)
  {
    ghost var before, out := conv[..], BiasedRows(p, rows);
    FlatLength(rows, p.filters);
    FlatLength(out, p.filters);
    var at: nat, r := 0, 0;
    while r < count
      invariant 0 <= r <= count && StartsWith(conv[..], out[..r], at)
      invariant at == Times(r, p.filters) <= end && conv[at..] == before[at..]
    {
      RowInBuffer(before, rows, end, p.filters, r);
      NextRowFits(out, r, p.filters, end);
      BiasNext(p, conv, at, out[..r], out[..r + 1], rows[r], before);
      at := at + p.filters;
      r := r + 1;
    }
    assert out[..r] == out;
  }

  lemma RowAhead(s: seq<real>, t: seq<real>, at: nat, n: nat)
    requires |s| == |t| && at + n <= |s| && s[at..] == t[at..]
    ensures s[at..at + n] == t[at..at + n]
  {
    assert s[at..][..n] == s[at..at + n] && t[at..][..n] == t[at..at + n];
  }

  lemma RowReplaced(s: seq<real>, t: seq<real>, at: nat, next: nat, rows: seq<seq<real>>, more: seq<seq<real>>,
                    row: seq<real>)
    requires StartsWith(s, rows, at) && at <= next <= |t| && t[..next] == s[..at] + row &&
      Flat(more) == Flat(rows) + row
    ensures StartsWith(t, more, next)
  {
  }

  lemma RestKept(s: seq<real>, t: seq<real>, before: seq<real>, at: nat, next: nat)
    requires |s| == |t| == |before| && at <= next <= |s| && s[at..] == before[at..] && t[next..] == s[next..]
    ensures t[next..] == before[next..]
  {
    assert s[at..][next - at..] == s[next..] && before[at..][next - at..] == before[next..];
  }

  /** The activation, number by number. */
  method Activate(p: Problem, cells: nat, conv: array<real>, act: array<real>)
    requires cells <= conv.Length && cells <= act.Length && conv != act
    modifies act
    ensures Activated(p, conv[..], act[..], cells)
  {
    var k := 0;
    while k < cells
      invariant 0 <= k <= cells
      invariant forall j :: 0 <= j < k ==> act[j] == p.activation(conv[j])
    {
      act[k] := p.activation(conv[k]);
      k := k + 1;
    }
  }

  // ----- pooling ----------------------------------------------------------------------------

  ghost function ScoreRow(p: Problem, i: nat, u: nat): (row: seq<real>)
    requires WellFormed(p) && i < p.words && u + p.width <= p.wordLen
  {
    seq(p.filters, f requires 0 <= f < p.filters => Score(p, i, u, f))
  }

  ghost function PooledRow(p: Problem, i: nat, n: nat): (row: seq<real>)
    requires WellFormed(p) && i < p.words && WindowsFit(p, n)
  {
    seq(p.filters, f requires 0 <= f < p.filters => Pooled(p, i, f, n))
  }

  /** `row` stands in `s` from `at` on. */
  ghost predicate RowAt(s: seq<real>, at: nat, row: seq<real>)
  {
    at + |row| <= |s| && s[at..at + |row|] == row
  }

  /** The output row at `base` before any window is pooled. */
  method StartRow(p: Problem, i: nat, output: array<real>, base: nat)
    requires WellFormed(p) && i < p.words && base + p.filters <= output.Length
    modifies output
    ensures RowAt(output[..], base, PooledRow(p, i, 0))
    ensures output[..base] == old(output[..base]) && output[base + p.filters..] == old(output[base + p.filters..])
  {
    var f := 0;
    while f < p.filters
      invariant 0 <= f <= p.filters
      invariant forall g :: base <= g < base + f ==> output[g] == FLOOR
      invariant forall k :: 0 <= k < base || base + f <= k < output.Length ==> output[k] == old(output[k])
    {
      output[base + f] := FLOOR;
      f := f + 1;
    }
  }

  function MaxRow(a: seq<real>, b: seq<real>): (row: seq<real>)
    requires |a| == |b|
    ensures |row| == |a|
  {
    seq(|a|, f requires 0 <= f < |a| => MaxReal(a[f], b[f]))
  }

  /** Raise the output row at `base` to the scores at `c`. */
  method RaiseRow(act: seq<real>, c: nat, output: array<real>, base: nat, n: nat)
    requires c + n <= |act| && base + n <= output.Length
    modifies output
    ensures output[base..base + n] == MaxRow(act[c..c + n], old(output[base..base + n]))
    ensures output[..base] == old(output[..base]) && output[base + n..] == old(output[base + n..])
  {
    ghost var row := output[base..base + n];
    var f := 0;
    while f < n
      invariant 0 <= f <= n
      invariant output[base..base + f] == MaxRow(act[c..c + n], row)[..f]
      invariant forall k :: 0 <= k < base || base + f <= k < output.Length ==> output[k] == old(output[k])
    {
      assert act[c..c + n][f] == act[c + f] && row[f] == output[base + f];
      output[base + f] := MaxReal(act[c + f], output[base + f]);
      f := f + 1;
      assert output[base..base + f] == output[base..base + f - 1] + [output[base + f - 1]];
    }
  }

  /** Take one more window into account. */
  method PoolWindow(p: Problem, i: nat, u: nat, act: seq<real>, c: nat, output: array<real>, base: nat)
    requires WellFormed(p) && i < p.words && u + p.width <= p.wordLen
    requires RowAt(act, c, ScoreRow(p, i, u)) && RowAt(output[..], base, PooledRow(p, i, u))
    modifies output
    ensures RowAt(output[..], base, PooledRow(p, i, u + 1))
    ensures output[..base] == old(output[..base]) && output[base + p.filters..] == old(output[base + p.filters..])
  {
    PooledNext(p, i, u);
    assert output[..][base..base + p.filters] == output[base..base + p.filters];
    RaiseRow(act, c, output, base, p.filters);
    assert output[..][base..base + p.filters] == output[base..base + p.filters];
  }

  lemma PooledNext(p: Problem, i: nat, u: nat)
    requires WellFormed(p) && i < p.words && u + p.width <= p.wordLen
    ensures |ScoreRow(p, i, u)| == |PooledRow(p, i, u)| == p.filters
    ensures PooledRow(p, i, u + 1) == MaxRow(ScoreRow(p, i, u), PooledRow(p, i, u))
  {
  }

  /** The scores of all windows of word `i`, one after the other from `c` on. */
  ghost predicate WordScores(p: Problem, i: nat, act: seq<real>, c: nat)
    requires WellFormed(p) && i < p.words
  {
    forall u :: 0 <= u < Windows(p, i) && u + p.width <= p.wordLen ==>
      RowAt(act, c + Times(u, p.filters), ScoreRow(p, i, u))
  }

  method PoolWord(p: Problem, i: nat, act: seq<real>, start: nat, output: array<real>, base: nat) returns (c: nat)
    requires WellFormed(p) && i < p.words && p.lengths[i] > 0 && WordScores(p, i, act, start)
    requires base + p.filters <= output.Length
    modifies output
    ensures WindowsFit(p, Windows(p, i)) && RowAt(output[..], base, PooledRow(p, i, Windows(p, i)))
    ensures output[..base] == old(output[..base]) && output[base + p.filters..] == old(output[base + p.filters..])
    ensures c == start + Times(Windows(p, i), p.filters)
  {
    ReachInWord(p, i);
    StartRow(p, i, output, base);
    var windows, u := Max(p.lengths[i], p.width) - p.width + 1, 0;
    c := start;
    while u < windows
      invariant 0 <= u <= windows && c == start + Times(u, p.filters)
      invariant RowAt(output[..], base, PooledRow(p, i, u))
      invariant output[..base] == old(output[..base]) && output[base + p.filters..] == old(output[base + p.filters..])
    {
      assert RowAt(act, start + Times(u, p.filters), ScoreRow(p, i, u));
      PoolWindow(p, i, u, act, c, output, base);
      Distribute(u, 1, p.filters);
      c := c + p.filters;
      u := u + 1;
    }
  }

  /** The activation buffer holds the scores of a run. */
  ghost predicate RunScores(p: Problem, first: nat, last: nat, act: seq<real>)
    requires WellFormed(p) && first <= last <= p.words
  {
    forall i :: first <= i < last ==> WordScores(p, i, act, Times(|RunWindows(p, first, i)|, p.filters))
  }

  /** Row `j` of the output: the result of a word that is not empty, else as it was. */
  ghost predicate RowDone(p: Problem, j: nat, out: seq<real>, was: seq<real>)
    requires WellFormed(p) && j < p.words && |out| == |was| == Times(p.words, p.filters)
  {
    ReachInWord(p, j);
    TimesMonotone(j + 1, p.words, p.filters);
    Distribute(j, 1, p.filters);
    if p.lengths[j] > 0 then RowAt(out, Times(j, p.filters), PooledRow(p, j, Windows(p, j)))
    else
      var at, next := Times(j, p.filters), Times(j, p.filters) + p.filters;
      out[at..next] == was[at..next]
  }

  lemma RowKept(p: Problem, j: nat, i: nat, s: seq<real>, t: seq<real>, was: seq<real>)
    requires WellFormed(p) && j < i <= p.words && |s| == |t| == |was| == Times(p.words, p.filters)
    requires Times(i, p.filters) <= |s| && s[..Times(i, p.filters)] == t[..Times(i, p.filters)] && RowDone(p, j, s, was)
    ensures RowDone(p, j, t, was)
  {
    var at := Times(j, p.filters);
    TimesMonotone(j + 1, i, p.filters);
    Distribute(j, 1, p.filters);
    SliceKept(s, t, at, at + p.filters, Times(i, p.filters));
  }

  /** All rows before `i` are done, the others are as they were. */
  ghost predicate RowsDone(p: Problem, i: nat, out: seq<real>, was: seq<real>)
    requires WellFormed(p) && i <= p.words && |out| == |was| == Times(p.words, p.filters)
  {
    && Times(i, p.filters) <= |out| && out[Times(i, p.filters)..] == was[Times(i, p.filters)..]
    && forall j :: 0 <= j < i ==> RowDone(p, j, out, was)
  }

  /** One more row is done. */
  lemma RowsGrow(p: Problem, i: nat, s: seq<real>, t: seq<real>, was: seq<real>)
    requires WellFormed(p) && i < p.words && |s| == |t| == |was| == Times(p.words, p.filters)
    requires RowsDone(p, i, s, was) && RowDone(p, i, t, was)
    requires Times(i, p.filters) + p.filters <= |s|
    requires s[..Times(i, p.filters)] == t[..Times(i, p.filters)]
    requires s[Times(i, p.filters) + p.filters..] == t[Times(i, p.filters) + p.filters..]
    ensures RowsDone(p, i + 1, t, was)
  {
    var at := Times(i, p.filters);
    Distribute(i, 1, p.filters);
    RestKept(s, t, was, at, at + p.filters);
    forall j | 0 <= j < i ensures RowDone(p, j, t, was) {
      RowKept(p, j, i, s, t, was);
    }
  }

  lemma EmptyRowDone(p: Problem, i: nat, s: seq<real>, was: seq<real>)
    requires WellFormed(p) && i < p.words && |s| == |was| == Times(p.words, p.filters)
    requires RowsDone(p, i, s, was) && p.lengths[i] == 0
    ensures RowsDone(p, i + 1, s, was)
  {
    TimesMonotone(i + 1, p.words, p.filters);
    Distribute(i, 1, p.filters);
    RowAhead(s, was, Times(i, p.filters), p.filters);
    RowsGrow(p, i, s, s, was);
  }

  /** Pool one word of a run. */
  method PoolNext(p: Problem, ghost first: nat, i: nat, act: seq<real>, start: nat, output: array<real>,
                  ghost was: seq<real>)
    returns (c: nat)
    requires WellFormed(p) && first <= i < p.words && p.lengths[i] > 0
    requires start == Times(|RunWindows(p, first, i)|, p.filters) && WordScores(p, i, act, start)
    requires output.Length == |was| == Times(p.words, p.filters) && RowsDone(p, i, output[..], was)
    modifies output
    ensures RowsDone(p, i + 1, output[..], was)
    ensures c == Times(|RunWindows(p, first, i + 1)|, p.filters)
  {
    TimesMonotone(i + 1, p.words, p.filters);
    Distribute(i, 1, p.filters);
    ghost var were := output[..];
    c := PoolWord(p, i, act, start, output, Times(i, p.filters));
    Distribute(|RunWindows(p, first, i)|, Windows(p, i), p.filters);
    RowsGrow(p, i, were, output[..], was);
  }

  /** Pool the words of a run back into their rows. */
  method PoolRun(p: Problem, first: nat, last: nat, act: seq<real>, output: array<real>, ghost was: seq<real>)
    requires WellFormed(p) && first <= last <= p.words && NoneEmpty(p, first, last)
    requires RunScores(p, first, last, act)
    requires output.Length == |was| == Times(p.words, p.filters) && RowsDone(p, first, output[..], was)
    modifies output
    ensures RowsDone(p, last, output[..], was)
  {
    var i, c := first, 0;
    while i < last
      invariant first <= i <= last && c == Times(|RunWindows(p, first, i)|, p.filters)
      invariant RowsDone(p, i, output[..], was)
    {
      c := PoolNext(p, first, i, act, c, output, was);
      i := i + 1;
    }
  }

  // ----- the whole computation --------------------------------------------------------------

  ghost predicate Activated(p: Problem, conv: seq<real>, act: seq<real>, end: nat)
    requires end <= |conv|
  {
    end <= |act| && forall k :: 0 <= k < end ==> act[k] == p.activation(conv[k])
  }

  /** After product, bias and activation the buffer holds the scores of the run. */
  lemma ScoresInPlace(p: Problem, first: nat, last: nat, conv: seq<real>, act: seq<real>, end: nat)
    requires WellFormed(p) && first <= last <= p.words
    requires StartsWith(conv, BiasedRows(p, ConvRows(p, RunWindows(p, first, last))), end)
    requires end <= |conv| && Activated(p, conv, act, end)
    ensures RunScores(p, first, last, act)
  {
    forall i | first <= i < last ensures WordScores(p, i, act, Times(|RunWindows(p, first, i)|, p.filters)) {
      forall u | 0 <= u < Windows(p, i) && u + p.width <= p.wordLen
        ensures RowAt(act, Times(|RunWindows(p, first, i)|, p.filters) + Times(u, p.filters), ScoreRow(p, i, u))
      {
        WindowScores(p, first, i, last, u, RunWindows(p, first, last), conv, act, end);
      }
    }
  }

  lemma WindowScores(p: Problem, first: nat, i: nat, last: nat, u: nat, rows: seq<seq<real>>,
                     conv: seq<real>, act: seq<real>, end: nat)
    requires WellFormed(p) && first <= i < last <= p.words && u < Windows(p, i) && u + p.width <= p.wordLen
    requires rows == RunWindows(p, first, last) && StartsWith(conv, BiasedRows(p, ConvRows(p, rows)), end)
    requires end <= |conv| && Activated(p, conv, act, end)
    ensures RowAt(act, Times(|RunWindows(p, first, i)|, p.filters) + Times(u, p.filters), ScoreRow(p, i, u))
  {
    var before := |RunWindows(p, first, i)|;
    WindowInRun(p, first, i, last, u);
    RowScores(p, i, u, conv, act, rows, before + u, end);
    Distribute(before, u, p.filters);
  }

  lemma RowScores(p: Problem, i: nat, u: nat, conv: seq<real>, act: seq<real>, rows: seq<seq<real>>, r: nat, end: nat)
    requires WellFormed(p) && i < p.words && u + p.width <= p.wordLen
    requires AllWide(rows, Kernel(p)) && r < |rows| && rows[r] == Window(p, i, u)
    requires StartsWith(conv, BiasedRows(p, ConvRows(p, rows)), end)
    requires end <= |conv| && Activated(p, conv, act, end)
    ensures RowAt(act, Times(r, p.filters), ScoreRow(p, i, u))
  {
    RowInBuffer(conv, BiasedRows(p, ConvRows(p, rows)), end, p.filters, r);
    ActivatedRow(p, i, u, conv, act, Times(r, p.filters), end);
  }

  lemma ActivatedRow(p: Problem, i: nat, u: nat, conv: seq<real>, act: seq<real>, c: nat, end: nat)
    requires WellFormed(p) && i < p.words && u + p.width <= p.wordLen
    requires c + p.filters <= end <= |conv| && Activated(p, conv, act, end)
    requires conv[c..c + p.filters] == SumRow(ConvRow(p, Window(p, i, u)), p.bias)
    ensures RowAt(act, c, ScoreRow(p, i, u))
  {
    forall f | 0 <= f < p.filters ensures act[c..c + p.filters][f] == Score(p, i, u, f) {
      assert conv[c..c + p.filters][f] == conv[c + f];
    }
  }

  /** Convolution, activation and pooling of all words, run by run. */
  method ConvMaxPool(p: Problem, input: seq<real>, output: array<real>)
    requires WellFormed(p) && AllLookedUp(p, p.words, input)
    requires output.Length == Times(p.words, p.filters)
    modifies output
    ensures RowsDone(p, p.words, output[..], old(output[..]))
  {
    var buffer := new real[Times(Times(p.words, MostWindows(p)), Kernel(p))];
    var conv := new real[Times(Times(p.words, MostWindows(p)), p.filters)];
    var act := new real[Times(Times(p.words, MostWindows(p)), p.filters)];
    ghost var was := output[..];
    var i := 0;
    while i < p.words
      invariant 0 <= i <= p.words && RowsDone(p, i, output[..], was)
    {
      if p.lengths[i] <= 0 {
        EmptyRowDone(p, i, output[..], was);
        i := i + 1;
      } else {
        var last := ConvRun(p, i, input, buffer, conv, act);
        PoolRun(p, i, last, act[..], output, was);
        i := last;
      }
    }
  }

  /** Unfold, convolve and activate one run. */
  method ConvRun(p: Problem, first: nat, input: seq<real>, buffer: array<real>, conv: array<real>,
                 act: array<real>) returns (last: nat)
    requires WellFormed(p) && AllLookedUp(p, p.words, input)
    requires first < p.words && p.lengths[first] > 0 && buffer != conv && conv != act && buffer != act
    requires buffer.Length == Times(Times(p.words, MostWindows(p)), Kernel(p))
    requires conv.Length == act.Length == Times(Times(p.words, MostWindows(p)), p.filters)
    modifies buffer, conv, act
    ensures first < last <= p.words && NoneEmpty(p, first, last) && RunScores(p, first, last, act[..])
  {
    var count;
    ghost var end, rows;
    last, count, end, rows := UnfoldRun(p, first, input, buffer);
    RunFits(p, first, last);
    TimesMonotone(count, Times(p.words, MostWindows(p)), p.filters);
    var cells := Gemm(p, count, buffer[..], conv, rows, end);
    AddBias(p, count, conv, ConvRows(p, rows), cells);
    Activate(p, cells, conv, act);
    ScoresInPlace(p, first, last, conv[..], act[..], cells);
  }

  /** Output `f` of word `i`: the result over the word's own windows, or what was there before if
      the word is empty. */
  ghost predicate CellDone(p: Problem, i: nat, f: nat, out: seq<real>, was: seq<real>)
    requires WellFormed(p) && i < p.words && f < p.filters
  {
    && 0 <= i * p.filters + f < |out| == |was|
    && out[i * p.filters + f] == if p.lengths[i] > 0 then Result(p, i, f) else was[i * p.filters + f]
  }

  ghost predicate AllDone(p: Problem, out: seq<real>, was: seq<real>)
    requires WellFormed(p)
  {
    forall i, f :: 0 <= i < p.words && 0 <= f < p.filters ==> CellDone(p, i, f, out, was)
  }

  lemma RowCells(p: Problem, i: nat, f: nat, out: seq<real>, was: seq<real>)
    requires WellFormed(p) && i < p.words && f < p.filters && |out| == |was| == Times(p.words, p.filters)
    requires RowDone(p, i, out, was)
    ensures CellDone(p, i, f, out, was)
  {
    CellInRange(i, f, p.words, p.filters);
    var at := Times(i, p.filters);
    if p.lengths[i] > 0 {
      ReachInWord(p, i);
      CellOfRow(out, at, PooledRow(p, i, Windows(p, i)), f);
    } else {
      CellOfRow(out, at, was[at..at + p.filters], f);
    }
  }

  lemma CellOfRow(s: seq<real>, at: nat, row: seq<real>, f: nat)
    requires RowAt(s, at, row) && f < |row|
    ensures s[at + f] == row[f]
  {
    assert s[at..at + |row|][f] == s[at + f];
  }

  lemma AllCells(p: Problem, out: seq<real>, was: seq<real>)
    requires WellFormed(p) && |out| == |was| == Times(p.words, p.filters)
    requires RowsDone(p, p.words, out, was)
    ensures AllDone(p, out, was)
  {
    forall i, f | 0 <= i < p.words && 0 <= f < p.filters ensures CellDone(p, i, f, out, was) {
      RowCells(p, i, f, out, was);
    }
  }

  lemma SameReads(q: Problem, p: Problem)
    requires HasInputs(q) && ReadsInTable(q) && p == q.(lengths := p.lengths)
    ensures ReadsInTable(p)
  {
    forall c | InTable(p, c) ensures IsRow(p, c) { assert InTable(q, c) && IsRow(q, c); }
    forall i, j | 0 <= i < p.words && 0 <= j < p.wordLen && WordLength(p, i) > 0 && j < Max(WordLength(p, i), p.width)
      ensures InTable(p, CharAt(p, i, j))
    {
      SameWords(q, p, i, p.wordLen);
      assert InTable(q, CharAt(q, i, j));
    }
  }

  /** The operator: every non-empty word gets the result of each filter over its own windows;
      the rows of empty words are left alone. */
  method Compute(q: Problem, output: array<real>) returns (p: Problem)
    requires HasInputs(q) && Suffices(q) && ReadsInTable(q) && output.Length == Times(q.words, q.filters)
    modifies output
    ensures p == q.(lengths := p.lengths) && Measured(p)
    ensures AllDone(p, output[..], old(output[..]))
  {
    var lengths := CalculateLengths(q);
    p := q.(lengths := lengths);
    SameReads(q, p);
    var embeddings := new real[Times(p.words, WordSize(p))](_ => 0.0);
    CharEmbeddingLookup(p, embeddings);
    ConvMaxPool(p, embeddings[..], output);
    AllCells(p, output[..], old(output[..]));
  }
}
