/** Which tokens an expression finds, said of the positions the search visits and the units the
    matches cut into. */
module ExpressionTokens {

  import opened Prelude
  import opened Utf8
  import opened CharTokenizer
  import opened SeparatorScan
  import opened SeparatorComplete
  import opened ExpressionTokenizer

  /** The bytes under a match. */
  function Under(text: Bytes, x: Span): (s: Bytes)
  {
    if x.pos + x.len <= |text| then text[x.pos..x.pos + x.len] else []
  }

  /** From `p` the search finds `x`, which can be counted, and goes on from `q`: behind `x` if it is
      long enough, else behind the unit it starts with; behind the end of the text if there is none. */
  ghost predicate StepsTo(m: Matcher, text: Bytes, least: nat, p: nat, q: nat)
  {
    match m(text, p)
    case None => false
    case Some(x) =>
      && (exists n: nat :: HasUnits(Under(text, x), n))
      && q == if Enough(Under(text, x), least) then x.pos + x.len
              else if x.pos < |text| then x.pos + LeadLength(text[x.pos])
              else x.pos + 1
  }

  ghost predicate StepAt(m: Matcher, text: Bytes, least: nat, ps: seq<nat>, i: nat)
  {
    i + 1 < |ps| && StepsTo(m, text, least, ps[i], ps[i + 1])
  }

  ghost predicate Path(m: Matcher, text: Bytes, least: nat, ps: seq<nat>)
  {
    ps != [] && forall i :: 0 <= i < |ps| - 1 ==> StepAt(m, text, least, ps, i)
  }

  /** The search from `start` comes to `p`. */
  ghost predicate Comes(m: Matcher, text: Bytes, least: nat, start: nat, p: nat)
  {
    exists ps :: Path(m, text, least, ps) && ps[0] == start && ps[|ps| - 1] == p
  }

  lemma ComesNowhere(m: Matcher, text: Bytes, least: nat, start: nat)
    ensures Comes(m, text, least, start, start)
  {
    assert Path(m, text, least, [start]);
  }

  lemma ComesEarlier(m: Matcher, text: Bytes, least: nat, start: nat, next: nat, p: nat)
    requires StepsTo(m, text, least, start, next) && Comes(m, text, least, next, p)
    ensures Comes(m, text, least, start, p)
  {
    var ps :| Path(m, text, least, ps) && ps[0] == next && ps[|ps| - 1] == p;
    var more := [start] + ps;
    forall i | 0 <= i < |more| - 1 ensures StepAt(m, text, least, more, i) {
      assert i > 0 ==> StepAt(m, text, least, ps, i - 1);
    }
    assert Path(m, text, least, more);
  }

  lemma ComesFromNext(m: Matcher, text: Bytes, least: nat, start: nat, p: nat) returns (next: nat)
    requires Comes(m, text, least, start, p) && p != start
    ensures StepsTo(m, text, least, start, next) && Comes(m, text, least, next, p)
  {
    var ps :| Path(m, text, least, ps) && ps[0] == start && ps[|ps| - 1] == p;
    next := ps[1];
    var rest := ps[1..];
    assert StepAt(m, text, least, ps, 0);
    forall i | 0 <= i < |rest| - 1 ensures StepAt(m, text, least, rest, i) {
      assert StepAt(m, text, least, ps, i + 1);
    }
    assert Path(m, text, least, rest);
  }

  lemma StepsIff(m: Matcher, text: Bytes, least: nat, p: nat, x: Span, q: nat)
    requires Searches(m) && m(text, p) == Some(x)
    ensures StepsTo(m, text, least, p, q) <==> Measured(text[x.pos..x.pos + x.len]) && q == Next(text, x, least)
  {
    EnoughIff(Under(text, x), least);
    MeasuredIff(Under(text, x));
  }

  // ----- what is found ----------------------------------------------------------------------

  /** The search comes to a position from which it finds `x`, and `x` is long enough. */
  ghost predicate Reported(m: Matcher, text: Bytes, least: nat, start: nat, x: Span)
  {
    Enough(Under(text, x), least) && exists p: nat :: Comes(m, text, least, start, p) && m(text, p) == Some(x)
  }

  lemma ReportedStep(m: Matcher, text: Bytes, least: nat, start: nat, next: nat, y: Span, x: Span)
    requires Searches(m) && m(text, start) == Some(y) && StepsTo(m, text, least, start, next)
    ensures Reported(m, text, least, start, x) <==>
            (x == y && Enough(Under(text, y), least)) || Reported(m, text, least, next, x)
  {
    ComesNowhere(m, text, least, start);
    if Reported(m, text, least, start, x) && x != y {
      var p: nat :| Comes(m, text, least, start, p) && m(text, p) == Some(x);
      var q := ComesFromNext(m, text, least, start, p);
      assert q == next;
    }
    if Reported(m, text, least, next, x) {
      var p: nat :| Comes(m, text, least, next, p) && m(text, p) == Some(x);
      ComesEarlier(m, text, least, start, next, p);
    }
  }

  lemma NothingReported(m: Matcher, text: Bytes, least: nat, start: nat, x: Span)
    requires m(text, start).None?
    ensures !Reported(m, text, least, start, x)
  {
    if Reported(m, text, least, start, x) {
      var p: nat :| Comes(m, text, least, start, p) && m(text, p) == Some(x);
      var q := ComesFromNext(m, text, least, start, p);
      assert false;
    }
  }

  /** The tokens are exactly the matches the search comes to that are long enough. */
  lemma {:induction false} FoundIff(m: Matcher, text: Bytes, start: nat, least: nat, x: Span)
    requires Searches(m) && Found(m, text, start, least).Tokens?
    ensures x in Found(m, text, start, least).tokens <==> Reported(m, text, least, start, x)
    decreases |text| + 1 - start
  {
    if m(text, start).Some? {
      var y := m(text, start).value;
      var next := Next(text, y, least);
      StepsIff(m, text, least, start, y, next);
      EnoughIff(Under(text, y), least);
      FoundIff(m, text, next, least, x);
      ReportedStep(m, text, least, start, next, y, x);
      assert Found(m, text, start, least).tokens == FoundOne(text, y, least) + Found(m, text, next, least).tokens;
    } else {
      NothingReported(m, text, least, start, x);
    }
  }

  /** `row` holds, in order, exactly the matches the search comes to that are long enough. */
  ghost predicate RowReports(m: Matcher, text: Bytes, least: nat, row: seq<Bytes>)
  {
    exists spans {:trigger AreTexts(row, text, spans)} :: AreTexts(row, text, spans) && Ordered(text, spans, 0, least)
      && forall x :: x in spans <==> Reported(m, text, least, 0, x)
  }

  /** The rows the tokenizer writes report its inputs. */
  lemma RowsReport(m: Matcher, input: seq<Bytes>, least: nat, rows: seq<seq<Bytes>>)
    requires Searches(m) && FoundInto(m, input, least, rows)
    ensures |rows| == |input| && forall i :: 0 <= i < |input| ==> RowReports(m, input[i], least, rows[i])
  {
    forall i | 0 <= i < |input| ensures RowReports(m, input[i], least, rows[i]) {
      assert FoundIn(m, input[i], least, rows[i]);
      var spans := Found(m, input[i], 0, least).tokens;
      FoundOrdered(m, input[i], 0, least);
      forall x ensures x in spans <==> Reported(m, input[i], least, 0, x) {
        FoundIff(m, input[i], 0, least, x);
      }
    }
  }

  // ----- what goes wrong --------------------------------------------------------------------

  /** The search comes to a match that does not cut into units. */
  ghost predicate ComesToBad(m: Matcher, text: Bytes, least: nat, start: nat)
  {
    exists p: nat :: Comes(m, text, least, start, p) && BadMatchAt(m, text, p)
  }

  ghost predicate BadMatchAt(m: Matcher, text: Bytes, p: nat)
  {
    m(text, p).Some? && forall n: nat :: !HasUnits(Under(text, m(text, p).value), n)
  }

  /** The search comes to a position from which it does not move on. */
  ghost predicate ComesToStop(m: Matcher, text: Bytes, least: nat, start: nat)
  {
    exists p: nat :: Comes(m, text, least, start, p) && StepsTo(m, text, least, p, p)
  }

  lemma BadMatchAtIff(m: Matcher, text: Bytes, p: nat)
    requires Searches(m) && m(text, p).Some?
    ensures var x := m(text, p).value; BadMatchAt(m, text, p) <==> !Measured(text[x.pos..x.pos + x.len])
  {
    MeasuredIff(Under(text, m(text, p).value));
  }

  lemma BadStep(m: Matcher, text: Bytes, least: nat, start: nat, next: nat)
    requires StepsTo(m, text, least, start, next)
    ensures ComesToBad(m, text, least, start) <==> ComesToBad(m, text, least, next)
    ensures start != next ==> (ComesToStop(m, text, least, start) <==> ComesToStop(m, text, least, next))
  {
    if ComesToBad(m, text, least, start) {
      var p: nat :| Comes(m, text, least, start, p) && BadMatchAt(m, text, p);
      var q := ComesFromNext(m, text, least, start, p);
      assert q == next;
    }
    if ComesToBad(m, text, least, next) {
      var p: nat :| Comes(m, text, least, next, p) && BadMatchAt(m, text, p);
      ComesEarlier(m, text, least, start, next, p);
    }
    if start != next && ComesToStop(m, text, least, start) {
      var p: nat :| Comes(m, text, least, start, p) && StepsTo(m, text, least, p, p);
      var q := ComesFromNext(m, text, least, start, p);
      assert q == next;
    }
    if ComesToStop(m, text, least, next) {
      var p: nat :| Comes(m, text, least, next, p) && StepsTo(m, text, least, p, p);
      ComesEarlier(m, text, least, start, next, p);
    }
  }

  /** Where nothing can be done next the search ends. */
  lemma EndsHere(m: Matcher, text: Bytes, least: nat, start: nat)
    requires forall q: nat :: StepsTo(m, text, least, start, q) ==> q == start
    ensures forall p: nat :: Comes(m, text, least, start, p) ==> p == start
  {
    forall p: nat | Comes(m, text, least, start, p) ensures p == start {
      var ps :| Path(m, text, least, ps) && ps[0] == start && ps[|ps| - 1] == p;
      StaysHere(m, text, least, ps, |ps| - 1);
    }
  }

  lemma {:induction false} StaysHere(m: Matcher, text: Bytes, least: nat, ps: seq<nat>, i: nat)
    requires Path(m, text, least, ps) && i < |ps| && forall q: nat :: StepsTo(m, text, least, ps[0], q) ==> q == ps[0]
    ensures ps[i] == ps[0]
  {
    if i > 0 {
      StaysHere(m, text, least, ps, i - 1);
      assert StepAt(m, text, least, ps, i - 1);
    }
  }

  /** Nothing is found, or it cannot be counted, or it leads nowhere else. */
  ghost predicate EndsAt(m: Matcher, text: Bytes, start: nat, least: nat)
    requires Searches(m)
  {
    match m(text, start)
    case None => true
    case Some(x) => !Measured(text[x.pos..x.pos + x.len]) || Next(text, x, least) <= start
  }

  lemma FaultHere(m: Matcher, text: Bytes, start: nat, least: nat)
    requires Searches(m) && EndsAt(m, text, start, least)
    ensures Found(m, text, start, least) == Fails(BadMatch) <==> ComesToBad(m, text, least, start)
    ensures Found(m, text, start, least) == Fails(NeverEnds) <==> ComesToStop(m, text, least, start)
    ensures Found(m, text, start, least) != Fails(LeavesText)
  {
    ComesNowhere(m, text, least, start);
    if m(text, start).Some? {
      var x := m(text, start).value;
      forall q: nat
        ensures StepsTo(m, text, least, start, q) <==>
                Measured(text[x.pos..x.pos + x.len]) && q == start == Next(text, x, least)
      {
        StepsIff(m, text, least, start, x, q);
      }
      BadMatchAtIff(m, text, start);
    }
    EndsHere(m, text, least, start);
  }

  /** The search fails exactly by coming to a match that cannot be counted, or to a standstill. */
  lemma {:induction false} FoundFaultIff(m: Matcher, text: Bytes, start: nat, least: nat)
    requires Searches(m)
    ensures Found(m, text, start, least) == Fails(BadMatch) <==> ComesToBad(m, text, least, start)
    ensures Found(m, text, start, least) == Fails(NeverEnds) <==> ComesToStop(m, text, least, start)
    ensures Found(m, text, start, least) != Fails(LeavesText)
    decreases |text| + 1 - start
  {
    if EndsAt(m, text, start, least) {
      FaultHere(m, text, start, least);
    } else {
      var x := m(text, start).value;
      var next := Next(text, x, least);
      StepsIff(m, text, least, start, x, next);
      FoundFaultIff(m, text, next, least);
      BadStep(m, text, least, start, next);
    }
  }
}
