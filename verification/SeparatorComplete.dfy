/** Which tokens a string is separated into, said of the positions the search visits and the units
    the pieces cut into: every piece that is long enough is a token, and nothing else is. */
module SeparatorComplete {

  import opened Prelude
  import opened Utf8
  import opened CharTokenizer
  import opened SeparatorScan
  import opened SeparatorTokenizer

  // ----- which pieces are kept --------------------------------------------------------------

  /** The bytes cut into `n` units. */
  ghost predicate HasUnits(s: Bytes, n: nat)
  {
    exists us :: IsUnitSplit(s, us) && |us| == n
  }

  ghost predicate Enough(s: Bytes, least: nat)
  {
    exists n: nat :: HasUnits(s, n) && n >= least
  }

  lemma EnoughIff(s: Bytes, least: nat)
    ensures Enough(s, least) <==> LongEnough(s, least)
  {
    if LongEnough(s, least) {
      var us :| IsUnitSplit(s, us) && |us| >= least;
      assert HasUnits(s, |us|);
    }
  }

  ghost predicate Increasing(at: seq<nat>)
  {
    forall i, j :: 0 <= i < j < |at| ==> at[i] < at[j]
  }

  ghost predicate AreAt(pieces: seq<Bytes>, at: seq<nat>, tokens: seq<Bytes>)
  {
    |tokens| == |at| && forall i :: 0 <= i < |at| ==> at[i] < |pieces| && tokens[i] == pieces[at[i]]
  }

  ghost predicate ListsLong(pieces: seq<Bytes>, least: nat, at: seq<nat>)
  {
    forall k :: 0 <= k < |pieces| ==> (k in at <==> Enough(pieces[k], least))
  }

  /** The tokens are the pieces at the places `at`, which are the places of all pieces that are long
      enough, in order. */
  ghost predicate Selects(pieces: seq<Bytes>, least: nat, at: seq<nat>, tokens: seq<Bytes>)
  {
    Increasing(at) && AreAt(pieces, at, tokens) && ListsLong(pieces, least, at)
  }

  function Shifted(at: seq<nat>): (s: seq<nat>)
  {
    seq(|at|, i requires 0 <= i < |at| => at[i] + 1)
  }

  lemma ShiftedMember(at: seq<nat>, k: nat)
    ensures k in Shifted(at) <==> k > 0 && k - 1 in at
  {
    if k > 0 && k - 1 in at {
      var i :| 0 <= i < |at| && at[i] == k - 1;
      assert Shifted(at)[i] == k;
    }
  }

  lemma IncreasingNext(at: seq<nat>)
    requires Increasing(at)
    ensures Increasing(Shifted(at)) && Increasing([0] + Shifted(at))
  {
    var now := [0] + Shifted(at);
    forall i, j | 0 <= i < j < |now| ensures now[i] < now[j] {
      assert now[j] == at[j - 1] + 1 && (i > 0 ==> now[i] == at[i - 1] + 1);
    }
  }

  lemma ListsNext(piece: Bytes, rest: seq<Bytes>, least: nat, at: seq<nat>)
    requires ListsLong(rest, least, at)
    ensures ListsLong([piece] + rest, least, if Enough(piece, least) then [0] + Shifted(at) else Shifted(at))
  {
    var pieces, now := [piece] + rest, if Enough(piece, least) then [0] + Shifted(at) else Shifted(at);
    forall k | 0 <= k < |pieces| ensures k in now <==> Enough(pieces[k], least) {
      ShiftedMember(at, k);
      assert k > 0 ==> pieces[k] == rest[k - 1];
    }
  }

  lemma AreAtNext(piece: Bytes, rest: seq<Bytes>, at: seq<nat>, tokens: seq<Bytes>)
    requires AreAt(rest, at, tokens)
    ensures AreAt([piece] + rest, Shifted(at), tokens)
    ensures AreAt([piece] + rest, [0] + Shifted(at), [piece] + tokens)
  {
    var pieces, now, all := [piece] + rest, [0] + Shifted(at), [piece] + tokens;
    forall i | 0 <= i < |now| ensures now[i] < |pieces| && all[i] == pieces[now[i]] {
      if i > 0 {
        assert now[i] == at[i - 1] + 1;
      }
    }
  }

  lemma SelectsNext(piece: Bytes, rest: seq<Bytes>, least: nat, at: seq<nat>, tokens: seq<Bytes>)
    requires Selects(rest, least, at, tokens)
    ensures if Enough(piece, least) then Selects([piece] + rest, least, [0] + Shifted(at), [piece] + tokens)
            else Selects([piece] + rest, least, Shifted(at), tokens)
  {
    IncreasingNext(at);
    ListsNext(piece, rest, least, at);
    AreAtNext(piece, rest, at, tokens);
  }

  lemma {:induction false} KeepSelects(pieces: seq<Bytes>, least: nat) returns (at: seq<nat>)
    ensures Selects(pieces, least, at, Keep(pieces, least))
  {
    at := [];
    if pieces != [] {
      at := KeepSelects(pieces[1..], least);
      SelectsNext(pieces[0], pieces[1..], least, at, Keep(pieces[1..], least));
      EnoughIff(pieces[0], least);
      assert [pieces[0]] + pieces[1..] == pieces;
      if Enough(pieces[0], least) {
        at := [0] + Shifted(at);
      } else {
        at := Shifted(at);
        assert [] + Keep(pieces[1..], least) == Keep(pieces[1..], least);
      }
    }
  }

  // ----- one text ---------------------------------------------------------------------------

  /** The search goes from `start` through the positions `ps` and finds nothing from the last; the
      pieces lie between each position and the match found from it, and behind the last. */
  ghost predicate CutsAt(m: Matcher, text: Bytes, start: nat, ps: seq<nat>, pieces: seq<Bytes>)
  {
    && Visits(m, text, ps) && ps[0] == start && |pieces| == |ps|
    && (forall i :: 0 <= i < |ps| - 1 ==> PieceAt(m, text, ps[i], pieces[i]))
    && ps[|ps| - 1] <= |text| && m(text, ps[|ps| - 1]).None? && pieces[|ps| - 1] == text[ps[|ps| - 1]..]
  }

  ghost predicate PieceAt(m: Matcher, text: Bytes, p: nat, piece: Bytes)
  {
    m(text, p).Some? && p <= m(text, p).value.pos <= |text| && piece == text[p..m(text, p).value.pos]
  }

  lemma CutsAtNext(m: Matcher, text: Bytes, start: nat, ps: seq<nat>, pieces: seq<Bytes>)
    requires Searches(m) && start <= |text| && m(text, start).Some?
    requires CutsAt(m, text, NextStart(text, m(text, start).value), ps, pieces)
    ensures CutsAt(m, text, start, [start] + ps, [text[start..m(text, start).value.pos]] + pieces)
  {
    var qs, all := [start] + ps, [text[start..m(text, start).value.pos]] + pieces;
    forall i | 0 <= i < |qs| - 1 ensures Round(m, text, qs, i) && PieceAt(m, text, qs[i], all[i]) {
      if i > 0 {
        assert Round(m, text, ps, i - 1) && PieceAt(m, text, ps[i - 1], pieces[i - 1]);
      }
    }
  }

  lemma {:induction false} ScanCuts(m: Matcher, text: Bytes, start: nat) returns (ps: seq<nat>)
    requires Searches(m) && start <= |text| && ScanFrom(m, text, start).ending.Finished?
    ensures CutsAt(m, text, start, ps, ScanFrom(m, text, start).pieces)
    decreases |text| - start
  {
    if m(text, start).Some? {
      var x := m(text, start).value;
      ScanStep(m, text, start, x);
      ps := ScanCuts(m, text, NextStart(text, x));
      CutsAtNext(m, text, start, ps, ScanFrom(m, text, NextStart(text, x)).pieces);
      ps := [start] + ps;
    } else {
      ps := [start];
    }
  }

  /** The tokens one separator makes of one text. */
  ghost predicate TextGives(m: Matcher, text: Bytes, least: nat, tokens: seq<Bytes>)
  {
    exists ps, pieces, at {:trigger CutsAt(m, text, 0, ps, pieces), Selects(pieces, least, at, tokens)} ::
      CutsAt(m, text, 0, ps, pieces) && Selects(pieces, least, at, tokens)
  }

  /** A text that is separated gives every piece that is long enough, in order, and nothing else. */
  lemma SplitComplete(m: Matcher, text: Bytes, least: nat)
    requires Searches(m) && SplitOf(m, text, least).Tokens?
    ensures TextGives(m, text, least, SplitOf(m, text, least).tokens)
  {
    var pieces := ScanFrom(m, text, 0).pieces;
    var ps := ScanCuts(m, text, 0);
    var at := KeepSelects(pieces, least);
    assert CutsAt(m, text, 0, ps, pieces) && Selects(pieces, least, at, SplitOf(m, text, least).tokens);
  }

  // ----- a row, and all separators ----------------------------------------------------------

  function Joined(parts: seq<seq<Bytes>>): (row: seq<Bytes>)
  {
    if parts == [] then [] else parts[0] + Joined(parts[1..])
  }

  ghost predicate AreParts(m: Matcher, row: seq<Bytes>, least: nat, parts: seq<seq<Bytes>>)
  {
    |parts| == |row| && forall i :: 0 <= i < |row| ==> TextGives(m, row[i], least, parts[i])
  }

  /** Each text of the row gives its part of the tokens. */
  ghost predicate RowGives(m: Matcher, row: seq<Bytes>, least: nat, tokens: seq<Bytes>)
  {
    exists parts :: AreParts(m, row, least, parts) && tokens == Joined(parts)
  }

  lemma PartsNext(m: Matcher, text: Bytes, rest: seq<Bytes>, least: nat, tokens: seq<Bytes>, parts: seq<seq<Bytes>>)
    requires TextGives(m, text, least, tokens) && AreParts(m, rest, least, parts)
    ensures AreParts(m, [text] + rest, least, [tokens] + parts) && Joined([tokens] + parts) == tokens + Joined(parts)
  {
    var row, all := [text] + rest, [tokens] + parts;
    assert all[1..] == parts;
    forall i | 0 <= i < |row| ensures TextGives(m, row[i], least, all[i]) {
      assert i > 0 ==> row[i] == rest[i - 1] && all[i] == parts[i - 1];
    }
  }

  lemma {:induction false} PassParts(m: Matcher, row: seq<Bytes>, least: nat) returns (parts: seq<seq<Bytes>>)
    requires Searches(m) && PassOf(m, row, least).Tokens?
    ensures AreParts(m, row, least, parts) && PassOf(m, row, least).tokens == Joined(parts)
  {
    parts := [];
    if row != [] {
      SplitComplete(m, row[0], least);
      parts := PassParts(m, row[1..], least);
      PartsNext(m, row[0], row[1..], least, SplitOf(m, row[0], least).tokens, parts);
      parts := [SplitOf(m, row[0], least).tokens] + parts;
      assert [row[0]] + row[1..] == row;
    }
  }

  lemma PassComplete(m: Matcher, row: seq<Bytes>, least: nat)
    requires Searches(m) && PassOf(m, row, least).Tokens?
    ensures RowGives(m, row, least, PassOf(m, row, least).tokens)
  {
    var parts := PassParts(m, row, least);
  }

  /** Each separator turns a row into the next. */
  ghost predicate Chain(ms: seq<Matcher>, rows: seq<seq<Bytes>>, least: nat)
  {
    |rows| == |ms| + 1 && forall i :: 0 <= i < |ms| ==> RowGives(ms[i], rows[i], least, rows[i + 1])
  }

  /** Every separator is applied once, in order, to what the one before it leaves. */
  lemma {:induction false} PassesComplete(ms: seq<Matcher>, row: seq<Bytes>, least: nat)
    returns (rows: seq<seq<Bytes>>)
    requires AllSearch(ms) && PassesOf(ms, row, least).Tokens?
    ensures Chain(ms, rows, least) && rows[0] == row && rows[|ms|] == PassesOf(ms, row, least).tokens
  {
    if ms == [] {
      rows := [row];
    } else {
      PassComplete(ms[0], row, least);
      var next := PassOf(ms[0], row, least).tokens;
      var rest := PassesComplete(ms[1..], next, least);
      rows := [row] + rest;
      ChainNext(ms[0], ms[1..], row, rest, least);
      assert [ms[0]] + ms[1..] == ms;
    }
  }

  lemma ChainNext(m: Matcher, ms: seq<Matcher>, row: seq<Bytes>, rows: seq<seq<Bytes>>, least: nat)
    requires Chain(ms, rows, least) && RowGives(m, row, least, rows[0])
    ensures Chain([m] + ms, [row] + rows, least)
  {
    var all, chain := [m] + ms, [row] + rows;
    forall i | 0 <= i < |all| ensures RowGives(all[i], chain[i], least, chain[i + 1]) {
      if i > 0 {
        assert all[i] == ms[i - 1] && chain[i] == rows[i - 1] && chain[i + 1] == rows[i - 1 + 1];
      }
    }
  }

  /** `row` holds the tokens of the string. */
  ghost predicate StringGives(ms: seq<Matcher>, s: Bytes, least: nat, row: seq<Bytes>)
  {
    exists rows :: Chain(ms, rows, least) && rows[0] == [s] && rows[|ms|] == row
  }

  /** The rows the tokenizer writes are the tokens of its inputs. */
  lemma RowsComplete(ms: seq<Matcher>, input: seq<Bytes>, least: nat, rows: seq<seq<Bytes>>)
    requires AllSearch(ms) && SeparatedInto(ms, input, least, rows)
    ensures |rows| == |input| && forall i :: 0 <= i < |input| ==> StringGives(ms, input[i], least, rows[i])
  {
    forall i | 0 <= i < |input| ensures StringGives(ms, input[i], least, rows[i]) {
      assert Separates(ms, input[i], least);
      var chain := PassesComplete(ms, [input[i]], least);
      assert Chain(ms, chain, least);
    }
  }

  // ----- what goes wrong --------------------------------------------------------------------

  /** The search comes to a match in front of which the bytes do not cut into units. */
  ghost predicate MeetsBad(m: Matcher, text: Bytes, start: nat)
  {
    exists p: nat :: GoesTo(m, text, start, p) && p <= |text| && BadAt(m, text, p)
  }

  ghost predicate BadAt(m: Matcher, text: Bytes, p: nat)
  {
    && m(text, p).Some? && p <= m(text, p).value.pos <= |text|
    && forall n: nat :: !HasUnits(text[p..m(text, p).value.pos], n)
  }

  lemma MeasuredIff(s: Bytes)
    ensures Measured(s) <==> exists n: nat :: HasUnits(s, n)
  {
    if Measured(s) {
      var us :| IsUnitSplit(s, us);
      assert HasUnits(s, |us|);
    }
  }

  lemma BadIff(m: Matcher, text: Bytes, p: nat)
    requires Searches(m) && p <= |text| && m(text, p).Some?
    ensures BadAt(m, text, p) <==> !Measured(text[p..m(text, p).value.pos])
  {
    MeasuredIff(text[p..m(text, p).value.pos]);
  }

  lemma {:induction false} BadMatchIff(m: Matcher, text: Bytes, start: nat, least: nat)
    requires Searches(m) && start <= |text|
    ensures Fate(ScanFrom(m, text, start), least) == Fails(BadMatch) <==> MeetsBad(m, text, start)
    decreases |text| - start
  {
    GoesNowhere(m, text, start);
    if m(text, start).Some? {
      var x := m(text, start).value;
      var next := NextStart(text, x);
      RoundFate(m, text, start, least, x);
      BadIff(m, text, start);
      if !BadAt(m, text, start) {
        if MeetsBad(m, text, start) {
          var p: nat :| GoesTo(m, text, start, p) && p <= |text| && BadAt(m, text, p);
          GoesFromNext(m, text, start, p);
          if next > |text| {
            BeyondStays(m, text, next, p);
          } else if next == start {
            StandsStill(m, text, start, p);
          }
          assert start < next <= |text| && MeetsBad(m, text, next);
        }
        if start < next <= |text| {
          BadMatchIff(m, text, next, least);
          if MeetsBad(m, text, next) {
            var p: nat :| GoesTo(m, text, next, p) && p <= |text| && BadAt(m, text, p);
            GoesOneEarlier(m, text, start, p);
          }
        }
      }
    } else {
      FateOfOne(text[start..], Finished, least);
      if MeetsBad(m, text, start) {
        var p: nat :| GoesTo(m, text, start, p) && p <= |text| && BadAt(m, text, p);
        GoesFromNext(m, text, start, p);
      }
    }
  }

  lemma BeyondStays(m: Matcher, text: Bytes, start: nat, p: nat)
    requires start > |text| && GoesTo(m, text, start, p)
    ensures p == start
  {
    if p != start {
      GoesFromNext(m, text, start, p);
      assert false;
    }
  }

  lemma StandsStill(m: Matcher, text: Bytes, start: nat, p: nat)
    requires GoesTo(m, text, start, p) && m(text, start).Some? && NextStart(text, m(text, start).value) == start
    ensures p == start
  {
    var ps :| Visits(m, text, ps) && ps[0] == start && ps[|ps| - 1] == p;
    StuckStays(m, text, ps, |ps| - 1);
  }

  /** What is reported: first of all a match that cannot be counted, else the way out of the text or
      the standstill that the search comes to, else the tokens. */
  lemma SplitFaultIff(m: Matcher, text: Bytes, least: nat)
    requires Searches(m)
    ensures SplitOf(m, text, least) == Fails(BadMatch) <==> MeetsBad(m, text, 0)
    ensures SplitOf(m, text, least) == Fails(LeavesText) <==> !MeetsBad(m, text, 0) && Leaves(m, text, 0)
    ensures SplitOf(m, text, least) == Fails(NeverEnds) <==> !MeetsBad(m, text, 0) && MeetsStandstill(m, text, 0)
  {
    BadMatchIff(m, text, 0, least);
    PastEndIffLeaves(m, text, 0);
    StuckIffStandstill(m, text, 0);
  }
}
