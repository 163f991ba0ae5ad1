/** The scan of one text for one separator, for every way of finding matches: where it goes, what
    it cuts out, and when it leaves the text or never ends. A compiled regular expression is a
    function that finds the next match in a text at or after a position. */
module SeparatorScan {

  import opened Prelude
  import opened Utf8

  datatype Span = Span(pos: nat, len: nat)

  type Matcher = (Bytes, nat) -> Option<Span>

  /** A match lies in the text, at or after the place where the search starts; nothing is found
      by starting beyond the end. */
  ghost predicate Searches(m: Matcher)
  {
    forall text: Bytes, start: nat :: m(text, start).Some? ==>
      start <= m(text, start).value.pos <= m(text, start).value.pos + m(text, start).value.len <= |text|
  }

  ghost predicate NeverEmpty(m: Matcher)
  {
    forall text: Bytes, start: nat :: m(text, start).Some? ==> m(text, start).value.len > 0
  }

  /** In valid text a search from a character boundary finds whole characters. */
  ghost predicate CharAligned(m: Matcher)
  {
    forall text: Bytes, start: nat :: m(text, start).Some? && Boundary(text, start) && Valid(text) ==>
      Boundary(text, m(text, start).value.pos) && Boundary(text, m(text, start).value.pos + m(text, start).value.len)
  }

  /** The text cuts into units, so that its characters can be counted. */
  ghost predicate Measured(s: Bytes)
  {
    exists us :: IsUnitSplit(s, us)
  }

  /** Whether `s` has at least so many characters. */
  ghost predicate LongEnough(s: Bytes, least: nat)
  {
    exists us {:trigger IsUnitSplit(s, us)} :: IsUnitSplit(s, us) && |us| >= least
  }

  lemma ValidMeasured(s: Bytes)
    requires Valid(s)
    ensures Measured(s)
  {
    var cs :| IsSplit(s, cs);
    SplitIsUnitSplit(s, cs);
  }

  lemma StartIsBoundary(text: Bytes)
    ensures Boundary(text, 0)
  {
    assert IsSplit(text[..0], []);
  }

  // ----- the scan ---------------------------------------------------------------------------

  /** Bytes skipped by an empty match: the character it stands in front of, or the terminating
      zero after the end of the text. */
  function Skip(text: Bytes, pos: nat): (n: nat)
  {
    if pos < |text| then LeadLength(text[pos]) else 1
  }

  /** Where the search goes on after a match. */
  function NextStart(text: Bytes, x: Span): (next: nat)
  {
    if x.len > 0 then x.pos + x.len else x.pos + Skip(text, x.pos)
  }

  /** How a scan ends: nothing more is found, the position leaves the text, or it stops moving. */
  datatype Ending = Finished | PastEnd | Stuck

  /** The pieces kept apart, what was cut out between them, and how the scan ended. */
  datatype Scan = Scan(pieces: seq<Bytes>, removed: seq<Bytes>, ending: Ending)

  ghost function ScanFrom(m: Matcher, text: Bytes, start: nat): (scan: Scan)
    requires Searches(m) && start <= |text|
    ensures scan.pieces != []
    decreases |text| - start
  {
    match m(text, start)
    case None => Scan([text[start..]], [], Finished)
    case Some(x) =>
      var next := NextStart(text, x);
      if next > |text| then Scan([text[start..x.pos]], [], PastEnd)
      else if next == start then Scan([text[start..x.pos]], [], Stuck)
      else Extended(text[start..x.pos], text[x.pos..next], ScanFrom(m, text, next))
  }

  function Extended(piece: Bytes, gone: Bytes, rest: Scan): (scan: Scan)
  {
    Scan([piece] + rest.pieces, [gone] + rest.removed, rest.ending)
  }

  /** The match moves the scan on, inside the text. */
  ghost predicate MovesOn(text: Bytes, start: nat, x: Span)
  {
    start != NextStart(text, x) <= |text|
  }

  lemma ScanStep(m: Matcher, text: Bytes, start: nat, x: Span)
    requires Searches(m) && start <= |text| && m(text, start) == Some(x) && MovesOn(text, start, x)
    ensures start <= x.pos <= NextStart(text, x) && start < NextStart(text, x)
    ensures ScanFrom(m, text, start)
         == Extended(text[start..x.pos], text[x.pos..NextStart(text, x)], ScanFrom(m, text, NextStart(text, x)))
  {
  }

  // ----- nothing is lost --------------------------------------------------------------------

  /** Pieces and separators in turn. */
  function Interleave(pieces: seq<Bytes>, separators: seq<Bytes>): (s: Bytes)
    requires |pieces| == |separators| + 1
  {
    if separators == [] then pieces[0]
    else pieces[0] + separators[0] + Interleave(pieces[1..], separators[1..])
  }

  lemma InterleaveExtended(piece: Bytes, gone: Bytes, rest: Scan)
    requires |rest.pieces| == |rest.removed| + 1
    ensures var scan := Extended(piece, gone, rest);
      Interleave(scan.pieces, scan.removed) == piece + gone + Interleave(rest.pieces, rest.removed)
  {
    var scan := Extended(piece, gone, rest);
    assert scan.pieces[1..] == rest.pieces && scan.removed[1..] == rest.removed;
  }

  lemma SplitTwice(text: Bytes, a: nat, b: nat, c: nat)
    requires a <= b <= c <= |text|
    ensures text[a..] == text[a..b] + text[b..c] + text[c..]
  {
  }

  lemma PrefixAfter(a: Bytes, b: Bytes, c: Bytes)
    requires b <= c
    ensures a + b <= a + c
  {
    assert (a + c)[..|a + b|] == a + c[..|b|];
  }

  /** Pieces interleaved with what was cut out are the text again, as far as the scan came. */
  lemma {:induction false} Reassembles(m: Matcher, text: Bytes, start: nat)
    requires Searches(m) && start <= |text|
    ensures var scan := ScanFrom(m, text, start);
      && |scan.pieces| == |scan.removed| + 1
      && Interleave(scan.pieces, scan.removed) <= text[start..]
      && (scan.ending.Finished? ==> Interleave(scan.pieces, scan.removed) == text[start..])
    decreases |text| - start
  {
    if m(text, start).Some? && MovesOn(text, start, m(text, start).value) {
      var x := m(text, start).value;
      var next := NextStart(text, x);
      ScanStep(m, text, start, x);
      Reassembles(m, text, next);
      var rest := ScanFrom(m, text, next);
      var piece, gone := text[start..x.pos], text[x.pos..next];
      InterleaveExtended(piece, gone, rest);
      SplitTwice(text, start, x.pos, next);
      PrefixAfter(piece + gone, Interleave(rest.pieces, rest.removed), text[next..]);
    } else if m(text, start).Some? {
      assert text[start..][..m(text, start).value.pos - start] == text[start..m(text, start).value.pos];
    }
  }

  // ----- staying inside ---------------------------------------------------------------------

  /** One round of the loop goes from position `i` of `ps` to the next. */
  ghost predicate Round(m: Matcher, text: Bytes, ps: seq<nat>, i: nat)
  {
    i + 1 < |ps| && ps[i] <= |text| && m(text, ps[i]).Some? && ps[i + 1] == NextStart(text, m(text, ps[i]).value)
  }

  /** The positions `ps` are visited one after the other. */
  ghost predicate Visits(m: Matcher, text: Bytes, ps: seq<nat>)
  {
    ps != [] && forall i :: 0 <= i < |ps| - 1 ==> Round(m, text, ps, i)
  }

  ghost predicate GoesTo(m: Matcher, text: Bytes, start: nat, p: nat)
  {
    exists ps {:trigger Visits(m, text, ps)} :: Visits(m, text, ps) && ps[0] == start && ps[|ps| - 1] == p
  }

  /** A scan from `start` leaves the text. */
  ghost predicate Leaves(m: Matcher, text: Bytes, start: nat)
  {
    exists p: nat :: p > |text| && GoesTo(m, text, start, p)
  }

  /** A scan from `start` comes to an empty match at the end of the text. */
  ghost predicate MeetsEmptyEnd(m: Matcher, text: Bytes, start: nat)
  {
    exists p: nat :: p <= |text| && GoesTo(m, text, start, p) && m(text, p) == Some(Span(|text|, 0))
  }

  lemma GoesNowhere(m: Matcher, text: Bytes, start: nat)
    ensures GoesTo(m, text, start, start)
  {
    assert Visits(m, text, [start]);
  }

  lemma GoesOneFurther(m: Matcher, text: Bytes, start: nat, p: nat)
    requires GoesTo(m, text, start, p) && p <= |text| && m(text, p).Some?
    ensures GoesTo(m, text, start, NextStart(text, m(text, p).value))
  {
    var ps :| Visits(m, text, ps) && ps[0] == start && ps[|ps| - 1] == p;
    var more := ps + [NextStart(text, m(text, p).value)];
    forall i | 0 <= i < |more| - 1 ensures Round(m, text, more, i) {
      assert i < |ps| - 1 ==> Round(m, text, ps, i);
    }
    assert Visits(m, text, more);
  }

  lemma GoesOneEarlier(m: Matcher, text: Bytes, start: nat, p: nat)
    requires start <= |text| && m(text, start).Some? && GoesTo(m, text, NextStart(text, m(text, start).value), p)
    ensures GoesTo(m, text, start, p)
  {
    var next := NextStart(text, m(text, start).value);
    var ps :| Visits(m, text, ps) && ps[0] == next && ps[|ps| - 1] == p;
    var more := [start] + ps;
    forall i | 0 <= i < |more| - 1 ensures Round(m, text, more, i) {
      assert i > 0 ==> Round(m, text, ps, i - 1);
    }
    assert Visits(m, text, more);
  }

  /** `gone` is a match that the scan from `start` meets, or the whole unit in front of which it meets
      an empty match. */
  ghost predicate CutBy(m: Matcher, text: Bytes, start: nat, gone: Bytes)
  {
    exists from: nat :: GoesTo(m, text, start, from) && CutAt(m, text, from, gone)
  }

  ghost predicate CutAt(m: Matcher, text: Bytes, from: nat, gone: Bytes)
  {
    match m(text, from)
    case None => false
    case Some(x) =>
      && x.pos + |gone| <= |text| && gone == text[x.pos..x.pos + |gone|]
      && if x.len > 0 then |gone| == x.len else IsUnit(gone)
  }

  lemma CutByMatch(m: Matcher, text: Bytes, start: nat, x: Span)
    requires Searches(m) && start <= |text| && m(text, start) == Some(x) && x.pos < NextStart(text, x) <= |text|
    ensures CutBy(m, text, start, text[x.pos..NextStart(text, x)])
  {
    var gone := text[x.pos..NextStart(text, x)];
    assert x.pos + |gone| == NextStart(text, x);
    assert gone[0] == text[x.pos];
    GoesNowhere(m, text, start);
    assert CutAt(m, text, start, gone);
  }

  lemma CutByEarlier(m: Matcher, text: Bytes, start: nat, gone: Bytes)
    requires start <= |text| && m(text, start).Some? && CutBy(m, text, NextStart(text, m(text, start).value), gone)
    ensures CutBy(m, text, start, gone)
  {
    var from: nat :| GoesTo(m, text, NextStart(text, m(text, start).value), from) && CutAt(m, text, from, gone);
    GoesOneEarlier(m, text, start, from);
  }

  /** Everything cut out is a match met by the scan, or the one unit that an empty match inside the
      text skips: that unit is in no piece. */
  lemma {:induction false} RemovedIsCut(m: Matcher, text: Bytes, start: nat, i: nat)
    requires Searches(m) && start <= |text| && i < |ScanFrom(m, text, start).removed|
    ensures var gone := ScanFrom(m, text, start).removed[i]; gone == [] || CutBy(m, text, start, gone)
    decreases |text| - start
  {
    var x := m(text, start).value;
    var next := NextStart(text, x);
    ScanStep(m, text, start, x);
    if i > 0 {
      RemovedIsCut(m, text, next, i - 1);
      var gone := ScanFrom(m, text, next).removed[i - 1];
      if gone != [] {
        CutByEarlier(m, text, start, gone);
      }
    } else if x.pos < next {
      CutByMatch(m, text, start, x);
    }
  }

  /** What is visited after the first position is visited from the next one. */
  lemma GoesFromNext(m: Matcher, text: Bytes, start: nat, p: nat)
    requires GoesTo(m, text, start, p) && p != start
    ensures start <= |text| && m(text, start).Some? && GoesTo(m, text, NextStart(text, m(text, start).value), p)
  {
    var ps :| Visits(m, text, ps) && ps[0] == start && ps[|ps| - 1] == p;
    var rest := ps[1..];
    assert Round(m, text, ps, 0);
    forall i | 0 <= i < |rest| - 1 ensures Round(m, text, rest, i) {
      assert Round(m, text, ps, i + 1);
    }
    assert Visits(m, text, rest);
  }

  /** A scan that does not move stays where it is. */
  lemma {:induction false} StuckStays(m: Matcher, text: Bytes, ps: seq<nat>, i: nat)
    requires Visits(m, text, ps) && i < |ps|
    requires m(text, ps[0]).Some? ==> NextStart(text, m(text, ps[0]).value) == ps[0]
    ensures ps[i] == ps[0]
  {
    if i > 0 {
      StuckStays(m, text, ps, i - 1);
      assert Round(m, text, ps, i - 1);
    }
  }

  /** The scan as it is computed ends beyond the text exactly if the positions lead there. */
  lemma {:induction false} PastEndIffLeaves(m: Matcher, text: Bytes, start: nat)
    requires Searches(m) && start <= |text|
    ensures ScanFrom(m, text, start).ending.PastEnd? <==> Leaves(m, text, start)
    decreases |text| - start
  {
    if m(text, start).Some? {
      var next := NextStart(text, m(text, start).value);
      GoesNowhere(m, text, start);
      GoesOneFurther(m, text, start, start);
      if start < next <= |text| {
        ScanStep(m, text, start, m(text, start).value);
        PastEndIffLeaves(m, text, next);
        if Leaves(m, text, start) {
          var p: nat :| p > |text| && GoesTo(m, text, start, p);
          GoesFromNext(m, text, start, p);
        }
        if Leaves(m, text, next) {
          var p: nat :| p > |text| && GoesTo(m, text, next, p);
          GoesOneEarlier(m, text, start, p);
        }
      } else if Leaves(m, text, start) && next == start {
        StuckNeverLeaves(m, text, start);
      }
    } else if Leaves(m, text, start) {
      var p: nat :| p > |text| && GoesTo(m, text, start, p);
      GoesFromNext(m, text, start, p);
    }
  }

  lemma StuckNeverLeaves(m: Matcher, text: Bytes, start: nat)
    requires start <= |text| && m(text, start).Some? && NextStart(text, m(text, start).value) == start
    ensures !Leaves(m, text, start)
  {
    forall ps | Visits(m, text, ps) && ps[0] == start ensures ps[|ps| - 1] == start {
      StuckStays(m, text, ps, |ps| - 1);
    }
  }

  /** The search finds a match that does not move it on. */
  ghost predicate Standstill(m: Matcher, text: Bytes, p: nat)
  {
    p <= |text| && m(text, p).Some? && NextStart(text, m(text, p).value) == p
  }

  ghost predicate MeetsStandstill(m: Matcher, text: Bytes, start: nat)
  {
    exists p: nat :: GoesTo(m, text, start, p) && Standstill(m, text, p)
  }

  lemma StandstillEarlier(m: Matcher, text: Bytes, start: nat)
    requires start <= |text| && m(text, start).Some? && MeetsStandstill(m, text, NextStart(text, m(text, start).value))
    ensures MeetsStandstill(m, text, start)
  {
    var p: nat :| GoesTo(m, text, NextStart(text, m(text, start).value), p) && Standstill(m, text, p);
    GoesOneEarlier(m, text, start, p);
  }

  lemma StandstillLater(m: Matcher, text: Bytes, start: nat)
    requires MeetsStandstill(m, text, start) && !Standstill(m, text, start)
    ensures start <= |text| && m(text, start).Some? && MeetsStandstill(m, text, NextStart(text, m(text, start).value))
  {
    var p: nat :| GoesTo(m, text, start, p) && Standstill(m, text, p);
    GoesFromNext(m, text, start, p);
  }

  lemma BeyondNoStandstill(m: Matcher, text: Bytes, start: nat)
    requires start > |text|
    ensures !MeetsStandstill(m, text, start)
  {
    if MeetsStandstill(m, text, start) {
      StandstillLater(m, text, start);
    }
  }

  /** The scan repeats one round for ever if and only if the positions lead to a match that does not
      move it on. */
  lemma {:induction false} StuckIffStandstill(m: Matcher, text: Bytes, start: nat)
    requires Searches(m) && start <= |text|
    ensures ScanFrom(m, text, start).ending.Stuck? <==> MeetsStandstill(m, text, start)
    decreases |text| - start
  {
    if m(text, start).None? {
      if MeetsStandstill(m, text, start) {
        StandstillLater(m, text, start);
      }
    } else {
      var x := m(text, start).value;
      var next := NextStart(text, x);
      if next == start {
        GoesNowhere(m, text, start);
        assert Standstill(m, text, start);
      } else {
        if next <= |text| {
          ScanStep(m, text, start, x);
          StuckIffStandstill(m, text, next);
        } else {
          BeyondNoStandstill(m, text, next);
        }
        if MeetsStandstill(m, text, next) {
          StandstillEarlier(m, text, start);
        }
        if MeetsStandstill(m, text, start) {
          StandstillLater(m, text, start);
        }
      }
    }
  }

  /** Such a match is empty, where the search stands, in front of a byte that leads no character. */
  lemma StandstillIff(m: Matcher, text: Bytes, p: nat)
    requires Searches(m)
    ensures Standstill(m, text, p) <==> p < |text| && m(text, p) == Some(Span(p, 0)) && LeadLength(text[p]) == 0
  {
  }

  /** A lead byte in valid text starts a character that ends inside the text. */
  lemma {:induction false} LeadStartsChar(cs: seq<Bytes>, text: Bytes, pos: nat)
    requires IsSplit(text, cs) && pos < |text| && LeadLength(text[pos]) > 0
    ensures pos + LeadLength(text[pos]) <= |text| && IsChar(text[pos..pos + LeadLength(text[pos])])
  {
    var c, rest := cs[0], Concat(cs[1..]);
    assert text == c + rest;
    if pos < |c| {
      FirstLead(c, rest, pos);
    } else {
      LeadStartsChar(cs[1..], rest, pos - |c|);
      SliceOfSuffix(c, rest, pos, pos + LeadLength(text[pos]));
    }
  }

  lemma FirstLead(c: Bytes, rest: Bytes, pos: nat)
    requires IsChar(c) && pos < |c| && LeadLength(c[pos]) > 0
    ensures pos == 0 && LeadLength(c[0]) == |c| && (c + rest)[..|c|] == c
  {
    CharIsUnit(c);
    if pos > 0 {
      TailIsNoLead(c, pos);
    }
  }

  lemma TailIsNoLead(c: Bytes, i: nat)
    requires IsChar(c) && 0 < i < |c|
    ensures LeadLength(c[i]) == 0
  {
  }

  /** In valid text one step leaves the text exactly at an empty match at its end. */
  lemma StepLeavesIff(m: Matcher, text: Bytes, p: nat)
    requires Searches(m) && Valid(text) && p <= |text| && m(text, p).Some?
    ensures NextStart(text, m(text, p).value) > |text| <==> m(text, p) == Some(Span(|text|, 0))
  {
    var x := m(text, p).value;
    if x.len == 0 && x.pos < |text| && LeadLength(text[x.pos]) > 0 {
      var cs :| IsSplit(text, cs);
      LeadStartsChar(cs, text, x.pos);
    }
  }

  lemma {:induction false} LastInside(m: Matcher, text: Bytes, start: nat, ps: seq<nat>)
    requires Searches(m) && Valid(text) && start <= |text|
    requires Visits(m, text, ps) && ps[0] == start && ps[|ps| - 1] > |text|
    ensures MeetsEmptyEnd(m, text, start)
  {
    var n := |ps| - 2;
    assert Round(m, text, ps, n);
    StepLeavesIff(m, text, ps[n]);
    var before := ps[..n + 1];
    forall i | 0 <= i < |before| - 1 ensures Round(m, text, before, i) {
      assert Round(m, text, ps, i);
    }
    assert Visits(m, text, before);
    assert GoesTo(m, text, start, ps[n]);
  }

  lemma LeavesMeansMeets(m: Matcher, text: Bytes, start: nat)
    requires Searches(m) && Valid(text) && start <= |text| && Leaves(m, text, start)
    ensures MeetsEmptyEnd(m, text, start)
  {
    var p: nat :| p > |text| && GoesTo(m, text, start, p);
    var ps :| Visits(m, text, ps) && ps[0] == start && ps[|ps| - 1] == p;
    LastInside(m, text, start, ps);
  }

  lemma MeetsMeansLeaves(m: Matcher, text: Bytes, start: nat)
    requires MeetsEmptyEnd(m, text, start)
    ensures Leaves(m, text, start)
  {
    var p: nat :| p <= |text| && GoesTo(m, text, start, p) && m(text, p) == Some(Span(|text|, 0));
    GoesOneFurther(m, text, start, p);
    assert NextStart(text, Span(|text|, 0)) == |text| + 1;
  }

  /** For every way of finding matches: in valid text the scan stays inside the text if and only if
      it meets no empty match at the end of the text. */
  lemma StaysInsideIff(m: Matcher, text: Bytes, start: nat)
    requires Searches(m) && Valid(text) && start <= |text|
    ensures !Leaves(m, text, start) <==> !MeetsEmptyEnd(m, text, start)
    ensures ScanFrom(m, text, start).ending.PastEnd? <==> MeetsEmptyEnd(m, text, start)
  {
    PastEndIffLeaves(m, text, start);
    if Leaves(m, text, start) {
      LeavesMeansMeets(m, text, start);
    }
    if MeetsEmptyEnd(m, text, start) {
      MeetsMeansLeaves(m, text, start);
    }
  }

  /** An empty match inside valid text loses exactly the character it stands in front of: the
      piece before ends there, and the scan goes on behind that character. */
  lemma EmptyMatchLosesCharacter(m: Matcher, text: Bytes, start: nat, pos: nat)
    requires Searches(m) && Valid(text) && start <= |text| && m(text, start) == Some(Span(pos, 0))
    requires pos < |text| && LeadLength(text[pos]) > 0
    ensures var n := LeadLength(text[pos]);
      && pos + n <= |text| && IsChar(text[pos..pos + n])
      && ScanFrom(m, text, start) == Extended(text[start..pos], text[pos..pos + n], ScanFrom(m, text, pos + n))
  {
    var cs :| IsSplit(text, cs);
    LeadStartsChar(cs, text, pos);
    ScanStep(m, text, start, Span(pos, 0));
  }

  // ----- leftmost search --------------------------------------------------------------------

  /** As regular expressions are searched: what is found from a place is found, or something before
      it, from any earlier place, and a match does not depend on where before it the search starts. */
  ghost predicate Leftmost(m: Matcher)
  {
    && (forall text: Bytes, p: nat, q: nat {:trigger m(text, p), m(text, q)} ::
          p <= q && m(text, q).Some? ==> m(text, p).Some?)
    && (forall text: Bytes, p: nat, q: nat {:trigger m(text, p), m(text, q)} ::
          p <= q && m(text, p).Some? && q <= m(text, p).value.pos ==> m(text, q) == m(text, p))
  }

  lemma {:induction false} NeverFinishes(m: Matcher, text: Bytes, start: nat)
    requires Searches(m) && Leftmost(m) && start <= |text| && m(text, |text|).Some?
    ensures !ScanFrom(m, text, start).ending.Finished?
    decreases |text| - start
  {
    assert m(text, start).Some?;
    var x := m(text, start).value;
    if MovesOn(text, start, x) {
      ScanStep(m, text, start, x);
      NeverFinishes(m, text, NextStart(text, x));
    }
  }

  /** A leftmost search that respects characters leaves a valid text if and only if it finds something
      at its end. */
  lemma LeftmostLeavesIff(m: Matcher, text: Bytes)
    requires Searches(m) && Leftmost(m) && CharAligned(m) && Valid(text)
    ensures ScanFrom(m, text, 0).ending.PastEnd? <==> m(text, |text|).Some?
  {
    StartIsBoundary(text);
    PiecesValid(m, text, 0);
    StaysInsideIff(m, text, 0);
    if m(text, |text|).Some? {
      NeverFinishes(m, text, 0);
    }
    if MeetsEmptyEnd(m, text, 0) {
      var p: nat :| p <= |text| && GoesTo(m, text, 0, p) && m(text, p) == Some(Span(|text|, 0));
      assert m(text, |text|) == m(text, p);
    }
  }

  // ----- well-behaved separators ------------------------------------------------------------

  ghost predicate IsSeparator(m: Matcher)
  {
    Searches(m) && NeverEmpty(m)
  }

  lemma {:induction false} SeparatorFinishes(m: Matcher, text: Bytes, start: nat)
    requires IsSeparator(m) && start <= |text|
    ensures ScanFrom(m, text, start).ending.Finished?
    decreases |text| - start
  {
    if m(text, start).Some? {
      ScanStep(m, text, start, m(text, start).value);
      SeparatorFinishes(m, text, NextStart(text, m(text, start).value));
    }
  }

  lemma AllValidCons(piece: Bytes, pieces: seq<Bytes>)
    requires Valid(piece) && AllValid(pieces)
    ensures AllValid([piece] + pieces)
  {
  }

  lemma AlignedNext(m: Matcher, text: Bytes, start: nat)
    requires Searches(m) && CharAligned(m) && Valid(text) && Boundary(text, start) && m(text, start).Some?
    ensures var x := m(text, start).value;
      && Boundary(text, x.pos)
      && (NextStart(text, x) <= |text| ==> Boundary(text, NextStart(text, x)) && start < NextStart(text, x))
  {
    var x := m(text, start).value;
    if x.len == 0 && x.pos < |text| {
      NextBoundary(text, x.pos);
    }
  }

  /** In valid text an aligned separator, even one with empty matches, leaves valid pieces and
      never gets stuck. */
  lemma {:induction false} PiecesValid(m: Matcher, text: Bytes, start: nat)
    requires Searches(m) && CharAligned(m) && Valid(text) && Boundary(text, start)
    ensures AllValid(ScanFrom(m, text, start).pieces) && !ScanFrom(m, text, start).ending.Stuck?
    decreases |text| - start
  {
    if m(text, start).None? {
      assert text[..|text|] == text;
      BetweenBoundaries(text, start, |text|);
    } else {
      var x := m(text, start).value;
      AlignedNext(m, text, start);
      BetweenBoundaries(text, start, x.pos);
      if NextStart(text, x) <= |text| {
        ScanStep(m, text, start, x);
        PiecesValid(m, text, NextStart(text, x));
        AllValidCons(text[start..x.pos], ScanFrom(m, text, NextStart(text, x)).pieces);
      }
    }
  }
}
