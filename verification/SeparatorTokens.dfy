/** What the tokens of a separated string are: when there are any, where they lie in the string,
    and what can go wrong for separators that respect characters. */
module SeparatorTokens {

  import opened Prelude
  import opened Utf8
  import opened CharTokenizer
  import opened SeparatorScan
  import opened SeparatorTokenizer

  // ----- where the tokens lie ---------------------------------------------------------------

  /** The texts of `row` lie in `s` one after the other, without overlap, between two places. */
  ghost predicate InOrder(s: Bytes, row: seq<Bytes>, from: nat, to: nat)
  {
    if row == [] then from <= to <= |s|
    else exists p: nat :: LiesAt(s, row[0], p) && from <= p && InOrder(s, row[1..], p + |row[0]|, to)
  }

  predicate LiesAt(s: Bytes, text: Bytes, p: nat)
  {
    p + |text| <= |s| && s[p..p + |text|] == text
  }

  lemma {:induction false} InOrderWeaken(s: Bytes, row: seq<Bytes>, from: nat, to: nat, from': nat)
    requires InOrder(s, row, from, to) && from' <= from
    ensures InOrder(s, row, from', to) && from <= to <= |s|
  {
    if row != [] {
      var p: nat :| LiesAt(s, row[0], p) && from <= p && InOrder(s, row[1..], p + |row[0]|, to);
      InOrderWeaken(s, row[1..], p + |row[0]|, to, p + |row[0]|);
    }
  }

  lemma {:induction false} InOrderConcat(s: Bytes, a: seq<Bytes>, b: seq<Bytes>, from: nat, middle: nat, to: nat)
    requires InOrder(s, a, from, middle) && InOrder(s, b, middle, to)
    ensures InOrder(s, a + b, from, to)
  {
    if a == [] {
      assert a + b == b;
      InOrderWeaken(s, b, middle, to, from);
    } else {
      var p: nat :| LiesAt(s, a[0], p) && from <= p && InOrder(s, a[1..], p + |a[0]|, middle);
      InOrderConcat(s, a[1..], b, p + |a[0]|, middle, to);
      assert (a + b)[0] == a[0] && (a + b)[1..] == a[1..] + b;
    }
  }

  lemma LiesWithin(s: Bytes, text: Bytes, at: nat, piece: Bytes, p: nat)
    requires LiesAt(s, text, at) && LiesAt(text, piece, p)
    ensures LiesAt(s, piece, at + p)
  {
    forall i | 0 <= i < |piece| ensures s[at + p + i] == piece[i] {
      assert text[p..p + |piece|][i] == text[p + i];
      assert s[at..at + |text|][p + i] == s[at + p + i];
    }
  }

  /** What lies in a part of `s` lies in `s`. */
  lemma {:induction false} InOrderWithin(s: Bytes, text: Bytes, at: nat, row: seq<Bytes>, from: nat)
    requires LiesAt(s, text, at) && InOrder(text, row, from, |text|)
    ensures InOrder(s, row, at + from, at + |text|)
  {
    if row != [] {
      var p: nat :| LiesAt(text, row[0], p) && from <= p && InOrder(text, row[1..], p + |row[0]|, |text|);
      InOrderWithin(s, text, at, row[1..], p + |row[0]|);
      LiesWithin(s, text, at, row[0], p);
    }
  }

  // ----- the pieces of a scan ---------------------------------------------------------------

  lemma {:induction false} PiecesInOrder(m: Matcher, text: Bytes, start: nat)
    requires Searches(m) && start <= |text| && ScanFrom(m, text, start).ending.Finished?
    ensures InOrder(text, ScanFrom(m, text, start).pieces, start, |text|)
    decreases |text| - start
  {
    if m(text, start).Some? {
      var x := m(text, start).value;
      var next := NextStart(text, x);
      ScanStep(m, text, start, x);
      PiecesInOrder(m, text, next);
      var rest := ScanFrom(m, text, next).pieces;
      InOrderWeaken(text, rest, next, |text|, x.pos);
      InOrderCons(text, text[start..x.pos], rest, start, start, |text|);
    } else {
      InOrderCons(text, text[start..], [], start, start, |text|);
      assert [text[start..]] + [] == [text[start..]];
    }
  }

  lemma {:induction false} KeepInOrder(s: Bytes, row: seq<Bytes>, from: nat, to: nat, least: nat)
    requires InOrder(s, row, from, to)
    ensures InOrder(s, Keep(row, least), from, to)
  {
    if row != [] {
      var p: nat :| LiesAt(s, row[0], p) && from <= p && InOrder(s, row[1..], p + |row[0]|, to);
      KeepInOrder(s, row[1..], p + |row[0]|, to, least);
      var rest := Keep(row[1..], least);
      if LongEnough(row[0], least) {
        InOrderCons(s, row[0], rest, from, p, to);
      } else {
        InOrderWeaken(s, rest, p + |row[0]|, to, from);
        assert [] + rest == rest;
      }
    }
  }

  lemma InOrderCons(s: Bytes, text: Bytes, rest: seq<Bytes>, from: nat, p: nat, to: nat)
    requires LiesAt(s, text, p) && from <= p && InOrder(s, rest, p + |text|, to)
    ensures InOrder(s, [text] + rest, from, to)
  {
    var row := [text] + rest;
    assert row[0] == text && row[1..] == rest;
    assert LiesAt(s, row[0], p);
  }

  /** Tokens of one text lie in it in order. */
  lemma SplitInOrder(m: Matcher, text: Bytes, least: nat)
    requires Searches(m) && SplitOf(m, text, least).Tokens?
    ensures InOrder(text, SplitOf(m, text, least).tokens, 0, |text|)
  {
    PiecesInOrder(m, text, 0);
    KeepInOrder(text, ScanFrom(m, text, 0).pieces, 0, |text|, least);
  }

  lemma {:induction false} PassInOrder(s: Bytes, m: Matcher, row: seq<Bytes>, from: nat, to: nat, least: nat)
    requires Searches(m) && InOrder(s, row, from, to) && PassOf(m, row, least).Tokens?
    ensures InOrder(s, PassOf(m, row, least).tokens, from, to)
  {
    if row != [] {
      var p: nat :| LiesAt(s, row[0], p) && from <= p && InOrder(s, row[1..], p + |row[0]|, to);
      var end := p + |row[0]|;
      var first, rest := SplitOf(m, row[0], least).tokens, PassOf(m, row[1..], least).tokens;
      SplitInOrder(m, row[0], least);
      InOrderWithin(s, row[0], p, first, 0);
      InOrderWeaken(s, first, p, end, from);
      PassInOrder(s, m, row[1..], end, to, least);
      InOrderConcat(s, first, rest, from, end, to);
    }
  }

  // ----- long enough ------------------------------------------------------------------------

  ghost predicate AllLong(row: seq<Bytes>, least: nat)
  {
    forall i :: 0 <= i < |row| ==> LongEnough(row[i], least)
  }

  lemma LongConcat(a: seq<Bytes>, b: seq<Bytes>, least: nat)
    requires AllLong(a, least) && AllLong(b, least)
    ensures AllLong(a + b, least)
  {
  }

  lemma {:induction false} KeepLong(pieces: seq<Bytes>, least: nat)
    ensures AllLong(Keep(pieces, least), least)
  {
    if pieces != [] {
      KeepLong(pieces[1..], least);
      LongConcat(KeepOne(pieces[0], least), Keep(pieces[1..], least), least);
    }
  }

  lemma {:induction false} PassLong(m: Matcher, row: seq<Bytes>, least: nat)
    requires Searches(m) && PassOf(m, row, least).Tokens?
    ensures AllLong(PassOf(m, row, least).tokens, least)
  {
    if row != [] {
      KeepLong(ScanFrom(m, row[0], 0).pieces, least);
      PassLong(m, row[1..], least);
      LongConcat(SplitOf(m, row[0], least).tokens, PassOf(m, row[1..], least).tokens, least);
    }
  }

  lemma {:induction false} PassesInOrder(s: Bytes, ms: seq<Matcher>, row: seq<Bytes>, least: nat)
    requires AllSearch(ms) && InOrder(s, row, 0, |s|) && PassesOf(ms, row, least).Tokens?
    ensures InOrder(s, PassesOf(ms, row, least).tokens, 0, |s|)
    ensures ms != [] ==> AllLong(PassesOf(ms, row, least).tokens, least)
  {
    if ms != [] {
      PassInOrder(s, ms[0], row, 0, |s|, least);
      PassLong(ms[0], row, least);
      PassesInOrder(s, ms[1..], PassOf(ms[0], row, least).tokens, least);
    }
  }

  /** The tokens of a string are pieces of it, in order, without overlap, all of them long enough,
      whatever the separators match. */
  lemma TokensInOrder(s: Bytes, ms: seq<Matcher>, least: nat)
    requires AllSearch(ms) && ms != [] && PassesOf(ms, [s], least).Tokens?
    ensures InOrder(s, PassesOf(ms, [s], least).tokens, 0, |s|)
    ensures AllLong(PassesOf(ms, [s], least).tokens, least)
  {
    InOrderCons(s, s, [], 0, 0, |s|);
    assert [s] + [] == [s];
    PassesInOrder(s, ms, [s], least);
  }

  // ----- separators that respect characters -------------------------------------------------

  ghost predicate AllAligned(ms: seq<Matcher>)
  {
    forall i :: 0 <= i < |ms| ==> Searches(ms[i]) && CharAligned(ms[i])
  }

  ghost predicate NoneEmpty(ms: seq<Matcher>)
  {
    forall i :: 0 <= i < |ms| ==> NeverEmpty(ms[i])
  }

  /** The tokens are valid, or the search left the text. */
  ghost predicate FineOrLeaves(r: Split<Bytes>)
  {
    match r
    case Tokens(tokens) => AllValid(tokens)
    case Fails(fault) => fault == LeavesText
  }

  lemma AllValidMeasured(pieces: seq<Bytes>)
    requires AllValid(pieces)
    ensures AllMeasured(pieces)
  {
    forall i | 0 <= i < |pieces| ensures Measured(pieces[i]) {
      ValidMeasured(pieces[i]);
    }
  }

  lemma AllValidConcat(a: seq<Bytes>, b: seq<Bytes>)
    requires AllValid(a) && AllValid(b)
    ensures AllValid(a + b)
  {
  }

  lemma {:induction false} KeepValid(pieces: seq<Bytes>, least: nat)
    requires AllValid(pieces)
    ensures AllValid(Keep(pieces, least))
  {
    if pieces != [] {
      KeepValid(pieces[1..], least);
      AllValidConcat(KeepOne(pieces[0], least), Keep(pieces[1..], least));
    }
  }

  /** On valid text an aligned separator fails exactly by meeting an empty match at the end. */
  lemma AlignedSplit(m: Matcher, text: Bytes, least: nat)
    requires Searches(m) && CharAligned(m) && Valid(text)
    ensures FineOrLeaves(SplitOf(m, text, least))
    ensures SplitOf(m, text, least).Fails? <==> MeetsEmptyEnd(m, text, 0)
    ensures NeverEmpty(m) ==> SplitOf(m, text, least).Tokens?
  {
    var scan := ScanFrom(m, text, 0);
    StartIsBoundary(text);
    PiecesValid(m, text, 0);
    AllValidMeasured(Checked(scan));
    KeepValid(scan.pieces, least);
    StaysInsideIff(m, text, 0);
    if NeverEmpty(m) {
      SeparatorFinishes(m, text, 0);
    }
  }

  /** Some text of the row has an empty match at its end that the search meets. */
  ghost predicate SomeMeetsEmptyEnd(m: Matcher, row: seq<Bytes>)
  {
    exists i :: 0 <= i < |row| && MeetsEmptyEnd(m, row[i], 0)
  }

  lemma {:induction false} AlignedPass(m: Matcher, row: seq<Bytes>, least: nat)
    requires Searches(m) && CharAligned(m) && AllValid(row)
    ensures FineOrLeaves(PassOf(m, row, least))
    ensures PassOf(m, row, least).Fails? <==> SomeMeetsEmptyEnd(m, row)
    ensures NeverEmpty(m) ==> PassOf(m, row, least).Tokens?
  {
    if row != [] {
      AlignedSplit(m, row[0], least);
      AlignedPass(m, row[1..], least);
      assert row == [row[0]] + row[1..];
      SomeMeetsCons(m, row[0], row[1..]);
      var first, rest := SplitOf(m, row[0], least), PassOf(m, row[1..], least);
      if first.Tokens? && rest.Tokens? {
        AllValidConcat(first.tokens, rest.tokens);
      }
    }
  }

  lemma SomeMeetsCons(m: Matcher, text: Bytes, rest: seq<Bytes>)
    ensures SomeMeetsEmptyEnd(m, [text] + rest) <==> MeetsEmptyEnd(m, text, 0) || SomeMeetsEmptyEnd(m, rest)
  {
    var row := [text] + rest;
    if MeetsEmptyEnd(m, text, 0) {
      assert row[0] == text;
    }
    if SomeMeetsEmptyEnd(m, rest) {
      var i :| 0 <= i < |rest| && MeetsEmptyEnd(m, rest[i], 0);
      assert row[i + 1] == rest[i];
    }
  }

  /** Separators that respect characters leave valid tokens of a valid string, unless the search of
      one of them leaves a text; those that never match the empty string never fail. */
  lemma {:induction false} AlignedPasses(ms: seq<Matcher>, row: seq<Bytes>, least: nat)
    requires AllAligned(ms) && AllValid(row)
    ensures FineOrLeaves(PassesOf(ms, row, least))
    ensures NoneEmpty(ms) ==> PassesOf(ms, row, least).Tokens?
  {
    if ms != [] {
      AlignedPass(ms[0], row, least);
      var next := PassOf(ms[0], row, least);
      if next.Tokens? {
        AlignedPasses(ms[1..], next.tokens, least);
      }
    }
  }

  // ----- what a caller can check before the call --------------------------------------------

  /** A leftmost separator that respects characters fails on a valid text if and only if it matches
      at the end of the text. */
  lemma LeftmostSplitIff(m: Matcher, text: Bytes, least: nat)
    requires Searches(m) && Leftmost(m) && CharAligned(m) && Valid(text)
    ensures SplitOf(m, text, least).Fails? <==> m(text, |text|).Some?
  {
    AlignedSplit(m, text, least);
    StaysInsideIff(m, text, 0);
    LeftmostLeavesIff(m, text);
  }

  /** On a row of valid texts, if and only if it matches at the end of one of them. */
  lemma LeftmostPassIff(m: Matcher, row: seq<Bytes>, least: nat)
    requires Searches(m) && Leftmost(m) && CharAligned(m) && AllValid(row)
    ensures PassOf(m, row, least).Fails? <==> exists i :: 0 <= i < |row| && m(row[i], |row[i]|).Some?
  {
    AlignedPass(m, row, least);
    forall i | 0 <= i < |row| ensures MeetsEmptyEnd(m, row[i], 0) <==> m(row[i], |row[i]|).Some? {
      StaysInsideIff(m, row[i], 0);
      LeftmostLeavesIff(m, row[i]);
    }
  }

  /** Finds the end of the text and nothing else. */
  function AtEnd(text: Bytes, start: nat): (x: Option<Span>)
  {
    if start <= |text| then Some(Span(|text|, 0)) else None
  }

  /** A separator that matches the end of the text leaves every valid text. */
  lemma AtEndLeaves(text: Bytes, least: nat)
    requires Valid(text)
    ensures Searches(AtEnd) && Leftmost(AtEnd) && CharAligned(AtEnd)
    ensures SplitOf(AtEnd, text, least) == Fails(LeavesText)
  {
    forall t: Bytes, start: nat | AtEnd(t, start).Some? && Boundary(t, start) && Valid(t)
      ensures Boundary(t, AtEnd(t, start).value.pos)
    {
      assert t[..|t|] == t;
    }
    assert AtEnd(text, |text|).Some?;
    AlignedSplit(AtEnd, text, least);
    LeftmostSplitIff(AtEnd, text, least);
  }

  /** Finds the first byte, and then nothing in front of the second. */
  function FirstByte(text: Bytes, start: nat): (x: Option<Span>)
  {
    if start == 0 && |text| > 0 then Some(Span(0, 1)) else if start == 1 <= |text| then Some(Span(1, 0)) else None
  }

  /** A separator that cuts the character C3 A9 in two repeats one round for ever. */
  lemma FirstByteNeverEnds(least: nat)
    ensures Searches(FirstByte) && Valid([0xC3, 0xA9]) && SplitOf(FirstByte, [0xC3, 0xA9], least) == Fails(NeverEnds)
  {
    var text := [0xC3, 0xA9];
    ConcatOne(text);
    assert IsSplit(text, [text]);
    assert ScanFrom(FirstByte, text, 1) == Scan([text[1..1]], [], Stuck);
    ScanStep(FirstByte, text, 0, Span(0, 1));
    assert IsUnitSplit([], []);
    assert text[1..1] == [] && text[0..0] == [];
    var scan := ScanFrom(FirstByte, text, 0);
    assert scan.pieces == [[], []];
    assert AllMeasured(scan.pieces);
  }
}
