/** Tokenization by separators: every text of a row is cut at every match of every separator. */
module SeparatorTokenizer {

  import opened Prelude
  import opened Utf8
  import opened CharTokenizer
  import opened SeparatorScan

  // ----- what becomes of one text -----------------------------------------------------------

  ghost predicate AllMeasured(pieces: seq<Bytes>)
  {
    forall i :: 0 <= i < |pieces| ==> Measured(pieces[i])
  }

  /** The pieces in front of a match: all but the one after the last match. */
  ghost function Checked(scan: Scan): (pieces: seq<Bytes>)
    requires scan.pieces != []
  {
    if scan.ending.Finished? then scan.pieces[..|scan.pieces| - 1] else scan.pieces
  }

  ghost function KeepOne(piece: Bytes, least: nat): (kept: seq<Bytes>)
  {
    if LongEnough(piece, least) then [piece] else []
  }

  ghost function Keep(pieces: seq<Bytes>, least: nat): (kept: seq<Bytes>)
  {
    if pieces == [] then []
    else KeepOne(pieces[0], least) + Keep(pieces[1..], least)
  }

  /** A piece in front of a match that cannot be counted is an error; otherwise the way the scan
      ends decides, and a finished scan gives the pieces that are long enough. */
  ghost function Fate(scan: Scan, least: nat): (r: Split<Bytes>)
    requires scan.pieces != []
  {
    if !AllMeasured(Checked(scan)) then Fails(BadMatch)
    else match scan.ending
      case Finished => Tokens(Keep(scan.pieces, least))
      case PastEnd => Fails(LeavesText)
      case Stuck => Fails(NeverEnds)
  }

  ghost function SplitOf(m: Matcher, text: Bytes, least: nat): (r: Split<Bytes>)
    requires Searches(m)
  {
    Fate(ScanFrom(m, text, 0), least)
  }

  lemma MeasuredCons(piece: Bytes, pieces: seq<Bytes>)
    ensures AllMeasured([piece] + pieces) <==> Measured(piece) && AllMeasured(pieces)
  {
    var all := [piece] + pieces;
    assert all[0] == piece && forall i :: 0 <= i < |pieces| ==> all[i + 1] == pieces[i];
  }

  lemma CheckedExtended(piece: Bytes, gone: Bytes, rest: Scan)
    requires rest.pieces != []
    ensures Checked(Extended(piece, gone, rest)) == [piece] + Checked(rest)
  {
  }

  lemma KeepCons(piece: Bytes, rest: seq<Bytes>, least: nat)
    ensures Keep([piece] + rest, least) == KeepOne(piece, least) + Keep(rest, least)
  {
    assert ([piece] + rest)[1..] == rest;
  }

  lemma FateStep(piece: Bytes, gone: Bytes, rest: Scan, least: nat)
    requires rest.pieces != []
    ensures Fate(Extended(piece, gone, rest), least)
         == if Measured(piece) then Prepended(KeepOne(piece, least), Fate(rest, least)) else Fails(BadMatch)
  {
    CheckedExtended(piece, gone, rest);
    MeasuredCons(piece, Checked(rest));
    KeepCons(piece, rest.pieces, least);
  }

  lemma FateOfOne(piece: Bytes, ending: Ending, least: nat)
    ensures var r := Fate(Scan([piece], [], ending), least);
      match ending
      case Finished => r == Tokens(KeepOne(piece, least))
      case PastEnd => r == Fails(if Measured(piece) then LeavesText else BadMatch)
      case Stuck => r == Fails(if Measured(piece) then NeverEnds else BadMatch)
  {
    MeasuredCons(piece, []);
    KeepCons(piece, [], least);
    assert [piece] + [] == [piece];
    assert [piece][..0] == [];
  }

  // ----- the loop over one text -------------------------------------------------------------

  /** Measure a piece and append it if it is long enough. */
  method Consider(tokens: seq<Bytes>, piece: Bytes, least: nat) returns (valid: bool, more: seq<Bytes>)
    requires least > 0
    ensures valid <==> Measured(piece)
    ensures more == tokens + KeepOne(piece, least)
  {
    var chars;
    valid, chars := Length(piece);
    more := if valid && chars >= least then tokens + [piece] else tokens;
  }

  /** Behind the match, or behind the character in front of which an empty match was found. */
  method Advance(text: Bytes, x: Span) returns (next: nat)
    ensures next == NextStart(text, x)
  {
    if x.len > 0 {
      next := x.pos + x.len;
    } else {
      var _, bytes := LeadBytes(if x.pos < |text| then text[x.pos] else 0);
      next := x.pos + bytes;
    }
  }

  /** What the rest of the loop makes of the text, in terms of the next round. */
  lemma RoundFate(m: Matcher, text: Bytes, start: nat, least: nat, x: Span)
    requires Searches(m) && start <= |text| && m(text, start) == Some(x)
    ensures start <= x.pos <= |text|
    ensures var piece, next, r := text[start..x.pos], NextStart(text, x), Fate(ScanFrom(m, text, start), least);
      if !Measured(piece) then r == Fails(BadMatch)
      else if next > |text| then r == Fails(LeavesText)
      else if next == start then r == Fails(NeverEnds)
      else start < next && r == Prepended(KeepOne(piece, least), Fate(ScanFrom(m, text, next), least))
  {
    var piece, next := text[start..x.pos], NextStart(text, x);
    if MovesOn(text, start, x) {
      ScanStep(m, text, start, x);
      FateStep(piece, text[x.pos..next], ScanFrom(m, text, next), least);
    } else {
      FateOfOne(piece, if next > |text| then PastEnd else Stuck, least);
    }
  }

  /** The loop over one text, for every way of finding matches. */
  method SplitText(m: Matcher, text: Bytes, least: nat) returns (r: Split<Bytes>)
    requires Searches(m) && least > 0
    ensures r == SplitOf(m, text, least)
  {
    var start, tokens := 0, [];
    ghost var todo := SplitOf(m, text, least);
    var submatch := m(text, start);
    while submatch.Some?
      invariant start <= |text| && submatch == m(text, start)
      invariant todo == Fate(ScanFrom(m, text, start), least) && SplitOf(m, text, least) == Prepended(tokens, todo)
      decreases |text| - start
    {
      var x := submatch.value;
      RoundFate(m, text, start, least, x);
      ghost var before, kept := tokens, KeepOne(text[start..x.pos], least);
      var valid;
      valid, tokens := Consider(tokens, text[start..x.pos], least);
      if !valid {
        return Fails(BadMatch);
      }
      var next := Advance(text, x);
      if next > |text| {
        return Fails(LeavesText);
      }
      if next == start {
        return Fails(NeverEnds);
      }
      todo := Fate(ScanFrom(m, text, next), least);
      PrependedTwice(before, kept, todo);
      start := next;
      submatch := m(text, start);
    }
    FateOfOne(text[start..], Finished, least);
    var _, all := Consider(tokens, text[start..], least);
    return Tokens(all);
  }

  // ----- rows and separators ----------------------------------------------------------------

  /** One separator applied to the texts of a row, up to the first that fails. */
  ghost function PassOf(m: Matcher, row: seq<Bytes>, least: nat): (r: Split<Bytes>)
    requires Searches(m)
  {
    if row == [] then Tokens([])
    else
      match SplitOf(m, row[0], least)
      case Fails(fault) => Fails(fault)
      case Tokens(tokens) => Prepended(tokens, PassOf(m, row[1..], least))
  }

  ghost predicate AllSearch(ms: seq<Matcher>)
  {
    forall i :: 0 <= i < |ms| ==> Searches(ms[i])
  }

  /** All separators one after the other, up to the first that fails. */
  ghost function PassesOf(ms: seq<Matcher>, row: seq<Bytes>, least: nat): (r: Split<Bytes>)
    requires AllSearch(ms)
  {
    if ms == [] then Tokens(row)
    else
      match PassOf(ms[0], row, least)
      case Fails(fault) => Fails(fault)
      case Tokens(tokens) => PassesOf(ms[1..], tokens, least)
  }

  lemma PassStep(m: Matcher, row: seq<Bytes>, i: nat, least: nat)
    requires Searches(m) && i < |row|
    ensures PassOf(m, row[i..], least)
         == match SplitOf(m, row[i], least)
            case Fails(fault) => Fails(fault)
            case Tokens(tokens) => Prepended(tokens, PassOf(m, row[i + 1..], least))
  {
    assert row[i..][1..] == row[i + 1..];
  }

  /** The loop over the texts of a row. */
  method SplitRow(m: Matcher, row: seq<Bytes>, least: nat) returns (r: Split<Bytes>)
    requires Searches(m) && least > 0
    ensures r == PassOf(m, row, least)
  {
    var i, tokens := 0, [];
    ghost var todo := PassOf(m, row, least);
    assert row[0..] == row;
    while i < |row|
      invariant 0 <= i <= |row|
      invariant todo == PassOf(m, row[i..], least) && PassOf(m, row, least) == Prepended(tokens, todo)
    {
      PassStep(m, row, i, least);
      todo := PassOf(m, row[i + 1..], least);
      var more := SplitText(m, row[i], least);
      if more.Fails? {
        return more;
      }
      PrependedTwice(tokens, more.tokens, todo);
      tokens := tokens + more.tokens;
      i := i + 1;
    }
    return Tokens(tokens);
  }

  /** The loop over the separators, once the string has been found to be valid. */
  method SeparateRow(ms: seq<Matcher>, s: Bytes, least: nat) returns (r: Option<Split<Bytes>>)
    requires AllSearch(ms) && least > 0
    ensures r.Some? <==> Valid(s)
    ensures r.Some? ==> r.value == PassesOf(ms, [s], least)
  {
    var valid, _ := Validate(s);
    if !valid {
      return None;
    }
    var row := [s];
    var i := 0;
    assert ms[0..] == ms;
    while i < |ms|
      invariant 0 <= i <= |ms|
      invariant PassesOf(ms[i..], row, least) == PassesOf(ms, [s], least)
    {
      var next := SplitRow(ms[i], row, least);
      assert ms[i..][0] == ms[i] && ms[i..][1..] == ms[i + 1..];
      if next.Fails? {
        return Some(next);
      }
      row := next.tokens;
      i := i + 1;
    }
    return Some(Tokens(row));
  }

  // ----- the whole input --------------------------------------------------------------------

  ghost predicate Separates(ms: seq<Matcher>, s: Bytes, least: nat)
    requires AllSearch(ms)
  {
    Valid(s) && PassesOf(ms, [s], least).Tokens?
  }

  /** The tokens of each input. */
  ghost predicate SeparatedInto(ms: seq<Matcher>, input: seq<Bytes>, least: nat, rows: seq<seq<Bytes>>)
    requires AllSearch(ms)
  {
    |rows| == |input| && forall i :: 0 <= i < |rows| ==>
      Separates(ms, input[i], least) && rows[i] == PassesOf(ms, [input[i]], least).tokens
  }

  /** The first input without tokens decides the error. */
  ghost predicate FailsFirst(ms: seq<Matcher>, input: seq<Bytes>, least: nat, r: Outcome, i: nat)
    requires AllSearch(ms)
  {
    && i < |input| && (forall j :: 0 <= j < i ==> Separates(ms, input[j], least))
    && !Separates(ms, input[i], least)
    && r == if Valid(input[i]) then Faulty(PassesOf(ms, [input[i]], least).fault) else InvalidUtf8(input[i])
  }

  lemma SeparatedGrows(ms: seq<Matcher>, input: seq<Bytes>, i: nat, least: nat, rows: seq<seq<Bytes>>, row: seq<Bytes>)
    requires AllSearch(ms) && i < |input| && SeparatedInto(ms, input[..i], least, rows)
    requires Separates(ms, input[i], least) && row == PassesOf(ms, [input[i]], least).tokens
    ensures SeparatedInto(ms, input[..i + 1], least, rows + [row])
  {
    forall j | 0 <= j < i + 1
      ensures Separates(ms, input[..i + 1][j], least)
      ensures (rows + [row])[j] == PassesOf(ms, [input[..i + 1][j]], least).tokens
    {
      if j < i {
        assert input[..i][j] == input[..i + 1][j];
      }
    }
  }

  lemma SeparatedSoFar(ms: seq<Matcher>, input: seq<Bytes>, i: nat, least: nat, rows: seq<seq<Bytes>>)
    requires AllSearch(ms) && i <= |input| && SeparatedInto(ms, input[..i], least, rows)
    ensures forall j :: 0 <= j < i ==> Separates(ms, input[j], least)
  {
    forall j | 0 <= j < i ensures Separates(ms, input[j], least) {
      assert input[..i][j] == input[j] && Separates(ms, input[..i][j], least);
    }
  }

  method SeparatorTokenize(ms: seq<Matcher>, input: seq<Bytes>, least: nat, mark: bool, pad: Bytes) returns (r: Outcome)
    requires AllSearch(ms) && least > 0
    ensures if r.Tensor? then exists rows :: SeparatedInto(ms, input, least, rows) && HoldsRows(r, rows, mark, pad)
            else exists i :: FailsFirst(ms, input, least, r, i)
  {
    var rows: seq<seq<Bytes>>, longest: nat := [], 0;
    var i := 0;
    while i < |input|
      invariant 0 <= i <= |input|
      invariant SeparatedInto(ms, input[..i], least, rows) && IsLongest(rows, longest)
    {
      SeparatedSoFar(ms, input, i, least, rows);
      var row := SeparateRow(ms, input[i], least);
      if row.None? {
        r := InvalidUtf8(input[i]);
        assert FailsFirst(ms, input, least, r, i);
        return;
      }
      if row.value.Fails? {
        r := Faulty(row.value.fault);
        assert FailsFirst(ms, input, least, r, i);
        return;
      }
      LongestGrows(rows, row.value.tokens, longest);
      SeparatedGrows(ms, input, i, least, rows, row.value.tokens);
      rows := rows + [row.value.tokens];
      longest := if longest < |row.value.tokens| then |row.value.tokens| else longest;
      i := i + 1;
    }
    assert input[..i] == input;
    r := Emit(rows, longest, mark, pad);
  }
}
