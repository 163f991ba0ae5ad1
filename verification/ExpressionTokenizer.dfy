/** Tokenization by an expression that matches the tokens themselves. */
module ExpressionTokenizer {

  import opened Prelude
  import opened Utf8
  import opened CharTokenizer
  import opened SeparatorScan

  lemma LongIsNonEmpty(s: Bytes, least: nat)
    requires LongEnough(s, least) && least > 0
    ensures s != []
  {
    var us :| IsUnitSplit(s, us) && |us| >= least;
    assert Concat(us) == us[0] + Concat(us[1..]);
  }

  /** Where the search resumes. */
  ghost function Next(text: Bytes, x: Span, least: nat): (next: nat)
  {
    if x.pos + x.len <= |text| && LongEnough(text[x.pos..x.pos + x.len], least) then x.pos + x.len
    else x.pos + Skip(text, x.pos)
  }

  /** The search may go on from here. */
  ghost predicate Resumable(text: Bytes, start: nat)
  {
    Boundary(text, start) || start == |text| + 1
  }

  /** Every round of a search that respects characters makes progress, whatever is found. */
  lemma Progress(m: Matcher, text: Bytes, start: nat, least: nat)
    requires Searches(m) && CharAligned(m) && Valid(text) && Resumable(text, start) && least > 0 && m(text, start).Some?
    ensures start < Next(text, m(text, start).value, least) && Resumable(text, Next(text, m(text, start).value, least))
  {
    var x := m(text, start).value;
    assert Boundary(text, start);
    ProgressFrom(text, x, least);
  }

  lemma ProgressFrom(text: Bytes, x: Span, least: nat)
    requires Valid(text) && Boundary(text, x.pos) && Boundary(text, x.pos + x.len) && least > 0
    ensures x.pos < Next(text, x, least) && Resumable(text, Next(text, x, least))
  {
    if LongEnough(text[x.pos..x.pos + x.len], least) {
      LongIsNonEmpty(text[x.pos..x.pos + x.len], least);
    } else if x.pos < |text| {
      NextBoundary(text, x.pos);
    }
  }

  /** The match if it is a token. */
  ghost function FoundOne(text: Bytes, x: Span, least: nat): (spans: seq<Span>)
  {
    if x.pos + x.len <= |text| && LongEnough(text[x.pos..x.pos + x.len], least) then [x] else []
  }

  /** The tokens found from `start` on, unless a match cannot be counted or the search stops moving. */
  ghost function Found(m: Matcher, text: Bytes, start: nat, least: nat): (r: Split<Span>)
    requires Searches(m)
    decreases |text| + 1 - start
  {
    match m(text, start)
    case None => Tokens([])
    case Some(x) =>
      if !Measured(text[x.pos..x.pos + x.len]) then Fails(BadMatch)
      else if Next(text, x, least) <= start then Fails(NeverEnds)
      else Prepended(FoundOne(text, x, least), Found(m, text, Next(text, x, least), least))
  }

  /** A search that respects characters never goes wrong in valid text. */
  lemma {:induction false} AlignedFinds(m: Matcher, text: Bytes, start: nat, least: nat)
    requires Searches(m) && CharAligned(m) && Valid(text) && Resumable(text, start) && least > 0
    ensures Found(m, text, start, least).Tokens?
    decreases |text| + 1 - start
  {
    if m(text, start).Some? {
      var x := m(text, start).value;
      Progress(m, text, start, least);
      AlignedMeasured(m, text, start);
      AlignedFinds(m, text, Next(text, x, least), least);
    }
  }

  lemma AlignedMeasured(m: Matcher, text: Bytes, start: nat)
    requires Searches(m) && CharAligned(m) && Valid(text) && Resumable(text, start) && m(text, start).Some?
    ensures var x := m(text, start).value; Measured(text[x.pos..x.pos + x.len])
  {
    var x := m(text, start).value;
    BetweenBoundaries(text, x.pos, x.pos + x.len);
    ValidMeasured(text[x.pos..x.pos + x.len]);
  }

  /** Finds nothing in front of the second byte. */
  function SecondByte(text: Bytes, start: nat): (x: Option<Span>)
  {
    if start <= 1 <= |text| then Some(Span(1, 0)) else None
  }

  /** An expression that matches inside the character C3 A9 repeats one round for ever. */
  lemma SecondByteNeverEnds(least: nat)
    requires least > 0
    ensures Searches(SecondByte) && Valid([0xC3, 0xA9]) && Found(SecondByte, [0xC3, 0xA9], 0, least) == Fails(NeverEnds)
  {
    var text := [0xC3, 0xA9];
    ConcatOne(text);
    assert IsSplit(text, [text]);
    assert text[1..1] == [];
    assert IsUnitSplit([], []);
    if LongEnough([], least) {
      LongIsNonEmpty([], least);
    }
    assert Next(text, Span(1, 0), least) == 1;
    assert Found(SecondByte, text, 1, least) == Fails(NeverEnds);
  }

  /** One match: whether it can be counted, whether it is long enough to be a token, and where the
      search goes on. */
  method Weigh(text: Bytes, x: Span, least: nat) returns (valid: bool, token: bool, next: nat)
    requires x.pos + x.len <= |text| && least > 0
    ensures valid <==> Measured(text[x.pos..x.pos + x.len])
    ensures valid ==> FoundOne(text, x, least) == (if token then [x] else []) && next == Next(text, x, least)
  {
    var chars;
    valid, chars := Length(text[x.pos..x.pos + x.len]);
    token := valid && chars >= least;
    if token {
      next := x.pos + x.len;
    } else {
      var _, bytes := LeadBytes(if x.pos < |text| then text[x.pos] else 0);
      next := x.pos + bytes;
    }
  }

  /** One round moves its token from what is to be found to what has been found. */
  lemma FoundOnwards(m: Matcher, text: Bytes, start: nat, least: nat, x: Span, spans: seq<Span>)
    requires Searches(m) && m(text, start) == Some(x)
    requires Measured(text[x.pos..x.pos + x.len]) && start < Next(text, x, least)
    ensures Prepended(spans, Found(m, text, start, least)) ==
            Prepended(spans + FoundOne(text, x, least), Found(m, text, Next(text, x, least), least))
  {
    PrependedTwice(spans, FoundOne(text, x, least), Found(m, text, Next(text, x, least), least));
  }

  /** The search loop, for every way of finding matches. */
  method FindTokens(m: Matcher, text: Bytes, least: nat) returns (row: Option<Split<Span>>)
    requires Searches(m) && least > 0
    ensures row.Some? <==> Valid(text)
    ensures row.Some? ==> row.value == Found(m, text, 0, least)
  {
    var ok, _ := Validate(text);
    if !ok {
      return None;
    }
    var start, spans := 0, [];
    var submatch := m(text, start);
    while submatch.Some?
      invariant submatch == m(text, start)
      invariant Found(m, text, 0, least) == Prepended(spans, Found(m, text, start, least))
      decreases |text| + 1 - start
    {
      var x := submatch.value;
      var valid, token, next := Weigh(text, x, least);
      if !valid {
        return Some(Fails(BadMatch));
      }
      if next <= start {
        return Some(Fails(NeverEnds));
      }
      FoundOnwards(m, text, start, least, x, spans);
      spans := spans + if token then [x] else [];
      start := next;
      submatch := m(text, start);
    }
    row := Some(Tokens(spans));
  }

  /** The texts of the spans. */
  method Cut(text: Bytes, spans: seq<Span>) returns (tokens: seq<Bytes>)
    requires forall i :: 0 <= i < |spans| ==> spans[i].pos + spans[i].len <= |text|
    ensures AreTexts(tokens, text, spans)
  {
    tokens := [];
    var i := 0;
    while i < |spans|
      invariant 0 <= i <= |spans| && AreTexts(tokens, text, spans[..i])
    {
      tokens := tokens + [text[spans[i].pos..spans[i].pos + spans[i].len]];
      i := i + 1;
    }
    assert spans[..i] == spans;
  }

  /** `tokens` are the parts of `text` named by `spans`. */
  ghost predicate AreTexts(tokens: seq<Bytes>, text: Bytes, spans: seq<Span>)
  {
    |tokens| == |spans| && forall i :: 0 <= i < |spans| ==> IsText(tokens[i], text, spans[i])
  }

  predicate IsText(token: Bytes, text: Bytes, x: Span)
  {
    x.pos + x.len <= |text| && token == text[x.pos..x.pos + x.len]
  }

  predicate Precedes(x: Span, y: Span) { x.pos + x.len <= y.pos }

  ghost predicate IsToken(text: Bytes, x: Span, start: nat, least: nat)
  {
    start <= x.pos && x.pos + x.len <= |text| && LongEnough(text[x.pos..x.pos + x.len], least)
  }

  /** Spans in order, without overlap, inside the text from `start` on, all long enough. */
  ghost predicate Ordered(text: Bytes, spans: seq<Span>, start: nat, least: nat)
  {
    && (forall i :: 0 <= i < |spans| ==> IsToken(text, spans[i], start, least))
    && (forall i, j :: 0 <= i < j < |spans| ==> Precedes(spans[i], spans[j]))
  }

  lemma OrderedCons(text: Bytes, x: Span, rest: seq<Span>, start: nat, least: nat)
    requires IsToken(text, x, start, least) && Ordered(text, rest, x.pos + x.len, least)
    ensures Ordered(text, [x] + rest, start, least)
  {
    var all := [x] + rest;
    forall i | 0 <= i < |all| ensures IsToken(text, all[i], start, least) {
      if i > 0 {
        assert IsToken(text, rest[i - 1], x.pos + x.len, least);
      }
    }
    forall i, j | 0 <= i < j < |all| ensures Precedes(all[i], all[j]) {
      assert IsToken(text, rest[j - 1], x.pos + x.len, least);
      if i > 0 {
        assert Precedes(rest[i - 1], rest[j - 1]);
      }
    }
  }

  lemma OrderedWeaken(text: Bytes, spans: seq<Span>, start: nat, start': nat, least: nat)
    requires Ordered(text, spans, start, least) && start' <= start
    ensures Ordered(text, spans, start', least)
  {
    forall i | 0 <= i < |spans| ensures IsToken(text, spans[i], start', least) {
      assert IsToken(text, spans[i], start, least);
    }
  }

  /** The tokens found are in order, do not overlap and are long enough. */
  lemma {:induction false} FoundOrdered(m: Matcher, text: Bytes, start: nat, least: nat)
    requires Searches(m) && Found(m, text, start, least).Tokens?
    ensures Ordered(text, Found(m, text, start, least).tokens, start, least)
    decreases |text| + 1 - start
  {
    if m(text, start).Some? {
      var x := m(text, start).value;
      FoundOrdered(m, text, Next(text, x, least), least);
      OrderedStep(text, x, Found(m, text, Next(text, x, least), least).tokens, start, least);
    }
  }

  lemma OrderedStep(text: Bytes, x: Span, rest: seq<Span>, start: nat, least: nat)
    requires start <= x.pos && x.pos + x.len <= |text| && Ordered(text, rest, Next(text, x, least), least)
    ensures Ordered(text, FoundOne(text, x, least) + rest, start, least)
  {
    if LongEnough(text[x.pos..x.pos + x.len], least) {
      OrderedCons(text, x, rest, start, least);
    } else {
      OrderedWeaken(text, rest, Next(text, x, least), start, least);
      assert FoundOne(text, x, least) + rest == rest;
    }
  }

  ghost predicate Finds(m: Matcher, text: Bytes, least: nat)
    requires Searches(m)
  {
    Valid(text) && Found(m, text, 0, least).Tokens?
  }

  /** `row` holds the tokens of the text. */
  ghost predicate FoundIn(m: Matcher, text: Bytes, least: nat, row: seq<Bytes>)
    requires Searches(m)
  {
    Finds(m, text, least) && AreTexts(row, text, Found(m, text, 0, least).tokens)
  }

  ghost predicate FoundInto(m: Matcher, input: seq<Bytes>, least: nat, rows: seq<seq<Bytes>>)
    requires Searches(m)
  {
    |rows| == |input| && forall i :: 0 <= i < |rows| ==> FoundIn(m, input[i], least, rows[i])
  }

  /** The first input without tokens decides the error. */
  ghost predicate BreaksFirst(m: Matcher, input: seq<Bytes>, least: nat, r: Outcome, i: nat)
    requires Searches(m)
  {
    && i < |input| && (forall j :: 0 <= j < i ==> Finds(m, input[j], least)) && !Finds(m, input[i], least)
    && r == if Valid(input[i]) then Faulty(Found(m, input[i], 0, least).fault) else InvalidUtf8(input[i])
  }

  lemma FoundGrows(m: Matcher, input: seq<Bytes>, i: nat, least: nat, rows: seq<seq<Bytes>>, row: seq<Bytes>)
    requires Searches(m) && i < |input|
    requires FoundInto(m, input[..i], least, rows) && FoundIn(m, input[i], least, row)
    ensures FoundInto(m, input[..i + 1], least, rows + [row])
  {
    forall j | 0 <= j < i + 1 ensures FoundIn(m, input[..i + 1][j], least, (rows + [row])[j]) {
      if j < i {
        assert input[..i][j] == input[..i + 1][j];
      }
    }
  }

  lemma FoundSoFar(m: Matcher, input: seq<Bytes>, i: nat, least: nat, rows: seq<seq<Bytes>>)
    requires Searches(m) && i <= |input| && FoundInto(m, input[..i], least, rows)
    ensures forall j :: 0 <= j < i ==> Finds(m, input[j], least)
  {
    forall j | 0 <= j < i ensures Finds(m, input[j], least) {
      assert input[..i][j] == input[j] && FoundIn(m, input[..i][j], least, rows[j]);
    }
  }

  method ExpressionTokenize(m: Matcher, input: seq<Bytes>, least: nat, mark: bool, pad: Bytes) returns (r: Outcome)
    requires Searches(m) && least > 0
    ensures if r.Tensor? then exists rows :: FoundInto(m, input, least, rows) && HoldsRows(r, rows, mark, pad)
            else exists i :: BreaksFirst(m, input, least, r, i)
  {
    var rows: seq<seq<Bytes>>, longest: nat := [], 0;
    var i := 0;
    while i < |input|
      invariant 0 <= i <= |input|
      invariant FoundInto(m, input[..i], least, rows) && IsLongest(rows, longest)
    {
      FoundSoFar(m, input, i, least, rows);
      var found := FindTokens(m, input[i], least);
      if found.None? {
        r := InvalidUtf8(input[i]);
        assert BreaksFirst(m, input, least, r, i);
        return;
      }
      if found.value.Fails? {
        r := Faulty(found.value.fault);
        assert BreaksFirst(m, input, least, r, i);
        return;
      }
      FoundOrdered(m, input[i], 0, least);
      var row := Cut(input[i], found.value.tokens);
      LongestGrows(rows, row, longest);
      FoundGrows(m, input, i, least, rows, row);
      rows := rows + [row];
      longest := if longest < |row| then |row| else longest;
      i := i + 1;
    }
    assert input[..i] == input;
    r := Emit(rows, longest, mark, pad);
  }
}
