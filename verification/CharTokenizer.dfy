/** Tokenization into characters. */
module CharTokenizer {

  import opened Prelude
  import opened Utf8
  import opened TokenTable

  /** What can go wrong with a match: the bytes in front of it cannot be counted, or the search
      goes on beyond the end of the text or for ever. */
  datatype Fault = BadMatch | LeavesText | NeverEnds

  /** What a search finds, or what went wrong first. */
  datatype Split<T> = Tokens(tokens: seq<T>) | Fails(fault: Fault)

  function Prepended<T>(some: seq<T>, rest: Split<T>): (r: Split<T>)
  {
    match rest
    case Tokens(tokens) => Tokens(some + tokens)
    case Fails(_) => rest
  }

  lemma PrependedTwice<T>(a: seq<T>, b: seq<T>, rest: Split<T>)
    ensures Prepended(a, Prepended(b, rest)) == Prepended(a + b, rest)
  {
    if rest.Tokens? {
      Associate(a, b, rest.tokens);
    }
  }

  datatype Outcome = InvalidUtf8(text: Bytes) | Faulty(fault: Fault) | Tensor(width: nat, cells: seq<Bytes>)

  /** `text` is the first of the inputs that is not valid. */
  ghost predicate FirstInvalid(input: seq<Bytes>, text: Bytes)
  {
    exists i :: 0 <= i < |input| && input[i] == text && !Valid(text) && AllValid(input[..i])
  }

  /** The characters of each input. */
  ghost predicate SplitInto(input: seq<Bytes>, rows: seq<seq<Bytes>>)
  {
    |rows| == |input| && forall i :: 0 <= i < |rows| ==> IsSplit(input[i], rows[i])
  }

  /** `m` is the length of the longest row, zero if there is none. */
  ghost predicate IsLongest(rows: seq<seq<Bytes>>, m: nat)
  {
    && (forall i :: 0 <= i < |rows| ==> |rows[i]| <= m)
    && (m > 0 ==> exists i :: 0 <= i < |rows| && |rows[i]| == m)
  }

  /** The tensor holds the rows, the longest of them filling its row; it is empty if they are. */
  ghost predicate HoldsRows(r: Outcome, rows: seq<seq<Bytes>>, mark: bool, pad: Bytes)
  {
    && r.Tensor?
    && if r.width == 0 then r.cells == [] && IsLongest(rows, 0) else
         && Marks(mark) < r.width
         && IsLongest(rows, r.width - Marks(mark))
         && Fit(rows, r.width, mark)
         && r.cells == Table(rows, r.width, mark, pad)
  }

  lemma LongestGrows(rows: seq<seq<Bytes>>, row: seq<Bytes>, m: nat)
    requires IsLongest(rows, m)
    ensures IsLongest(rows + [row], if m < |row| then |row| else m)
  {
    var more := rows + [row];
    assert more[|rows|] == row && forall j :: 0 <= j < |rows| ==> more[j] == rows[j];
  }

  lemma SplitIntoGrows(input: seq<Bytes>, i: nat, rows: seq<seq<Bytes>>, row: seq<Bytes>)
    requires i < |input| && SplitInto(input[..i], rows) && IsSplit(input[i], row)
    ensures SplitInto(input[..i + 1], rows + [row])
  {
    forall j | 0 <= j < i + 1 ensures IsSplit(input[..i + 1][j], (rows + [row])[j]) {
      if j < i {
        assert input[..i][j] == input[j];
      }
    }
  }

  lemma AllSplitMeansValid(input: seq<Bytes>, rows: seq<seq<Bytes>>)
    requires SplitInto(input, rows)
    ensures AllValid(input)
  {
    forall i | 0 <= i < |input| ensures Valid(input[i]) { assert IsSplit(input[i], rows[i]); }
  }

  /** The first pass: validate everything and find the longest row. */
  method Measure(input: seq<Bytes>) returns (bad: Option<Bytes>, longest: nat, ghost rows: seq<seq<Bytes>>)
    ensures bad.None? <==> AllValid(input)
    ensures bad.Some? ==> FirstInvalid(input, bad.value)
    ensures bad.None? ==> SplitInto(input, rows) && IsLongest(rows, longest)
  {
    longest, rows := 0, [];
    var i := 0;
    while i < |input|
      invariant 0 <= i <= |input|
      invariant SplitInto(input[..i], rows) && IsLongest(rows, longest)
    {
      var ok, tokens := Validate(input[i]);
      if !ok {
        AllSplitMeansValid(input[..i], rows);
        return Some(input[i]), 0, rows;
      }
      ghost var row :| IsSplit(input[i], row);
      LongestGrows(rows, row, longest);
      SplitIntoGrows(input, i, rows, row);
      rows := rows + [row];
      longest := if longest < tokens then tokens else longest;
      i := i + 1;
    }
    assert input[..i] == input;
    AllSplitMeansValid(input, rows);
    bad := None;
  }

  lemma SplitIntoUnique(input: seq<Bytes>, a: seq<seq<Bytes>>, b: seq<seq<Bytes>>)
    requires SplitInto(input, a) && SplitInto(input, b)
    ensures a == b
  {
    forall i | 0 <= i < |a| ensures a[i] == b[i] { SplitUnique(input[i], a[i], b[i]); }
  }

  /** The output is the table of the characters of the inputs, or names the first invalid one. */
  method CharTokenize(input: seq<Bytes>, mark: bool, pad: Bytes) returns (r: Outcome)
    ensures r.Tensor? <==> AllValid(input)
    ensures !r.Faulty? && (r.InvalidUtf8? ==> FirstInvalid(input, r.text))
    ensures forall rows :: r.Tensor? && SplitInto(input, rows) ==> HoldsRows(r, rows, mark, pad)
  {
    var bad, longest;
    ghost var rows;
    bad, longest, rows := Measure(input);
    if bad.Some? {
      return InvalidUtf8(bad.value);
    }
    forall other | SplitInto(input, other) ensures other == rows { SplitIntoUnique(input, rows, other); }
    if longest == 0 {
      return Tensor(0, []);
    }
    var width := if mark then longest + 2 else longest;
    var cells := WriteCharRows(input, rows, width, mark, pad);
    r := Tensor(width, cells);
  }

  /** The second pass: write the characters of every input. */
  method WriteCharRows(input: seq<Bytes>, ghost rows: seq<seq<Bytes>>, width: nat, mark: bool, pad: Bytes)
    returns (cells: seq<Bytes>)
    requires SplitInto(input, rows) && Fit(rows, width, mark)
    ensures cells == Table(rows, width, mark, pad) && |cells| == |input| * width
  {
    var size := |input| * width;
    MulMonotone(0, |input|, width);
    var out := new Bytes[size];
    var index: nat, r := 0, 0;
    while r < |input|
      invariant 0 <= r <= |input| && index == r * width
      invariant index <= size == out.Length
      invariant out[..index] == Table(rows[..r], width, mark, pad)
    {
      RowFits(r, |input|, width);
      TableNext(rows, r, width, mark, pad);
      index := PutCharRow(out, index, input[r], rows[r], width, mark, pad);
      r := r + 1;
    }
    assert rows[..r] == rows && out[..index] == out[..];
    cells := out[..];
  }

  /** The end shared by the other two tokenizers: write the rows that were collected. */
  method Emit(rows: seq<seq<Bytes>>, longest: nat, mark: bool, pad: Bytes) returns (r: Outcome)
    requires IsLongest(rows, longest)
    ensures HoldsRows(r, rows, mark, pad)
  {
    if longest == 0 {
      return Tensor(0, []);
    }
    var width := if mark then longest + 2 else longest;
    var cells := WriteRows(rows, width, mark, pad);
    r := Tensor(width, cells);
  }

  /** Cell `j` of a row of the tensor. */
  function CellOf(tokens: seq<Bytes>, j: nat, mark: bool, pad: Bytes): (cell: Bytes)
  {
    if !mark then (if j < |tokens| then tokens[j] else pad)
    else if j == 0 then [0x02]
    else if j <= |tokens| then tokens[j - 1]
    else if j == |tokens| + 1 then [0x03]
    else pad
  }

  /** The tensor, cell by cell: it is as wide as the longest row with its marks. */
  lemma TensorCells(r: Outcome, rows: seq<seq<Bytes>>, mark: bool, pad: Bytes, i: nat, j: nat)
    requires HoldsRows(r, rows, mark, pad) && i < |rows| && j < r.width
    ensures IsLongest(rows, r.width - if mark then 2 else 0)
    ensures |r.cells| == |rows| * r.width && 0 <= i * r.width + j < |r.cells|
    ensures r.cells[i * r.width + j] == CellOf(rows[i], j, mark, pad)
  {
    TableRows(rows, i, r.width, mark, pad);
    NextMultiple(i, r.width);
    var row := r.cells[i * r.width..(i + 1) * r.width];
    assert row == Row(rows[i], r.width, mark, pad) && row[j] == r.cells[i * r.width + j];
  }

  /** Reading row `i` back: after the optional start mark come the characters of input `i`, then
      the optional end mark, then padding; the characters spell the input. */
  lemma CharRoundTrip(input: seq<Bytes>, rows: seq<seq<Bytes>>, i: nat, r: Outcome, mark: bool, pad: Bytes)
    requires SplitInto(input, rows) && i < |input| && HoldsRows(r, rows, mark, pad)
    ensures |r.cells| == |input| * r.width
    ensures r.width > 0 ==>
              0 <= i * r.width <= (i + 1) * r.width <= |r.cells| &&
              ReadsBack(r.cells[i * r.width..(i + 1) * r.width], input[i], |rows[i]|, mark, pad)
    ensures r.width == 0 ==> input[i] == []
  {
    if r.width > 0 {
      TableRows(rows, i, r.width, mark, pad);
      RowReadsBack(input[i], rows[i], r.width, mark, pad);
    } else {
      assert rows[i] == [];
    }
  }

  ghost predicate ReadsBack(row: seq<Bytes>, s: Bytes, count: nat, mark: bool, pad: Bytes)
  {
    && count + Marks(mark) <= |row|
    && (mark ==> row[0] == START_TEXT && row[count + 1] == END_TEXT)
    && Concat(if mark then row[1..count + 1] else row[..count]) == s
    && forall j :: count + Marks(mark) <= j < |row| ==> row[j] == pad
  }

  lemma RowReadsBack(s: Bytes, cs: seq<Bytes>, width: nat, mark: bool, pad: Bytes)
    requires IsSplit(s, cs) && |cs| + Marks(mark) <= width
    ensures ReadsBack(Row(cs, width, mark, pad), s, |cs|, mark, pad)
  {
    var row := Row(cs, width, mark, pad);
    if mark {
      assert row[1..|cs| + 1] == cs;
    } else {
      assert row[..|cs|] == cs;
    }
  }
}
