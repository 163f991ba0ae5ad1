/** The output tensor of the tokenizer: one row per input string, filled in place cell by cell
    with a start mark, the tokens, an end mark and padding. */
module TokenTable {

  import opened Prelude
  import opened Utf8

  const START_TEXT: Bytes := [0x2]
  const END_TEXT: Bytes := [0x3]

  function Repeat(x: Bytes, n: nat): (r: seq<Bytes>)
  {
    seq(n, _ => x)
  }

  function Marks(mark: bool): (n: nat) { if mark then 2 else 0 }

  /** One row of the output. */
  function Row(tokens: seq<Bytes>, width: nat, mark: bool, pad: Bytes): (cells: seq<Bytes>)
    requires |tokens| + Marks(mark) <= width
  {
    var marked := if mark then [START_TEXT] + tokens + [END_TEXT] else tokens;
    marked + Repeat(pad, width - |marked|)
  }

  ghost predicate Fit(rows: seq<seq<Bytes>>, width: nat, mark: bool)
  {
    forall i :: 0 <= i < |rows| ==> |rows[i]| + Marks(mark) <= width
  }

  /** The rows one after the other. */
  ghost function Table(rows: seq<seq<Bytes>>, width: nat, mark: bool, pad: Bytes): (cells: seq<Bytes>)
    requires Fit(rows, width, mark)
  {
    if rows == [] then [] else
    var n := |rows| - 1;
    assert forall i :: 0 <= i < n ==> rows[..n][i] == rows[i];
    Table(rows[..n], width, mark, pad) + Row(rows[n], width, mark, pad)
  }

  lemma TableNext(rows: seq<seq<Bytes>>, r: nat, width: nat, mark: bool, pad: Bytes)
    requires Fit(rows, width, mark) && r < |rows|
    ensures Fit(rows[..r], width, mark) && Fit(rows[..r + 1], width, mark)
    ensures Table(rows[..r + 1], width, mark, pad)
      == Table(rows[..r], width, mark, pad) + Row(rows[r], width, mark, pad)
  {
    assert rows[..r + 1][..r] == rows[..r];
  }

  lemma {:induction false} TableLength(rows: seq<seq<Bytes>>, width: nat, mark: bool, pad: Bytes)
    requires Fit(rows, width, mark)
    ensures |Table(rows, width, mark, pad)| == |rows| * width
  {
    if rows != [] {
      var n := |rows| - 1;
      assert forall j :: 0 <= j < n ==> rows[..n][j] == rows[j];
      TableLength(rows[..n], width, mark, pad);
      NextMultiple(n, width);
    }
  }

  /** A table has a row of cells for every row of tokens, each starting at a multiple of the
      width. */
  lemma {:induction false} TableRows(rows: seq<seq<Bytes>>, i: nat, width: nat, mark: bool, pad: Bytes)
    requires Fit(rows, width, mark) && i < |rows|
    ensures |Table(rows, width, mark, pad)| == |rows| * width
    ensures 0 <= i * width <= (i + 1) * width <= |Table(rows, width, mark, pad)|
    ensures Table(rows, width, mark, pad)[i * width..(i + 1) * width] == Row(rows[i], width, mark, pad)
  {
    var n := |rows| - 1;
    assert forall j :: 0 <= j < n ==> rows[..n][j] == rows[j];
    var before, last := Table(rows[..n], width, mark, pad), Row(rows[n], width, mark, pad);
    TableLength(rows, width, mark, pad);
    TableLength(rows[..n], width, mark, pad);
    NextMultiple(i, width);
    if i < n {
      TableRows(rows[..n], i, width, mark, pad);
      SliceOfPrefix(before, last, i * width, (i + 1) * width);
    } else {
      SliceOfSuffix(before, last, i * width, (i + 1) * width);
      assert last[..|last|] == last;
    }
  }

  /** Store one cell and step on. */
  method Put(out: array<Bytes>, index: nat, x: Bytes) returns (next: nat)
    requires index < out.Length
    modifies out
    ensures next == index + 1
    ensures out[..next] == old(out[..index]) + [x]
  {
    out[index] := x;
    next := index + 1;
    assert out[..next] == out[..index] + [x];
  }

  /** Store the same cell a number of times. */
  method PutPadding(out: array<Bytes>, start: nat, pad: Bytes, pads: nat) returns (index: nat)
    requires start + pads <= out.Length
    modifies out
    ensures index == start + pads
    ensures out[..index] == old(out[..start]) + Repeat(pad, pads)
  {
    index := start;
    ghost var before := out[..start];
    var p := 0;
    while p < pads
      invariant 0 <= p <= pads && index == start + p
      invariant out[..index] == before + Repeat(pad, p)
    {
      index := Put(out, index, pad);
      p := p + 1;
      assert Repeat(pad, p) == Repeat(pad, p - 1) + [pad];
    }
  }

  method PutTokens(out: array<Bytes>, start: nat, tokens: seq<Bytes>) returns (index: nat)
    requires start + |tokens| <= out.Length
    modifies out
    ensures index == start + |tokens|
    ensures out[..index] == old(out[..start]) + tokens
  {
    index := start;
    ghost var before := out[..start];
    var t := 0;
    while t < |tokens|
      invariant 0 <= t <= |tokens| && index == start + t
      invariant out[..index] == before + tokens[..t]
    {
      index := Put(out, index, tokens[t]);
      t := t + 1;
    }
  }

  /** The characters of a valid string, found by their lead bytes. */
  method PutChars(out: array<Bytes>, start: nat, s: Bytes, ghost cs: seq<Bytes>) returns (index: nat, tokens: nat)
    requires IsSplit(s, cs) && start + |cs| <= out.Length
    modifies out
    ensures tokens == |cs| && index == start + tokens
    ensures out[..index] == old(out[..start]) + cs
  {
    index, tokens := start, 0;
    ghost var before := out[..start];
    var pos := 0;
    while pos < |s|
      invariant 0 <= pos <= |s| && tokens <= |cs| && index == start + tokens
      invariant s[pos..] == Concat(cs[tokens..])
      invariant out[..index] == before + cs[..tokens]
    {
      NextChar(s, pos, cs, tokens);
      var _, len := LeadBytes(s[pos]);
      index := Put(out, index, s[pos..pos + len]);
      pos := pos + len;
      tokens := tokens + 1;
    }
    NoneLeft(s, cs, tokens);
  }

  lemma NextChar(s: Bytes, pos: nat, cs: seq<Bytes>, t: nat)
    requires IsSplit(s, cs) && pos < |s| && t <= |cs| && s[pos..] == Concat(cs[t..])
    ensures t < |cs| && 0 < LeadLength(s[pos]) <= |s| - pos && cs[t] == s[pos..pos + LeadLength(s[pos])]
    ensures s[pos + LeadLength(s[pos])..] == Concat(cs[t + 1..])
  {
    var left := cs[t..];
    assert left[1..] == cs[t + 1..];
    CharIsUnit(cs[t]);
    assert s[pos..] == cs[t] + Concat(cs[t + 1..]);
    assert s[pos] == cs[t][0];
    assert s[pos..][..|cs[t]|] == cs[t] && s[pos..][|cs[t]|..] == s[pos + |cs[t]|..];
  }

  lemma NoneLeft(s: Bytes, cs: seq<Bytes>, t: nat)
    requires IsSplit(s, cs) && t <= |cs| && Concat(cs[t..]) == []
    ensures t == |cs| && cs[..t] == cs
  {
    var left := cs[t..];
    if left != [] {
      CharIsUnit(cs[t]);
    }
  }

  /** One row is written as planned and moves the index on by exactly one row. */
  method PutRow(out: array<Bytes>, start: nat, tokens: seq<Bytes>, width: nat, mark: bool, pad: Bytes)
    returns (index: nat)
    requires |tokens| + Marks(mark) <= width && start + width <= out.Length
    modifies out
    ensures index == start + width
    ensures out[..index] == old(out[..start]) + Row(tokens, width, mark, pad)
  {
    index := start;
    if mark {
      index := Put(out, index, START_TEXT);
    }
    index := PutTokens(out, index, tokens);
    if mark {
      index := Put(out, index, END_TEXT);
    }
    var pads := width - Marks(mark) - |tokens|;
    index := PutPadding(out, index, pad, pads);
  }

  method PutCharRow(out: array<Bytes>, start: nat, s: Bytes, ghost cs: seq<Bytes>, width: nat, mark: bool, pad: Bytes)
    returns (index: nat)
    requires IsSplit(s, cs) && |cs| + Marks(mark) <= width && start + width <= out.Length
    modifies out
    ensures index == start + width
    ensures out[..index] == old(out[..start]) + Row(cs, width, mark, pad)
  {
    index := start;
    if mark {
      index := Put(out, index, START_TEXT);
    }
    var tokens;
    index, tokens := PutChars(out, index, s, cs);
    if mark {
      index := Put(out, index, END_TEXT);
    }
    var pads := width - Marks(mark) - tokens;
    index := PutPadding(out, index, pad, pads);
  }

  /** All rows, filling exactly the cells there are. */
  method WriteRows(rows: seq<seq<Bytes>>, width: nat, mark: bool, pad: Bytes) returns (cells: seq<Bytes>)
    requires Fit(rows, width, mark)
    ensures cells == Table(rows, width, mark, pad) && |cells| == |rows| * width
  {
    var size := |rows| * width;
    MulMonotone(0, |rows|, width);
    var out := new Bytes[size];
    var index: nat, r := 0, 0;
    while r < |rows|
      invariant 0 <= r <= |rows| && index == r * width
      invariant index <= size == out.Length
      invariant out[..index] == Table(rows[..r], width, mark, pad)
    {
      RowFits(r, |rows|, width);
      TableNext(rows, r, width, mark, pad);
      index := PutRow(out, index, rows[r], width, mark, pad);
      r := r + 1;
    }
    assert rows[..r] == rows && out[..index] == out[..];
    cells := out[..];
  }

  lemma RowFits(r: nat, n: nat, width: nat)
    requires r < n
    ensures r * width + width == (r + 1) * width <= n * width
  {
    NextMultiple(r, width);
    MulMonotone(r + 1, n, width);
  }
}
