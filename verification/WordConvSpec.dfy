/** Word convolution embedding, one word at a time: the definition the batched code refines. */
module WordConvSpec {

  import opened Prelude

  /** `words` words of `wordLen` characters each; a table with an embedding of `embed` numbers
      per character, also given as a function of the character; `filters` filters over `width`
      consecutive characters. The lengths of the words are worked out first. */
  datatype Problem = Problem(
    chars: seq<int>, words: nat, wordLen: nat,
    table: seq<real>, embedding: int -> seq<real>, alphabet: nat, embed: nat,
    width: nat, filters: nat, weights: seq<real>, bias: seq<real>,
    activation: real -> real,
    lengths: seq<nat>)

  const FLOOR: real := -1000000000000.0

  /** Numbers under one window. */
  function Kernel(p: Problem): (n: nat) { Times(p.width, p.embed) }

  /** Numbers in one embedded word. */
  function WordSize(p: Problem): (n: nat) { Times(p.wordLen, p.embed) }

  /** What the operator is given. */
  ghost predicate HasInputs(p: Problem)
  {
    && 0 < p.width && 0 < p.wordLen
    && |p.chars| == Times(p.words, p.wordLen)
    && |p.table| == Times(p.alphabet, p.embed)
    && |p.weights| == Times(p.filters, Kernel(p))
    && |p.bias| == p.filters
    && forall c :: |p.embedding(c)| == p.embed
  }

  /** With lengths that lie in the words; a filter may be wider than the words if all are empty. */
  ghost predicate WellFormed(p: Problem)
  {
    && HasInputs(p) && |p.lengths| == p.words
    && (forall i :: 0 <= i < p.words ==> p.lengths[i] <= p.wordLen)
    && (p.width <= p.wordLen || forall i :: 0 <= i < p.words ==> p.lengths[i] == 0)
  }

  // ----- arithmetic -------------------------------------------------------------------------

  /** Where row `a` starts if rows hold `n` numbers each. */
  function Times(a: nat, n: nat): (m: nat)
  {
    a * n
  }

  lemma TimesMonotone(a: nat, b: nat, n: nat)
    requires a <= b
    ensures Times(a, n) <= Times(b, n)
  {
    MulMonotone(a, b, n);
  }

  lemma Distribute(a: nat, b: nat, n: nat)
    ensures Times(a + b, n) == Times(a, n) + Times(b, n)
  {
  }

  /** Cell `j` of row `i` lies inside the `m` rows. */
  lemma CellInRange(i: nat, j: nat, m: nat, n: nat)
    requires i < m && j < n
    ensures Times(i, n) + j < Times(i, n) + n <= Times(m, n)
  {
    TimesMonotone(i + 1, m, n);
    Distribute(i, 1, n);
  }

  // ----- one word ---------------------------------------------------------------------------

  function Max(a: int, b: int): (m: int) { if a < b then b else a }

  function MaxReal(a: real, b: real): (m: real) { if a < b then b else a }

  /** Character `j` of word `i`. */
  function CharAt(p: Problem, i: nat, j: nat): (c: int)
    requires HasInputs(p) && i < p.words && j < p.wordLen
  {
    CellInRange(i, j, p.words, p.wordLen);
    p.chars[Times(i, p.wordLen) + j]
  }

  function PositiveChars(p: Problem, i: nat, n: nat): (count: nat)
    requires HasInputs(p) && i < p.words && n <= p.wordLen
  {
    if n == 0 then 0 else PositiveChars(p, i, n - 1) + if CharAt(p, i, n - 1) > 0 then 1 else 0
  }

  /** A word that does not start with a character is empty. */
  function WordLength(p: Problem, i: nat): (n: nat)
    requires HasInputs(p) && i < p.words
  {
    if CharAt(p, i, 0) > 0 then PositiveChars(p, i, p.wordLen) else 0
  }

  lemma {:induction false} PositiveCharsBound(p: Problem, i: nat, n: nat)
    requires HasInputs(p) && i < p.words && n <= p.wordLen
    ensures PositiveChars(p, i, n) <= n
  {
    if n > 0 {
      PositiveCharsBound(p, i, n - 1);
    }
  }

  /** Whether the buffers hold what is unfolded: all words are empty, or a filter fits into a word. */
  ghost predicate Suffices(p: Problem)
    requires HasInputs(p)
  {
    p.width <= p.wordLen || forall i :: 0 <= i < p.words ==> WordLength(p, i) == 0
  }

  /** The lengths are those of the words. */
  ghost predicate Measured(p: Problem)
  {
    WellFormed(p) && forall i :: 0 <= i < p.words ==> p.lengths[i] == WordLength(p, i)
  }

  /** Characters that are looked up: short words are read up to the width of a filter. */
  function Reach(p: Problem, i: nat): (n: nat)
    requires WellFormed(p) && i < p.words
  {
    if p.width <= p.wordLen then Max(p.lengths[i], p.width) else 0
  }

  /** Number of windows of word `i`. */
  function Windows(p: Problem, i: nat): (n: nat)
    requires WellFormed(p) && i < p.words
  {
    if p.width <= p.wordLen then Reach(p, i) - p.width + 1 else 0
  }

  /** So many windows lie in a word. */
  predicate WindowsFit(p: Problem, n: nat)
  {
    n == 0 || n + p.width <= p.wordLen + 1
  }

  lemma ReachInWord(p: Problem, i: nat)
    requires WellFormed(p) && i < p.words
    ensures Reach(p, i) <= p.wordLen && WindowsFit(p, Windows(p, i))
    ensures p.lengths[i] > 0 ==> p.width <= Reach(p, i) == Max(p.lengths[i], p.width)
  {
  }

  predicate InTable(p: Problem, c: int) { 0 <= c < p.alphabet }

  /** The embedding of a character in the table is its row. */
  ghost predicate IsRow(p: Problem, c: int)
    requires HasInputs(p) && InTable(p, c)
  {
    TimesMonotone(c + 1, p.alphabet, p.embed);
    Distribute(c, 1, p.embed);
    p.embedding(c) == p.table[Times(c, p.embed)..Times(c, p.embed) + p.embed]
  }

  /** What is asked of the caller: the characters that are read for non-empty words, up to the
      larger of the word's length and the filter width, are in the table. */
  ghost predicate ReadsInTable(p: Problem)
    requires HasInputs(p)
  {
    && (forall c :: InTable(p, c) ==> IsRow(p, c))
    && forall i, j ::
      0 <= i < p.words && 0 <= j < p.wordLen && WordLength(p, i) > 0 && j < Max(WordLength(p, i), p.width) ==>
      InTable(p, CharAt(p, i, j))
  }

  /** The embeddings of `n` characters of word `i`, starting at character `from`. */
  function Embeddings(p: Problem, i: nat, from: nat, n: nat): (v: seq<real>)
    requires WellFormed(p) && i < p.words && from + n <= p.wordLen
  {
    if n == 0 then [] else Embeddings(p, i, from, n - 1) + p.embedding(CharAt(p, i, from + n - 1))
  }

  lemma {:induction false} EmbeddingsLength(p: Problem, i: nat, from: nat, n: nat)
    requires WellFormed(p) && i < p.words && from + n <= p.wordLen
    ensures |Embeddings(p, i, from, n)| == Times(n, p.embed)
  {
    if n > 0 {
      EmbeddingsLength(p, i, from, n - 1);
      Distribute(n - 1, 1, p.embed);
    }
  }

  /** The part of a word's embeddings under the window that starts at character `u`. */
  function Window(p: Problem, i: nat, u: nat): (v: seq<real>)
    requires WellFormed(p) && i < p.words && u + p.width <= p.wordLen
    ensures |v| == Kernel(p)
  {
    EmbeddingsLength(p, i, u, p.width);
    Embeddings(p, i, u, p.width)
  }

  function Filter(p: Problem, f: nat): (v: seq<real>)
    requires WellFormed(p) && f < p.filters
    ensures |v| == Kernel(p)
  {
    TimesMonotone(f + 1, p.filters, Kernel(p));
    Distribute(f, 1, Kernel(p));
    p.weights[Times(f, Kernel(p))..Times(f, Kernel(p)) + Kernel(p)]
  }

  function Dot(a: seq<real>, b: seq<real>): (d: real)
    requires |a| == |b|
  {
    if a == [] then 0.0 else Dot(a[..|a| - 1], b[..|b| - 1]) + a[|a| - 1] * b[|b| - 1]
  }

  /** What filter `f` makes of the window at `u`. */
  function Score(p: Problem, i: nat, u: nat, f: nat): (x: real)
    requires WellFormed(p) && i < p.words && u + p.width <= p.wordLen && f < p.filters
  {
    p.activation(Dot(Window(p, i, u), Filter(p, f)) + p.bias[f])
  }

  /** Pooling over the first `n` windows. */
  function Pooled(p: Problem, i: nat, f: nat, n: nat): (x: real)
    requires WellFormed(p) && i < p.words && f < p.filters && WindowsFit(p, n)
  {
    if n == 0 then FLOOR else MaxReal(Score(p, i, n - 1, f), Pooled(p, i, f, n - 1))
  }

  /** The output of filter `f` for word `i`. */
  function Result(p: Problem, i: nat, f: nat): (x: real)
    requires WellFormed(p) && i < p.words && f < p.filters
  {
    ReachInWord(p, i);
    Pooled(p, i, f, Windows(p, i))
  }

  /** Pooling takes the largest score of the word's own windows, but never less than the floor. */
  lemma {:induction false} PooledIsMaximum(p: Problem, i: nat, f: nat, n: nat)
    requires WellFormed(p) && i < p.words && f < p.filters && WindowsFit(p, n)
    ensures FLOOR <= Pooled(p, i, f, n)
    ensures forall u :: 0 <= u < n ==> Score(p, i, u, f) <= Pooled(p, i, f, n)
    ensures Pooled(p, i, f, n) == FLOOR || exists u :: 0 <= u < n && Score(p, i, u, f) == Pooled(p, i, f, n)
  {
    if n > 0 {
      PooledIsMaximum(p, i, f, n - 1);
      assert Score(p, i, n - 1, f) <= Pooled(p, i, f, n);
    }
  }

  // ----- rows of equal width ----------------------------------------------------------------

  function Flat(rows: seq<seq<real>>): (s: seq<real>)
  {
    if rows == [] then [] else Flat(rows[..|rows| - 1]) + rows[|rows| - 1]
  }

  predicate AllWide(rows: seq<seq<real>>, n: nat)
  {
    forall r :: 0 <= r < |rows| ==> |rows[r]| == n
  }

  lemma FlatAppend(rows: seq<seq<real>>, row: seq<real>)
    ensures Flat(rows + [row]) == Flat(rows) + row
  {
    assert (rows + [row])[..|rows|] == rows;
  }

  lemma {:induction false} FlatLength(rows: seq<seq<real>>, n: nat)
    requires AllWide(rows, n)
    ensures |Flat(rows)| == Times(|rows|, n)
  {
    if rows != [] {
      FlatLength(rows[..|rows| - 1], n);
      Distribute(|rows| - 1, 1, n);
    }
  }

  /** Row `r` sits at a multiple of the width. */
  lemma {:induction false} FlatRow(rows: seq<seq<real>>, n: nat, r: nat)
    requires AllWide(rows, n) && r < |rows|
    ensures Times(r, n) + n <= |Flat(rows)| && Flat(rows)[Times(r, n)..Times(r, n) + n] == rows[r]
  {
    var k := |rows| - 1;
    var before := rows[..k];
    FlatLength(before, n);
    if r < k {
      FlatRow(before, n, r);
      SliceOfPrefix(Flat(before), rows[k], Times(r, n), Times(r, n) + n);
    }
  }

  lemma {:induction false} EmbeddingsSplit(p: Problem, i: nat, from: nat, a: nat, b: nat)
    requires WellFormed(p) && i < p.words && from + a + b <= p.wordLen
    ensures Embeddings(p, i, from, a + b) == Embeddings(p, i, from, a) + Embeddings(p, i, from + a, b)
  {
    if b > 0 {
      EmbeddingsSplit(p, i, from, a, b - 1);
      var last := p.embedding(CharAt(p, i, from + a + b - 1));
      Associate(Embeddings(p, i, from, a), Embeddings(p, i, from + a, b - 1), last);
    } else {
      assert Embeddings(p, i, from, a) + [] == Embeddings(p, i, from, a);
    }
  }

  /** The windows of a word are slices of its embeddings. */
  lemma WindowIsSlice(p: Problem, i: nat, u: nat, n: nat)
    requires WellFormed(p) && i < p.words && u + p.width <= n <= p.wordLen
    ensures Times(u, p.embed) + Kernel(p) <= |Embeddings(p, i, 0, n)|
    ensures Embeddings(p, i, 0, n)[Times(u, p.embed)..Times(u, p.embed) + Kernel(p)] == Window(p, i, u)
  {
    var k := u + p.width;
    var a, b, c := Embeddings(p, i, 0, u), Window(p, i, u), Embeddings(p, i, k, n - k);
    assert Embeddings(p, i, 0, n) == a + b + c by {
      EmbeddingsSplit(p, i, 0, k, n - k);
      EmbeddingsSplit(p, i, 0, u, p.width);
    }
    EmbeddingsLength(p, i, 0, u);
    MiddlePart(a, b, c);
  }

  lemma MiddlePart(a: seq<real>, b: seq<real>, c: seq<real>)
    ensures (a + b + c)[|a|..|a| + |b|] == b
  {
  }

  // ----- what the buffers hold --------------------------------------------------------------

  /** The buffer starts with the given rows, which end at `next`. */
  ghost predicate StartsWith(s: seq<real>, rows: seq<seq<real>>, next: nat)
  {
    next <= |s| && s[..next] == Flat(rows)
  }

  ghost predicate NoneEmpty(p: Problem, first: nat, last: nat)
    requires WellFormed(p) && first <= last <= p.words
  {
    forall i :: first <= i < last ==> p.lengths[i] > 0
  }

  /** The embeddings of word `i` are in their place. */
  ghost predicate LookedUp(p: Problem, i: nat, s: seq<real>)
    requires WellFormed(p) && i < p.words
  {
    ReachInWord(p, i);
    var at, n := Times(i, WordSize(p)), Times(Reach(p, i), p.embed);
    0 <= at && 0 <= n && at + n <= |s| && s[at..at + n] == Embeddings(p, i, 0, Reach(p, i))
  }

  ghost predicate AllLookedUp(p: Problem, n: nat, s: seq<real>)
    requires WellFormed(p) && n <= p.words
  {
    forall i {:trigger LookedUp(p, i, s)} :: 0 <= i < n && p.lengths[i] > 0 ==> LookedUp(p, i, s)
  }

  /** The first `n` windows of word `i`. */
  ghost function WordWindows(p: Problem, i: nat, n: nat): (rows: seq<seq<real>>)
    requires WellFormed(p) && i < p.words && WindowsFit(p, n)
    ensures |rows| == n && AllWide(rows, Kernel(p))
  {
    seq(n, u requires 0 <= u < n => Window(p, i, u))
  }

  /** The windows of the words from `first` to before `last`. */
  ghost function RunWindows(p: Problem, first: nat, last: nat): (rows: seq<seq<real>>)
    requires WellFormed(p) && first <= last <= p.words
    ensures AllWide(rows, Kernel(p))
  {
    if first == last then [] else
    ReachInWord(p, last - 1);
    RunWindows(p, first, last - 1) + WordWindows(p, last - 1, Windows(p, last - 1))
  }

  /** `rows` are the windows of the words from `first` to before `last`. */
  ghost predicate IsRunOf(p: Problem, first: nat, last: nat, rows: seq<seq<real>>)
    requires WellFormed(p) && first <= last <= p.words
  {
    rows == RunWindows(p, first, last)
  }
}
