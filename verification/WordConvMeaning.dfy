/** What the per-word definition computes, said of the flat inputs of the operator: which numbers
    are multiplied, and that they are multiplied and added. */
module WordConvMeaning {

  import opened WordConvSpec

  // ----- the dot product --------------------------------------------------------------------

  function Plus(a: seq<real>, b: seq<real>): (c: seq<real>)
    requires |a| == |b|
  {
    seq(|a|, k requires 0 <= k < |a| => a[k] + b[k])
  }

  function Scaled(x: real, a: seq<real>): (c: seq<real>)
  {
    seq(|a|, k requires 0 <= k < |a| => x * a[k])
  }

  /** One at place `k`, zero elsewhere. */
  function Unit(n: nat, k: nat): (e: seq<real>)
  {
    seq(n, i => if i == k then 1.0 else 0.0)
  }

  lemma {:induction false} DotCommutes(a: seq<real>, b: seq<real>)
    requires |a| == |b|
    ensures Dot(a, b) == Dot(b, a)
  {
    if a != [] {
      DotCommutes(a[..|a| - 1], b[..|b| - 1]);
    }
  }

  lemma {:induction false} DotAdds(a: seq<real>, b: seq<real>, c: seq<real>)
    requires |a| == |b| == |c|
    ensures Dot(Plus(a, b), c) == Dot(a, c) + Dot(b, c) && Dot(c, Plus(a, b)) == Dot(c, a) + Dot(c, b)
  {
    if a != [] {
      var n := |a| - 1;
      DotAdds(a[..n], b[..n], c[..n]);
      assert Plus(a, b)[..n] == Plus(a[..n], b[..n]);
      var x, y, z := a[n], b[n], c[n];
      assert (x + y) * z == x * z + y * z;
    }
    DotCommutes(Plus(a, b), c);
    DotCommutes(a, c);
    DotCommutes(b, c);
  }

  lemma {:induction false} DotScales(x: real, a: seq<real>, c: seq<real>)
    requires |a| == |c|
    ensures Dot(Scaled(x, a), c) == x * Dot(a, c) && Dot(c, Scaled(x, a)) == x * Dot(c, a)
  {
    if a != [] {
      var n := |a| - 1;
      DotScales(x, a[..n], c[..n]);
      ScaledPrefix(x, a, n);
      ScaledStep(x, Dot(a[..n], c[..n]), a[n], c[n]);
    }
    DotCommutes(Scaled(x, a), c);
    DotCommutes(a, c);
  }

  lemma ScaledPrefix(x: real, a: seq<real>, n: nat)
    requires n <= |a|
    ensures Scaled(x, a)[..n] == Scaled(x, a[..n])
  {
    forall k | 0 <= k < n ensures Scaled(x, a)[..n][k] == Scaled(x, a[..n])[k] {
      assert a[..n][k] == a[k];
    }
  }

  lemma ScaledStep(x: real, d: real, y: real, z: real)
    ensures x * d + (x * y) * z == x * (d + y * z)
  {
  }

  lemma {:induction false} DotZero(a: seq<real>, n: nat)
    requires |a| <= n
    ensures Dot(a, Unit(|a|, n)) == 0.0
  {
    if a != [] {
      DotZero(a[..|a| - 1], n);
      assert Unit(|a|, n)[..|a| - 1] == Unit(|a| - 1, n);
    }
  }

  lemma {:induction false} DotPicks(a: seq<real>, k: nat)
    requires k < |a|
    ensures Dot(a, Unit(|a|, k)) == a[k]
  {
    var n := |a| - 1;
    assert Unit(|a|, k)[..n] == Unit(n, k);
    if k < n {
      DotPicks(a[..n], k);
    } else {
      DotZero(a[..n], k);
    }
  }

  /** A function of two sequences that is additive and homogeneous in the second and picks a number
      against a unit. */
  ghost predicate IsDot(D: (seq<real>, seq<real>) -> real)
  {
    && (forall a, b, c {:trigger D(c, Plus(a, b))} :: |a| == |b| == |c| ==> D(c, Plus(a, b)) == D(c, a) + D(c, b))
    && (forall x: real, a, c {:trigger D(c, Scaled(x, a))} :: |a| == |c| ==> D(c, Scaled(x, a)) == x * D(c, a))
    && (forall a, k: nat {:trigger D(a, Unit(|a|, k))} :: k < |a| ==> D(a, Unit(|a|, k)) == a[k])
  }

  /** The first `n` numbers of `b`, then zeros. */
  function Cut(b: seq<real>, n: nat): (c: seq<real>)
  {
    seq(|b|, k requires 0 <= k < |b| => if k < n then b[k] else 0.0)
  }

  lemma {:induction false} DotOfCut(D: (seq<real>, seq<real>) -> real, a: seq<real>, b: seq<real>, n: nat)
    requires IsDot(D) && |a| == |b| && n <= |a|
    ensures D(a, Cut(b, n)) == Dot(a[..n], b[..n])
  {
    if n == 0 {
      assert Cut(b, 0) == Scaled(0.0, b);
    } else {
      var last := Scaled(b[n - 1], Unit(|a|, n - 1));
      assert Cut(b, n) == Plus(Cut(b, n - 1), last);
      assert D(a, last) == b[n - 1] * a[n - 1];
      DotOfCut(D, a, b, n - 1);
      assert a[..n][..n - 1] == a[..n - 1] && b[..n][..n - 1] == b[..n - 1];
    }
  }

  /** These laws leave only one function. */
  lemma DotUnique(D: (seq<real>, seq<real>) -> real, a: seq<real>, b: seq<real>)
    requires IsDot(D) && |a| == |b|
    ensures D(a, b) == Dot(a, b)
  {
    DotOfCut(D, a, b, |a|);
    assert Cut(b, |a|) == b && a[..|a|] == a && b[..|a|] == b;
  }

  // ----- the numbers that are multiplied ----------------------------------------------------

  lemma TableCell(p: Problem, c: int, e: nat)
    requires HasInputs(p) && InTable(p, c) && IsRow(p, c) && e < p.embed
    ensures 0 <= c * p.embed + e < |p.table| && p.embedding(c)[e] == p.table[c * p.embed + e]
  {
    CellInRange(c, e, p.alphabet, p.embed);
  }

  lemma CharCell(p: Problem, i: nat, j: nat)
    requires HasInputs(p) && i < p.words && j < p.wordLen
    ensures 0 <= i * p.wordLen + j < |p.chars| && CharAt(p, i, j) == p.chars[i * p.wordLen + j]
  {
    CellInRange(i, j, p.words, p.wordLen);
  }

  /** Number `e` of character `j` under the window at `u` of word `i`. */
  lemma {:induction false} EmbeddingCell(p: Problem, i: nat, from: nat, n: nat, j: nat, e: nat)
    requires WellFormed(p) && i < p.words && from + n <= p.wordLen && j < n && e < p.embed
    ensures Times(j, p.embed) + e < |Embeddings(p, i, from, n)|
    ensures Embeddings(p, i, from, n)[Times(j, p.embed) + e] == p.embedding(CharAt(p, i, from + j))[e]
  {
    EmbeddingsLength(p, i, from, n - 1);
    EmbeddingsLength(p, i, from, n);
    CellInRange(j, e, n, p.embed);
    if j < n - 1 {
      EmbeddingCell(p, i, from, n - 1, j, e);
    }
  }

  lemma WindowCell(p: Problem, i: nat, u: nat, j: nat, e: nat)
    requires WellFormed(p) && i < p.words && u + p.width <= p.wordLen && j < p.width && e < p.embed
    requires InTable(p, CharAt(p, i, u + j)) && IsRow(p, CharAt(p, i, u + j))
    ensures 0 <= i * p.wordLen + u + j < |p.chars| && 0 <= j * p.embed + e < |Window(p, i, u)|
    ensures var c := p.chars[i * p.wordLen + u + j];
      0 <= c * p.embed + e < |p.table| && Window(p, i, u)[j * p.embed + e] == p.table[c * p.embed + e]
  {
    EmbeddingCell(p, i, u, p.width, j, e);
    CharCell(p, i, u + j);
    TableCell(p, CharAt(p, i, u + j), e);
  }

  lemma FilterCell(p: Problem, f: nat, j: nat, e: nat)
    requires WellFormed(p) && f < p.filters && j < p.width && e < p.embed
    ensures 0 <= j * p.embed + e < |Filter(p, f)| && 0 <= f * (p.width * p.embed) + j * p.embed + e < |p.weights|
    ensures Filter(p, f)[j * p.embed + e] == p.weights[f * (p.width * p.embed) + j * p.embed + e]
  {
    CellInRange(j, e, p.width, p.embed);
    CellInRange(f, Times(j, p.embed) + e, p.filters, Kernel(p));
  }

  /** Filter `f` is one at number `e` of character `j` and zero elsewhere. */
  ghost predicate PicksCell(p: Problem, f: nat, j: nat, e: nat)
    requires HasInputs(p)
  {
    && f < p.filters && j < p.width && e < p.embed
    && forall k :: 0 <= k < p.width * p.embed ==> Weight(p, f, k) == if k == j * p.embed + e then 1.0 else 0.0
  }

  function Weight(p: Problem, f: nat, k: nat): (x: real)
    requires HasInputs(p) && f < p.filters && k < p.width * p.embed
  {
    CellInRange(f, k, p.filters, Kernel(p));
    p.weights[f * (p.width * p.embed) + k]
  }

  /** A filter that is one at one place scores the number it meets there plus the bias. */
  lemma UnitFilterScores(p: Problem, i: nat, u: nat, f: nat, j: nat, e: nat)
    requires WellFormed(p) && i < p.words && u + p.width <= p.wordLen && PicksCell(p, f, j, e)
    requires InTable(p, CharAt(p, i, u + j)) && IsRow(p, CharAt(p, i, u + j))
    ensures 0 <= i * p.wordLen + u + j < |p.chars|
    ensures var c := p.chars[i * p.wordLen + u + j];
      0 <= c * p.embed + e < |p.table| && Score(p, i, u, f) == p.activation(p.table[c * p.embed + e] + p.bias[f])
  {
    WindowCell(p, i, u, j, e);
    FilterIsUnit(p, f, j, e);
    DotPicks(Window(p, i, u), j * p.embed + e);
  }

  lemma FilterIsUnit(p: Problem, f: nat, j: nat, e: nat)
    requires WellFormed(p) && PicksCell(p, f, j, e)
    ensures Filter(p, f) == Unit(Kernel(p), j * p.embed + e)
  {
    var v, n := Filter(p, f), Kernel(p);
    assert n == p.width * p.embed;
    CellInRange(j, e, p.width, p.embed);
    forall k | 0 <= k < n ensures v[k] == Unit(n, j * p.embed + e)[k] {
      CellInRange(f, k, p.filters, n);
      assert v[k] == Weight(p, f, k);
    }
  }

  // ----- lengths and results ----------------------------------------------------------------

  /** The places of word `i`, among the first `n`, that hold a character. */
  ghost function Places(p: Problem, i: nat, n: nat): (s: set<int>)
    requires HasInputs(p) && i < p.words && n <= p.wordLen
  {
    set j | 0 <= j < n && CharAt(p, i, j) > 0
  }

  lemma {:induction false} PositiveCharsIsCount(p: Problem, i: nat, n: nat)
    requires HasInputs(p) && i < p.words && n <= p.wordLen
    ensures PositiveChars(p, i, n) == |Places(p, i, n)|
  {
    if n > 0 {
      PositiveCharsIsCount(p, i, n - 1);
      assert Places(p, i, n) == Places(p, i, n - 1) + if CharAt(p, i, n - 1) > 0 then {n - 1} else {};
    }
  }

  /** A word is as long as it has characters, and empty if it does not start with one. */
  lemma WordLengthIsCount(p: Problem, i: nat)
    requires HasInputs(p) && i < p.words
    ensures 0 <= i * p.wordLen < |p.chars|
    ensures WordLength(p, i) == if p.chars[i * p.wordLen] > 0 then |Places(p, i, p.wordLen)| else 0
  {
    PositiveCharsIsCount(p, i, p.wordLen);
    CharCell(p, i, 0);
  }

  /** The result of a non-empty word is the largest score of the windows from its start to its end,
      of one window if the word is shorter than the filter, but never less than the floor. */
  lemma ResultIsBest(p: Problem, i: nat, f: nat)
    requires Measured(p) && i < p.words && f < p.filters && WordLength(p, i) > 0
    ensures -1000000000000.0 <= Result(p, i, f)
    ensures forall u :: 0 <= u && u + p.width <= Max(WordLength(p, i), p.width) ==>
      u + p.width <= p.wordLen && Score(p, i, u, f) <= Result(p, i, f)
    ensures Result(p, i, f) == -1000000000000.0 ||
      exists u :: 0 <= u && u + p.width <= Max(WordLength(p, i), p.width) <= p.wordLen &&
        Score(p, i, u, f) == Result(p, i, f)
  {
    ReachInWord(p, i);
    PooledIsMaximum(p, i, f, Windows(p, i));
  }
}
