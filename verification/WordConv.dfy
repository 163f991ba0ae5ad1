/** Word convolution embedding as computed: runs of non-empty words are unfolded into one buffer,
    convolved together and pooled back word by word. */
module WordConv {

  import opened Prelude
  import opened WordConvSpec

  /** Block copy. */
  method Copy(dst: array<real>, at: nat, v: seq<real>)
    requires at + |v| <= dst.Length
    modifies dst
    ensures dst[..at + |v|] == old(dst[..at]) + v
    ensures dst[at + |v|..] == old(dst[at + |v|..])
  {
    forall k | 0 <= k < |v| {
      dst[at + k] := v[k];
    }
    assert dst[..at] == old(dst[..at]) && dst[at..at + |v|] == v;
    assert dst[..at + |v|] == dst[..at] + dst[at..at + |v|];
  }

  // ----- lengths and lookup -----------------------------------------------------------------

  method CalculateLengths(p: Problem) returns (lengths: seq<nat>)
    requires HasInputs(p)
    ensures |lengths| == p.words && forall i :: 0 <= i < p.words ==> lengths[i] == WordLength(p, i) <= p.wordLen
    ensures Suffices(p) ==> Measured(p.(lengths := lengths))
  {
    var out := new nat[p.words](_ => 0);
    var i := 0;
    while i < p.words
      invariant 0 <= i <= p.words
      invariant forall j :: 0 <= j < i ==> out[j] == WordLength(p, j) <= p.wordLen
    {
      var n := 0;
      if CharAt(p, i, 0) > 0 {
        var c := 0;
        while c < p.wordLen
          invariant 0 <= c <= p.wordLen && n == PositiveChars(p, i, c)
        {
          if CharAt(p, i, c) > 0 {
            n := n + 1;
          }
          c := c + 1;
        }
      }
      PositiveCharsBound(p, i, p.wordLen);
      out[i] := n;
      i := i + 1;
    }
    lengths := out[..];
    forall j | 0 <= j < p.words ensures WordLength(p.(lengths := lengths), j) == WordLength(p, j) {
      SameWords(p, p.(lengths := lengths), j, p.wordLen);
    }
  }

  lemma {:induction false} SameWords(p: Problem, q: Problem, i: nat, n: nat)
    requires HasInputs(p) && q == p.(lengths := q.lengths) && i < p.words && n <= p.wordLen
    ensures PositiveChars(p, i, n) == PositiveChars(q, i, n)
  {
    if n > 0 {
      SameWords(p, q, i, n - 1);
    }
  }

  /** Where character `c` of word `i` goes. */
  lemma PlaceInRange(p: Problem, i: nat, c: nat)
    requires i < p.words && c <= p.wordLen
    ensures 0 <= Times(i, WordSize(p)) && 0 <= Times(c, p.embed) <= WordSize(p)
    ensures Times(i, WordSize(p)) + WordSize(p) <= Times(p.words, WordSize(p))
  {
    TimesMonotone(c, p.wordLen, p.embed);
    TimesMonotone(i + 1, p.words, WordSize(p));
    Distribute(i, 1, WordSize(p));
  }

  /** The row of the table for a character. */
  method TableRow(p: Problem, c: int) returns (row: seq<real>)
    requires HasInputs(p) && InTable(p, c) && IsRow(p, c)
    ensures row == p.embedding(c)
  {
    TimesMonotone(c + 1, p.alphabet, p.embed);
    Distribute(c, 1, p.embed);
    row := p.table[Times(c, p.embed)..Times(c, p.embed) + p.embed];
  }

  method LookUpWord(p: Problem, i: nat, dst: array<real>)
    requires WellFormed(p) && i < p.words && p.lengths[i] > 0 && dst.Length == Times(p.words, WordSize(p))
    requires forall j :: 0 <= j < Reach(p, i) && j < p.wordLen ==>
      InTable(p, CharAt(p, i, j)) && IsRow(p, CharAt(p, i, j))
    modifies dst
    ensures LookedUp(p, i, dst[..])
    ensures 0 <= Times(i, WordSize(p)) <= dst.Length
    ensures dst[..Times(i, WordSize(p))] == old(dst[..Times(i, WordSize(p))])
  {
    ReachInWord(p, i);
    PlaceInRange(p, i, p.wordLen);
    ghost var base := Times(i, WordSize(p));
    var cursor, c, reach := Times(i, WordSize(p)), 0, Max(p.lengths[i], p.width);
    ghost var before := dst[..base];
    while c < reach
      invariant 0 <= c <= Reach(p, i) && cursor == base + Times(c, p.embed) <= dst.Length
      invariant dst[..cursor] == before + Embeddings(p, i, 0, c)
    {
      PlaceInRange(p, i, c + 1);
      Distribute(c, 1, p.embed);
      var row := TableRow(p, CharAt(p, i, c));
      Copy(dst, cursor, row);
      Associate(before, Embeddings(p, i, 0, c), p.embedding(CharAt(p, i, c)));
      cursor := cursor + p.embed;
      c := c + 1;
    }
    Placed(dst[..], base, cursor, before, Embeddings(p, i, 0, Reach(p, i)));
  }

  lemma Placed(s: seq<real>, base: nat, end: nat, before: seq<real>, v: seq<real>)
    requires base == |before| && end <= |s| && s[..end] == before + v
    ensures s[base..end] == v && s[..base] == before
  {
    assert s[..end][base..] == s[base..end] && s[..end][..base] == s[..base];
  }

  lemma LookedUpKept(p: Problem, w: nat, i: nat, s: seq<real>, t: seq<real>)
    requires WellFormed(p) && w < i < p.words && LookedUp(p, w, s) && |s| == |t|
    requires 0 <= Times(i, WordSize(p)) <= |s|
    requires s[..Times(i, WordSize(p))] == t[..Times(i, WordSize(p))]
    ensures LookedUp(p, w, t)
  {
    ReachInWord(p, w);
    var at, n, end := Times(w, WordSize(p)), Times(Reach(p, w), p.embed), Times(i, WordSize(p));
    PlaceInRange(p, w, Reach(p, w));
    TimesMonotone(w + 1, i, WordSize(p));
    Distribute(w, 1, WordSize(p));
    SliceKept(s, t, at, at + n, end);
  }

  method CharEmbeddingLookup(p: Problem, dst: array<real>)
    requires Measured(p) && ReadsInTable(p) && dst.Length == Times(p.words, WordSize(p))
    modifies dst
    ensures AllLookedUp(p, p.words, dst[..])
  {
    var i := 0;
    while i < p.words
      invariant 0 <= i <= p.words && AllLookedUp(p, i, dst[..])
    {
      if p.lengths[i] > 0 {
        ghost var before := dst[..];
        LookUpWord(p, i, dst);
        forall w | 0 <= w < i && p.lengths[w] > 0 ensures LookedUp(p, w, dst[..]) {
          LookedUpKept(p, w, i, before, dst[..]);
        }
      }
      i := i + 1;
    }
  }

  // ----- unfolding --------------------------------------------------------------------------

  /** Most windows a word can have. */
  function MostWindows(p: Problem): (n: nat)
  {
    if p.width <= p.wordLen then p.wordLen - p.width + 1 else 0
  }

  /** Windows the code unfolds for the words from `first` to before `last`. */
  ghost function Unfolded(p: Problem, first: nat, last: nat): (n: nat)
    requires HasInputs(p) && first <= last <= p.words
  {
    if first == last then 0 else Unfolded(p, first, last - 1) + (Max(WordLength(p, last - 1), p.width) - p.width + 1)
  }

  /** Windows the code makes room for. */
  function Room(p: Problem): (n: int)
  {
    p.words * (p.wordLen - p.width + 1)
  }

  ghost predicate NonEmptyRun(p: Problem, first: nat, last: nat)
    requires HasInputs(p)
  {
    first < last <= p.words && forall i :: first <= i < last ==> WordLength(p, i) > 0
  }

  lemma {:induction false} UnfoldedBound(p: Problem, first: nat, last: nat)
    requires HasInputs(p) && p.width <= p.wordLen && first <= last <= p.words
    ensures Unfolded(p, first, last) <= (last - first) * (p.wordLen - p.width + 1)
  {
    if first < last {
      UnfoldedBound(p, first, last - 1);
      PositiveCharsBound(p, last - 1, p.wordLen);
      NextMultiple(last - 1 - first, p.wordLen - p.width + 1);
    }
  }

  /** The room is enough for every run of non-empty words if and only if a filter fits into a word or
      there is no such run. */
  lemma RoomIffSuffices(p: Problem)
    requires HasInputs(p)
    ensures Suffices(p)
       <==> forall first, last :: 0 <= first < last && NonEmptyRun(p, first, last) ==>
         Unfolded(p, first, last) <= Room(p)
  {
    if p.width <= p.wordLen {
      forall first, last | 0 <= first < last && NonEmptyRun(p, first, last)
        ensures Unfolded(p, first, last) <= Room(p)
      {
        UnfoldedBound(p, first, last);
        MulMonotone(last - first, p.words, p.wordLen - p.width + 1);
      }
    } else if !Suffices(p) {
      var i :| 0 <= i < p.words && WordLength(p, i) > 0;
      assert NonEmptyRun(p, i, i + 1);
      assert Unfolded(p, i, i) == 0;
      assert Unfolded(p, i, i + 1) >= 1;
      NoRoom(p.words, p.wordLen - p.width + 1);
    }
  }

  /** One word of one character under a filter of two: one window is unfolded where there is room for
      none. */
  lemma WideFilterOverruns(p: Problem)
    requires HasInputs(p) && p.words == 1 && p.wordLen == 1 && p.chars == [1] && p.width == 2
    ensures !Suffices(p) && NonEmptyRun(p, 0, 1) && Unfolded(p, 0, 1) == 1 && Room(p) == 0
  {
    assert Times(0, 1) == 0;
    assert CharAt(p, 0, 0) == 1;
    assert PositiveChars(p, 0, 0) == 0;
    assert WordLength(p, 0) == 1;
    assert Unfolded(p, 0, 0) == 0;
  }

  lemma NoRoom(words: nat, room: int)
    requires room <= 0
    ensures words * room <= 0
  {
    MulMonotone(0, words, -room);
  }

  /** The buffers are large enough for any run. */
  lemma {:induction false} RunFits(p: Problem, first: nat, last: nat)
    requires WellFormed(p) && first <= last <= p.words
    ensures |RunWindows(p, first, last)| <= Times(last - first, MostWindows(p)) <= Times(p.words, MostWindows(p))
  {
    TimesMonotone(last - first, p.words, MostWindows(p));
    if first < last {
      RunFits(p, first, last - 1);
      ReachInWord(p, last - 1);
      Distribute(last - 1 - first, 1, MostWindows(p));
    }
  }

  lemma {:induction false} RunPrefix(p: Problem, first: nat, middle: nat, last: nat)
    requires WellFormed(p) && first <= middle <= last <= p.words
    ensures RunWindows(p, first, middle) <= RunWindows(p, first, last)
  {
    if middle < last {
      RunPrefix(p, first, middle, last - 1);
    }
  }

  /** Each window of a word is found in the run at the word's offset. */
  lemma WindowInRun(p: Problem, first: nat, i: nat, last: nat, u: nat)
    requires WellFormed(p) && first <= i < last <= p.words && u < Windows(p, i)
    ensures u + p.width <= p.wordLen && |RunWindows(p, first, i)| + u < |RunWindows(p, first, last)|
    ensures RunWindows(p, first, last)[|RunWindows(p, first, i)| + u] == Window(p, i, u)
  {
    ReachInWord(p, i);
    RunPrefix(p, first, i + 1, last);
    assert RunWindows(p, first, i + 1)[|RunWindows(p, first, i)| + u] == Window(p, i, u);
  }

  /** Add one row. */
  method PutRow(buffer: array<real>, next: nat, v: seq<real>, ghost rows: seq<seq<real>>, ghost more: seq<seq<real>>)
    requires StartsWith(buffer[..], rows, next) && Flat(more) == Flat(rows) + v && next + |v| <= buffer.Length
    modifies buffer
    ensures StartsWith(buffer[..], more, next + |v|)
  {
    assert buffer[..][..next] == buffer[..next];
    Copy(buffer, next, v);
    assert buffer[..][..next + |v|] == buffer[..next + |v|];
  }

  lemma {:induction false} FlatGrows(a: seq<seq<real>>, b: seq<seq<real>>)
    ensures |Flat(a)| <= |Flat(a + b)|
  {
    if b == [] {
      assert a + b == a;
    } else {
      var n := |b| - 1;
      assert (a + b)[..|a| + n] == a + b[..n];
      FlatGrows(a, b[..n]);
    }
  }

  /** Window `u` of a text that starts at `source` and moves on by `step` numbers per character. */
  ghost predicate WindowAt(s: seq<real>, source: nat, u: nat, step: nat, row: seq<real>)
  {
    source + Times(u, step) + |row| <= |s| && s[source + Times(u, step)..source + Times(u, step) + |row|] == row
  }

  ghost predicate SlidingWindows(s: seq<real>, source: nat, step: nat, kernel: nat, rows: seq<seq<real>>)
  {
    forall u :: 0 <= u < |rows| ==> |rows[u]| == kernel && WindowAt(s, source, u, step, rows[u])
  }

  lemma RoomForOne(before: seq<seq<real>>, rows: seq<seq<real>>, u: nat, size: nat)
    requires u < |rows| && |Flat(before + rows)| <= size
    ensures Flat(before + rows[..u + 1]) == Flat(before + rows[..u]) + rows[u]
    ensures |Flat(before + rows[..u])| + |rows[u]| <= size
  {
    assert before + rows == (before + rows[..u + 1]) + rows[u + 1..];
    FlatGrows(before + rows[..u + 1], rows[u + 1..]);
    assert before + rows[..u + 1] == (before + rows[..u]) + [rows[u]];
    FlatAppend(before + rows[..u], rows[u]);
  }

  /** Copy the windows of one word behind what is there already. */
  method UnfoldWord(input: seq<real>, start: nat, step: nat, kernel: nat, windows: nat, buffer: array<real>, at: nat,
                    ghost before: seq<seq<real>>, ghost rows: seq<seq<real>>) returns (next: nat)
    requires |rows| == windows && SlidingWindows(input, start, step, kernel, rows)
    requires StartsWith(buffer[..], before, at) && |Flat(before + rows)| <= buffer.Length
    modifies buffer
    ensures StartsWith(buffer[..], before + rows, next)
  {
    next := at;
    var source, u := start, 0;
    assert before + rows[..0] == before;
    while u < windows
      invariant 0 <= u <= windows && source == start + Times(u, step)
      invariant StartsWith(buffer[..], before + rows[..u], next)
    {
      assert WindowAt(input, start, u, step, rows[u]);
      RoomForOne(before, rows, u, buffer.Length);
      PutRow(buffer, next, input[source..source + kernel], before + rows[..u], before + rows[..u + 1]);
      Distribute(u, 1, step);
      source := source + step;
      next := next + kernel;
      u := u + 1;
    }
    assert rows[..u] == rows;
  }

  lemma WindowInPlace(p: Problem, i: nat, u: nat, s: seq<real>)
    requires WellFormed(p) && i < p.words && LookedUp(p, i, s) && u < Windows(p, i)
    ensures u + p.width <= p.wordLen && 0 <= Times(i, WordSize(p))
    ensures WindowAt(s, Times(i, WordSize(p)), u, p.embed, Window(p, i, u))
  {
    ReachInWord(p, i);
    var base, n := Times(i, WordSize(p)), Times(Reach(p, i), p.embed);
    WindowIsSlice(p, i, u, Reach(p, i));
    EmbeddingsLength(p, i, 0, Reach(p, i));
    SliceOfSlice(s, base, base + n, Times(u, p.embed), Times(u, p.embed) + Kernel(p));
  }

  /** Everything is in place to unfold word `i` behind the run that ends there. */
  lemma ReadyToUnfold(p: Problem, first: nat, i: nat, s: seq<real>, size: nat)
    requires WellFormed(p) && first <= i < p.words && LookedUp(p, i, s)
    requires size == Times(Times(p.words, MostWindows(p)), Kernel(p))
    ensures WindowsFit(p, Windows(p, i)) && 0 <= Times(i, WordSize(p))
    ensures SlidingWindows(s, Times(i, WordSize(p)), p.embed, Kernel(p), WordWindows(p, i, Windows(p, i)))
    ensures |Flat(RunWindows(p, first, i) + WordWindows(p, i, Windows(p, i)))| <= size
  {
    ReachInWord(p, i);
    var all, rows := RunWindows(p, first, i + 1), WordWindows(p, i, Windows(p, i));
    RunFits(p, first, i + 1);
    FlatLength(all, Kernel(p));
    TimesMonotone(|all|, Times(p.words, MostWindows(p)), Kernel(p));
    forall u | 0 <= u < |rows|
      ensures |rows[u]| == Kernel(p) && WindowAt(s, Times(i, WordSize(p)), u, p.embed, rows[u])
    {
      WindowInPlace(p, i, u, s);
    }
  }

  /** Unfold word `i` behind the run that ends there. */
  method UnfoldNext(p: Problem, ghost first: nat, i: nat, input: seq<real>, buffer: array<real>, at: nat,
                    ghost rows: seq<seq<real>>) returns (next: nat, windows: nat, ghost more: seq<seq<real>>)
    requires WellFormed(p) && first <= i < p.words && p.lengths[i] > 0 && AllLookedUp(p, p.words, input)
    requires buffer.Length == Times(Times(p.words, MostWindows(p)), Kernel(p))
    requires IsRunOf(p, first, i, rows) && StartsWith(buffer[..], rows, at)
    modifies buffer
    ensures IsRunOf(p, first, i + 1, more) && StartsWith(buffer[..], more, next)
    ensures |more| == |rows| + windows
  {
    ReachInWord(p, i);
    ReadyToUnfold(p, first, i, input, buffer.Length);
    windows := Max(p.lengths[i], p.width) - p.width + 1;
    more := rows + WordWindows(p, i, windows);
    next := UnfoldWord(input, Times(i, WordSize(p)), p.embed, Kernel(p), windows, buffer, at, rows,
                       WordWindows(p, i, windows));
  }

  /** Unfold the run that starts at `first`, up to the next empty word. */
  method UnfoldRun(p: Problem, first: nat, input: seq<real>, buffer: array<real>)
    returns (last: nat, count: nat, ghost end: nat, ghost rows: seq<seq<real>>)
    requires WellFormed(p) && AllLookedUp(p, p.words, input)
    requires first < p.words && p.lengths[first] > 0
    requires buffer.Length == Times(Times(p.words, MostWindows(p)), Kernel(p))
    modifies buffer
    ensures first < last <= p.words && NoneEmpty(p, first, last)
    ensures IsRunOf(p, first, last, rows) && StartsWith(buffer[..], rows, end) && count == |rows|
  {
    last, count, rows := first, 0, [];
    var next := 0;
    while last < p.words && p.lengths[last] > 0
      invariant first <= last <= p.words && NoneEmpty(p, first, last)
      invariant IsRunOf(p, first, last, rows) && StartsWith(buffer[..], rows, next) && count == |rows|
    {
      var windows;
      next, windows, rows := UnfoldNext(p, first, last, input, buffer, next, rows);
      count := count + windows;
      last := last + 1;
    }
    end := next;
  }
}
