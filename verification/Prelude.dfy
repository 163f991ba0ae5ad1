/** Small vocabulary shared by all the models. */
module Prelude {

  type Byte = x: int | 0 <= x < 256

  type Bytes = seq<Byte>

  datatype Option<+T> = None | Some(value: T)

  /** The arguments that are present, in order: optional node arguments may be missing. */
  function Existing(args: seq<Option<nat>>): (ids: seq<nat>)
  {
    if args == [] then []
    else
      var last := args[|args| - 1];
      Existing(args[..|args| - 1]) + (if last.Some? then [last.value] else [])
  }

  lemma {:induction false} ExistingMember(args: seq<Option<nat>>, v: nat)
    ensures v in Existing(args) <==> Some(v) in args
  {
    if args != [] {
      var front := args[..|args| - 1];
      ExistingMember(front, v);
      assert args == front + [args[|args| - 1]];
    }
  }

  /** Where the argument in a given slot lands once the missing ones are dropped. */
  function Position(args: seq<Option<nat>>, slot: nat): (p: nat)
    requires slot < |args|
  {
    |Existing(args[..slot])|
  }

  lemma {:induction false} PositionHolds(args: seq<Option<nat>>, slot: nat)
    requires slot < |args| && args[slot].Some?
    ensures Position(args, slot) < |Existing(args)|
    ensures Existing(args)[Position(args, slot)] == args[slot].value
  {
    var front := args[..|args| - 1];
    if slot < |args| - 1 {
      PositionHolds(front, slot);
      assert front[..slot] == args[..slot];
    } else {
      assert args[..slot] == front;
    }
  }

  lemma {:induction false} PositionGrows(args: seq<Option<nat>>, slot: nat, slot': nat)
    requires slot < slot' < |args| && args[slot].Some?
    ensures Position(args, slot) < Position(args, slot')
  {
    assert args[..slot'][..slot] == args[..slot];
    PositionHolds(args[..slot'], slot);
  }

  ghost predicate NoDuplicates<T>(s: seq<T>)
  {
    forall i, j :: 0 <= i < j < |s| ==> s[i] != s[j]
  }

  /** Each element once, whatever its multiplicity in `s`. */
  function Distinct(s: seq<nat>): (d: seq<nat>)
  {
    if s == [] then []
    else if s[|s| - 1] in s[..|s| - 1] then Distinct(s[..|s| - 1])
    else Distinct(s[..|s| - 1]) + [s[|s| - 1]]
  }

  /** Number of occurrences. */
  function Count(s: seq<int>, v: int): (c: nat)
  {
    if s == [] then 0
    else Count(s[..|s| - 1], v) + if s[|s| - 1] == v then 1 else 0
  }

  lemma {:induction false} CountConcat(s: seq<int>, t: seq<int>, v: int)
    ensures Count(s + t, v) == Count(s, v) + Count(t, v)
  {
    if t == [] {
      assert s + t == s;
    } else {
      CountConcat(s, t[..|t| - 1], v);
      assert (s + t)[..|s + t| - 1] == s + t[..|t| - 1];
    }
  }

  lemma {:induction false} CountPositive(s: seq<int>, v: int)
    ensures Count(s, v) > 0 <==> v in s
  {
    if s != [] {
      CountPositive(s[..|s| - 1], v);
      assert s == s[..|s| - 1] + [s[|s| - 1]];
    }
  }

  lemma {:induction false} DistinctCounts(s: seq<nat>, v: nat)
    ensures Count(Distinct(s), v) == if v in s then 1 else 0
  {
    if s != [] {
      DistinctCounts(s[..|s| - 1], v);
      assert s == s[..|s| - 1] + [s[|s| - 1]];
    }
  }

  // ----- sequences ------------------------------------------------------------------------

  lemma Associate<T>(a: seq<T>, b: seq<T>, c: seq<T>)
    ensures a + (b + c) == (a + b) + c
  {
  }

  lemma SliceOfPrefix<T>(a: seq<T>, b: seq<T>, lo: nat, hi: nat)
    requires lo <= hi <= |a|
    ensures (a + b)[lo..hi] == a[lo..hi]
  {
  }

  lemma SliceOfSuffix<T>(a: seq<T>, b: seq<T>, lo: nat, hi: nat)
    requires |a| <= lo <= hi <= |a| + |b|
    ensures (a + b)[lo..hi] == b[lo - |a|..hi - |a|]
  {
  }

  lemma SliceKept<T>(s: seq<T>, t: seq<T>, lo: nat, hi: nat, end: nat)
    requires lo <= hi <= end <= |s| == |t| && s[..end] == t[..end]
    ensures s[lo..hi] == t[lo..hi]
  {
    assert s[..end][lo..hi] == s[lo..hi] && t[..end][lo..hi] == t[lo..hi];
  }

  lemma SliceOfSlice<T>(s: seq<T>, lo: nat, hi: nat, a: nat, b: nat)
    requires lo <= hi <= |s| && a <= b <= hi - lo
    ensures s[lo..hi][a..b] == s[lo + a..lo + b]
  {
    var part := s[lo..hi];
    assert forall k :: a <= k < b ==> part[k] == s[lo + k];
  }

  // ----- products -------------------------------------------------------------------------

  lemma NextMultiple(i: nat, n: nat)
    ensures (i + 1) * n == i * n + n >= 0
  {
  }

  lemma {:induction false} MulMonotone(a: nat, b: nat, n: nat)
    requires a <= b
    ensures 0 <= a * n <= b * n
  {
    if a < b {
      MulMonotone(a, b - 1, n);
      NextMultiple(b - 1, n);
    }
  }

  lemma MulCancel(d: nat, x: int, y: int)
    requires d * x < d * y
    ensures x < y
  {
  }

  lemma DivUnique(x: int, d: nat, q: int, r: int)
    requires x == d * q + r && 0 <= r < d
    ensures x / d == q
  {
    var q' := x / d;
    assert x == d * q' + x % d;
    assert d * q < d * (q' + 1) && d * q' < d * (q + 1);
    MulCancel(d, q, q' + 1);
    MulCancel(d, q', q + 1);
  }
}
