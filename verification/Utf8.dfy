/** The UTF-8 recogniser. The accepted language is the grammar in section 4 of RFC 3629, except
    that the lead of a two-byte sequence may be anything in C0-DF. */
module Utf8 {

  import opened Prelude

  // ----- the language -----------------------------------------------------------------------

  predicate IsTail(b: Byte) { 0x80 <= b <= 0xBF }

  /** The first two bytes of a three-byte sequence. */
  predicate OpensThree(b0: Byte, b1: Byte)
  {
    || (b0 == 0xE0 && 0xA0 <= b1 <= 0xBF)
    || (0xE1 <= b0 <= 0xEC && IsTail(b1))
    || (b0 == 0xED && 0x80 <= b1 <= 0x9F)
    || (0xEE <= b0 <= 0xEF && IsTail(b1))
  }

  /** The first two bytes of a four-byte sequence. */
  predicate OpensFour(b0: Byte, b1: Byte)
  {
    || (b0 == 0xF0 && 0x90 <= b1 <= 0xBF)
    || (0xF1 <= b0 <= 0xF3 && IsTail(b1))
    || (b0 == 0xF4 && 0x80 <= b1 <= 0x8F)
  }

  predicate IsChar(c: Bytes)
  {
    || (|c| == 1 && c[0] <= 0x7F)
    || (|c| == 2 && 0xC0 <= c[0] <= 0xDF && IsTail(c[1]))
    || (|c| == 3 && OpensThree(c[0], c[1]) && IsTail(c[2]))
    || (|c| == 4 && OpensFour(c[0], c[1]) && IsTail(c[2]) && IsTail(c[3]))
  }

  function Concat(cs: seq<Bytes>): (s: Bytes)
  {
    if cs == [] then [] else cs[0] + Concat(cs[1..])
  }

  /** `cs` cuts `s` into characters. */
  ghost predicate IsSplit(s: Bytes, cs: seq<Bytes>)
  {
    Concat(cs) == s && forall i :: 0 <= i < |cs| ==> IsChar(cs[i])
  }

  ghost predicate Valid(s: Bytes)
  {
    exists cs :: IsSplit(s, cs)
  }

  ghost predicate AllValid(input: seq<Bytes>)
  {
    forall i :: 0 <= i < |input| ==> Valid(input[i])
  }

  // ----- by the lead byte alone -------------------------------------------------------------

  /** Number of bytes announced by a lead byte; zero if it is no lead byte. */
  function LeadLength(b: Byte): (n: nat)
  {
    if b <= 0x7F then 1
    else if 0xC0 <= b <= 0xDF then 2
    else if 0xE0 <= b <= 0xEF then 3
    else if 0xF0 <= b then 4
    else 0
  }

  /** A lead byte followed by as many bytes as it announces, whatever they are. */
  predicate IsUnit(c: Bytes)
  {
    c != [] && |c| == LeadLength(c[0])
  }

  ghost predicate IsUnitSplit(s: Bytes, cs: seq<Bytes>)
  {
    Concat(cs) == s && forall i :: 0 <= i < |cs| ==> IsUnit(cs[i])
  }

  lemma {:induction false} ConcatAppend(a: seq<Bytes>, b: seq<Bytes>)
    ensures Concat(a + b) == Concat(a) + Concat(b)
  {
    if a == [] {
      assert a + b == b;
    } else {
      ConcatAppend(a[1..], b);
      assert (a + b)[1..] == a[1..] + b && (a + b)[0] == a[0];
      assert a[0] + (Concat(a[1..]) + Concat(b)) == (a[0] + Concat(a[1..])) + Concat(b);
    }
  }

  lemma ConcatOne(c: Bytes)
    ensures Concat([c]) == c
  {
    assert [c][1..] == [];
  }

  lemma CharIsUnit(c: Bytes)
    requires IsChar(c)
    ensures IsUnit(c)
  {
  }

  lemma SplitIsUnitSplit(s: Bytes, cs: seq<Bytes>)
    requires IsSplit(s, cs)
    ensures IsUnitSplit(s, cs)
  {
    forall i | 0 <= i < |cs| ensures IsUnit(cs[i]) { CharIsUnit(cs[i]); }
  }

  /** Two strings that agree agree on their first unit. */
  lemma SameFirst(c: Bytes, d: Bytes, r: Bytes, t: Bytes)
    requires IsUnit(c) && IsUnit(d) && c + r == d + t
    ensures c == d && r == t
  {
    assert (c + r)[0] == c[0] && (d + t)[0] == d[0];
    assert (c + r)[..|c|] == c && (d + t)[..|d|] == d;
    assert (c + r)[|c|..] == r && (d + t)[|d|..] == t;
  }

  /** Every split of a string starts with the split of any prefix that has one. */
  lemma {:induction false} PrefixSplit(x: seq<Bytes>, rest: Bytes, z: seq<Bytes>)
    requires IsUnitSplit(Concat(x), x) && IsUnitSplit(Concat(x) + rest, z)
    ensures |x| <= |z| && z[..|x|] == x && Concat(z[|x|..]) == rest
  {
    if x == [] {
      assert z[0..] == z && Concat(x) + rest == rest;
    } else {
      assert Concat(x) + rest == x[0] + (Concat(x[1..]) + rest);
      assert |Concat(z)| > 0;
      SameFirst(x[0], z[0], Concat(x[1..]) + rest, Concat(z[1..]));
      PrefixSplit(x[1..], rest, z[1..]);
      assert z[1..][|x| - 1..] == z[|x|..];
      assert z == [z[0]] + z[1..] && x == [x[0]] + x[1..];
    }
  }

  lemma UnitSplitUnique(s: Bytes, a: seq<Bytes>, b: seq<Bytes>)
    requires IsUnitSplit(s, a) && IsUnitSplit(s, b)
    ensures a == b
  {
    assert Concat(a) + [] == s;
    PrefixSplit(a, [], b);
  }

  /** There is at most one way to cut a string into characters. */
  lemma SplitUnique(s: Bytes, a: seq<Bytes>, b: seq<Bytes>)
    requires IsSplit(s, a) && IsSplit(s, b)
    ensures a == b
  {
    SplitIsUnitSplit(s, a);
    SplitIsUnitSplit(s, b);
    UnitSplitUnique(s, a, b);
  }

  /** Whatever cuts into characters cuts into units in the same way and in no other. */
  lemma SameCount(s: Bytes, cs: seq<Bytes>, us: seq<Bytes>)
    requires IsSplit(s, cs)
    ensures IsUnitSplit(s, us) <==> us == cs
  {
    SplitIsUnitSplit(s, cs);
    if IsUnitSplit(s, us) {
      UnitSplitUnique(s, us, cs);
    }
  }

  /** The unit that a split of the whole has where a split of a prefix ends. */
  lemma UnitAt(s: Bytes, pos: nat, done: seq<Bytes>, all: seq<Bytes>)
    requires pos < |s| && IsUnitSplit(s[..pos], done) && IsUnitSplit(s, all)
    ensures |done| < |all| && pos + LeadLength(s[pos]) <= |s|
    ensures all[|done|] == s[pos..pos + LeadLength(s[pos])]
  {
    assert s == Concat(done) + s[pos..];
    PrefixSplit(done, s[pos..], all);
    var left := all[|done|..];
    assert Concat(left) == left[0] + Concat(left[1..]) && left[0] == all[|done|];
    assert s[pos] == left[0][0];
    assert s[pos..][..|left[0]|] == left[0];
  }

  lemma OneMore(s: Bytes, pos: nat, next: nat, done: seq<Bytes>)
    requires pos <= next <= |s| && Concat(done) == s[..pos]
    ensures Concat(done + [s[pos..next]]) == s[..next]
  {
    ConcatAppend(done, [s[pos..next]]);
    ConcatOne(s[pos..next]);
    assert s[..next] == s[..pos] + s[pos..next];
  }

  // ----- the code ---------------------------------------------------------------------------

  /** `utf8_bytes`: classification by masks. */
  method LeadBytes(ch: Byte) returns (ok: bool, len: nat)
    ensures ok == (LeadLength(ch) > 0)
    ensures len == LeadLength(ch)
  {
    var bits := ch as bv8;
    if bits & 0x80 == 0 {
      return true, 1;
    }
    if bits & 0xE0 == 0xC0 {
      return true, 2;
    }
    var result := bits & 0xF0;
    if result == 0xE0 {
      return true, 3;
    }
    if result == 0xF0 {
      return true, 4;
    }
    return false, 0;
  }

  /** `utf8_len`: succeeds exactly on strings that cut into units, whose number it returns. */
  method Length(s: Bytes) returns (ok: bool, len: nat)
    ensures ok <==> exists us :: IsUnitSplit(s, us)
    ensures forall us {:trigger IsUnitSplit(s, us)} :: ok && IsUnitSplit(s, us) ==> |us| == len
  {
    var pos := 0;
    len := 0;
    ghost var done := [];
    while pos < |s|
      invariant 0 <= pos <= |s| && |done| == len && IsUnitSplit(s[..pos], done)
    {
      var valid, n := LeadBytes(s[pos]);
      if !valid || |s| - pos < n {
        forall us | IsUnitSplit(s, us) ensures false { UnitAt(s, pos, done, us); }
        return false, 0;
      }
      OneMore(s, pos, pos + n, done);
      done := done + [s[pos..pos + n]];
      pos := pos + n;
      len := len + 1;
    }
    assert s[..pos] == s;
    forall us | IsUnitSplit(s, us) ensures |us| == len { UnitSplitUnique(s, us, done); }
    return true, len;
  }

  /** Whether byte `i` exists and lies between `lo` and `hi`. */
  predicate InRange(s: Bytes, i: nat, lo: Byte, hi: Byte)
  {
    i < |s| && lo <= s[i] <= hi
  }

  /** One round of the loop of `utf8_validate`: the character at `start`. */
  method CheckChar(s: Bytes, start: nat) returns (ok: bool, next: nat)
    requires start < |s|
    ensures ok <==> start + LeadLength(s[start]) <= |s| && IsChar(s[start..start + LeadLength(s[start])])
    ensures ok ==> next == start + LeadLength(s[start])
  {
    var idx := start;
    var valid, bytes := LeadBytes(s[idx]);
    if !valid {
      return false, idx;
    }
    var ch := s[idx];
    if bytes == 2 {
      idx := idx + 1;
      if !InRange(s, idx, 0x80, 0xBF) { return false, idx; }
    } else if bytes == 3 {
      idx := idx + 1;
      if ch == 0xE0 {
        if !InRange(s, idx, 0xA0, 0xBF) { return false, idx; }
      } else if ch == 0xED {
        if !InRange(s, idx, 0x80, 0x9F) { return false, idx; }
      } else if !InRange(s, idx, 0x80, 0xBF) {
        return false, idx;
      }
      idx := idx + 1;
      if !InRange(s, idx, 0x80, 0xBF) { return false, idx; }
    } else if bytes == 4 {
      idx := idx + 1;
      if ch == 0xF0 {
        if !InRange(s, idx, 0x90, 0xBF) { return false, idx; }
      } else if ch == 0xF4 {
        if !InRange(s, idx, 0x80, 0x8F) { return false, idx; }
      } else if 0xF1 <= ch <= 0xF3 {
        if !InRange(s, idx, 0x80, 0xBF) { return false, idx; }
      } else {
        return false, idx;
      }
      var stop := idx + 2;
      while idx < stop
        invariant start + 1 <= idx <= stop == start + 3
        invariant idx < |s|
        invariant forall j :: start + 2 <= j <= idx ==> IsTail(s[j])
      {
        idx := idx + 1;
        if !InRange(s, idx, 0x80, 0xBF) { return false, idx; }
      }
    }
    ghost var c := s[start..start + bytes];
    assert c[0] == s[start] && forall j :: 1 <= j < bytes ==> c[j] == s[start + j];
    return true, idx + 1;
  }

  /** `utf8_validate`: accepts exactly the valid strings and returns the number of characters. */
  method Validate(s: Bytes) returns (ok: bool, count: nat)
    ensures ok <==> Valid(s)
    ensures forall cs {:trigger IsSplit(s, cs)} :: ok && IsSplit(s, cs) ==> |cs| == count
  {
    var idx := 0;
    count := 0;
    ghost var done := [];
    while idx < |s|
      invariant 0 <= idx <= |s| && |done| == count && IsSplit(s[..idx], done)
    {
      var good, next := CheckChar(s, idx);
      if !good {
        forall cs | IsSplit(s, cs) ensures false {
          SplitIsUnitSplit(s, cs);
          SplitIsUnitSplit(s[..idx], done);
          UnitAt(s, idx, done, cs);
        }
        return false, 0;
      }
      OneMore(s, idx, next, done);
      done := done + [s[idx..next]];
      idx := next;
      count := count + 1;
    }
    assert s[..idx] == s;
    forall cs | IsSplit(s, cs) ensures |cs| == count { SplitUnique(s, cs, done); }
    return true, count;
  }

  // ----- boundaries -------------------------------------------------------------------------

  /** What follows a valid prefix of a valid string is valid, and conversely. */
  lemma ValidConcat(a: Bytes, b: Bytes)
    requires Valid(a)
    ensures Valid(a + b) <==> Valid(b)
  {
    var x :| IsSplit(a, x);
    if Valid(b) {
      var y :| IsSplit(b, y);
      ConcatAppend(x, y);
      assert IsSplit(a + b, x + y);
    }
    if Valid(a + b) {
      var z :| IsSplit(a + b, z);
      SplitIsUnitSplit(a, x);
      SplitIsUnitSplit(a + b, z);
      PrefixSplit(x, b, z);
      assert IsSplit(b, z[|x|..]);
    }
  }

  /** Position `p` lies between characters. */
  ghost predicate Boundary(text: Bytes, p: nat)
  {
    p <= |text| && Valid(text[..p])
  }

  lemma BetweenBoundaries(text: Bytes, p: nat, q: nat)
    requires Boundary(text, p) && Boundary(text, q) && p <= q
    ensures Valid(text[p..q])
  {
    assert text[..q] == text[..p] + text[p..q];
    ValidConcat(text[..p], text[p..q]);
  }

  /** The end of the character that starts at a boundary is a boundary. */
  lemma NextBoundary(text: Bytes, p: nat)
    requires Valid(text) && Boundary(text, p) && p < |text|
    ensures LeadLength(text[p]) > 0 && Boundary(text, p + LeadLength(text[p]))
  {
    var all :| IsSplit(text, all);
    var done :| IsSplit(text[..p], done);
    SplitIsUnitSplit(text, all);
    SplitIsUnitSplit(text[..p], done);
    UnitAt(text, p, done, all);
    var q := p + LeadLength(text[p]);
    OneMore(text, p, q, done);
    assert IsSplit(text[..q], done + [text[p..q]]);
  }

  // ----- the grammar as published -----------------------------------------------------------

  /** A character of the grammar in section 4 of RFC 3629, where a two-byte lead is at least C2. */
  predicate RfcChar(c: Bytes)
  {
    || (|c| == 1 && c[0] <= 0x7F)
    || (|c| == 2 && 0xC2 <= c[0] <= 0xDF && IsTail(c[1]))
    || (|c| == 3 && OpensThree(c[0], c[1]) && IsTail(c[2]))
    || (|c| == 4 && OpensFour(c[0], c[1]) && IsTail(c[2]) && IsTail(c[3]))
  }

  ghost predicate RfcValid(s: Bytes)
  {
    exists cs :: IsRfcSplit(s, cs)
  }

  ghost predicate IsRfcSplit(s: Bytes, cs: seq<Bytes>)
  {
    Concat(cs) == s && forall i :: 0 <= i < |cs| ==> RfcChar(cs[i])
  }

  /** The two bytes that lead overlong sequences only. */
  ghost predicate HasOverlongLead(s: Bytes)
  {
    exists i :: 0 <= i < |s| && (s[i] == 0xC0 || s[i] == 0xC1)
  }

  /** A character is as published unless it contains one of them. */
  lemma RfcCharIff(c: Bytes)
    ensures RfcChar(c) <==> IsChar(c) && !HasOverlongLead(c)
  {
    assert |c| == 2 && 0xC0 <= c[0] < 0xC2 ==> HasOverlongLead(c);
  }

  lemma OverlongConcat(a: Bytes, b: Bytes)
    ensures HasOverlongLead(a + b) <==> HasOverlongLead(a) || HasOverlongLead(b)
  {
    if HasOverlongLead(a) {
      var i :| 0 <= i < |a| && (a[i] == 0xC0 || a[i] == 0xC1);
      assert (a + b)[i] == a[i];
    }
    if HasOverlongLead(b) {
      var i :| 0 <= i < |b| && (b[i] == 0xC0 || b[i] == 0xC1);
      assert (a + b)[|a| + i] == b[i];
    }
  }

  lemma {:induction false} OverlongSplit(cs: seq<Bytes>)
    requires forall i :: 0 <= i < |cs| ==> IsChar(cs[i])
    ensures HasOverlongLead(Concat(cs)) <==> exists i :: 0 <= i < |cs| && !RfcChar(cs[i])
  {
    if cs != [] {
      RfcCharIff(cs[0]);
      OverlongConcat(cs[0], Concat(cs[1..]));
      OverlongSplit(cs[1..]);
      assert forall i :: 1 <= i < |cs| ==> cs[i] == cs[1..][i - 1];
    }
  }

  /** The validator and the published grammar agree exactly on the strings without C0 and C1. */
  lemma RfcValidIff(s: Bytes)
    ensures RfcValid(s) <==> Valid(s) && !HasOverlongLead(s)
  {
    if RfcValid(s) {
      var cs :| IsRfcSplit(s, cs);
      forall i | 0 <= i < |cs| ensures IsChar(cs[i]) { RfcCharIff(cs[i]); }
      assert IsSplit(s, cs);
      OverlongSplit(cs);
    }
    if Valid(s) && !HasOverlongLead(s) {
      var cs :| IsSplit(s, cs);
      OverlongSplit(cs);
      assert IsRfcSplit(s, cs);
    }
  }

  /** An overlong zero is accepted by the validator and not in the grammar. */
  lemma OverlongAccepted()
    ensures Valid([0xC0, 0x80]) && !RfcValid([0xC0, 0x80])
  {
    ConcatOne([0xC0, 0x80]);
    assert IsSplit([0xC0, 0x80], [[0xC0, 0x80]]);
    assert HasOverlongLead([0xC0, 0x80]) by { assert [0xC0, 0x80][0] == 0xC0; }
    RfcValidIff([0xC0, 0x80]);
  }
}
