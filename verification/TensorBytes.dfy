/** Tensor elements in memory on a little-endian machine, and in the wider fields of a message. */
module TensorBytes {

  import opened Prelude

  function Pow256(w: nat): (n: nat)
  {
    if w == 0 then 1 else 256 * Pow256(w - 1)
  }

  lemma Powers()
    ensures Pow256(0) == 1 && Pow256(1) == 0x100 && Pow256(2) == 0x1_0000 && Pow256(3) == 0x100_0000
    ensures Pow256(4) == 0x1_0000_0000 && Pow256(7) == 0x100_0000_0000_0000
    ensures Pow256(8) == 0x1_0000_0000_0000_0000
  {
    assert Pow256(5) == 256 * Pow256(4) && Pow256(6) == 256 * Pow256(5);
  }

  /** `w` bytes of `u`, lowest first. */
  function ToBytes(u: nat, w: nat): (bs: seq<Byte>)
    ensures |bs| == w
  {
    if w == 0 then [] else [u % 256] + ToBytes(u / 256, w - 1)
  }

  function FromBytes(bs: seq<Byte>): (u: nat)
  {
    if bs == [] then 0 else bs[0] + 256 * FromBytes(bs[1..])
  }

  /** The first `w` bytes hold the number modulo 256 to the power `w`. */
  lemma {:induction false} LowBytes(u: nat, n: nat, w: nat)
    requires w <= n
    ensures FromBytes(ToBytes(u, n)[..w]) < Pow256(w)
    ensures exists q: nat :: u == FromBytes(ToBytes(u, n)[..w]) + Pow256(w) * q
  {
    if w == 0 {
      assert u == 0 + Pow256(0) * u;
    } else {
      var bs, rest := ToBytes(u, n), ToBytes(u / 256, n - 1);
      LowBytes(u / 256, n - 1, w - 1);
      var q: nat :| u / 256 == FromBytes(rest[..w - 1]) + Pow256(w - 1) * q;
      assert bs[..w][1..] == rest[..w - 1];
      Regroup(Pow256(w - 1), q);
      assert u == FromBytes(bs[..w]) + Pow256(w) * q;
    }
  }

  lemma Regroup(p: nat, q: nat)
    ensures 256 * (p * q) == (256 * p) * q
  {
  }

  /** Writing all bytes of a number that fits and reading them back. */
  lemma {:induction false} BytesBack(u: nat, w: nat)
    requires u < Pow256(w)
    ensures FromBytes(ToBytes(u, w)) == u
  {
    if w > 0 {
      BytesBack(u / 256, w - 1);
      assert ToBytes(u, w)[1..] == ToBytes(u / 256, w - 1);
    }
  }

  // ----- signed and unsigned values ---------------------------------------------------------

  /** Values of an element type of `w` bytes; floating-point numbers are taken as bit patterns. */
  predicate InType(v: int, w: nat, signed: bool)
    requires w > 0
  {
    if signed then 0 <= v + 128 * Pow256(w - 1) < Pow256(w) else 0 <= v < Pow256(w)
  }

  /** Two's complement. */
  function Encode(v: int, w: nat): (u: nat)
    requires 0 <= v + Pow256(w)
  {
    if v < 0 then v + Pow256(w) else v
  }

  function Decode(u: nat, w: nat, signed: bool): (v: int)
    requires w > 0
  {
    if signed && u >= 128 * Pow256(w - 1) then u - Pow256(w) else u
  }

  lemma CodeFits(v: int, w: nat, signed: bool)
    requires w > 0 && InType(v, w, signed)
    ensures 0 <= v + Pow256(w) && Encode(v, w) < Pow256(w) && Decode(Encode(v, w), w, signed) == v
  {
  }

  /** An element as it lies in memory. */
  function Store(v: int, w: nat): (bs: seq<Byte>)
    requires 0 <= v + Pow256(w)
    ensures |bs| == w
  {
    ToBytes(Encode(v, w), w)
  }

  function Load(bs: seq<Byte>, signed: bool): (v: int)
    requires bs != []
  {
    Decode(FromBytes(bs), |bs|, signed)
  }

  lemma LoadStore(v: int, w: nat, signed: bool)
    requires w > 0 && InType(v, w, signed)
    ensures 0 <= v + Pow256(w) && Load(Store(v, w), signed) == v
  {
    CodeFits(v, w, signed);
    BytesBack(Encode(v, w), w);
  }

  lemma {:induction false} PowMonotone(a: nat, b: nat)
    requires a <= b
    ensures Pow256(a) <= Pow256(b)
  {
    if a < b {
      PowMonotone(a, b - 1);
    }
  }

  lemma {:induction false} PowSplit(a: nat, b: nat)
    ensures Pow256(a + b) == Pow256(a) * Pow256(b)
  {
    if a > 0 {
      PowSplit(a - 1, b);
      Regroup(Pow256(a - 1), Pow256(b));
    }
  }

  /** Widening adds a multiple of the narrow range. */
  lemma WidenedCode(v: int, w: nat, n: nat) returns (k: nat)
    requires w <= n && 0 <= v + Pow256(w)
    ensures 0 <= v + Pow256(n) && Encode(v, n) == Encode(v, w) + Pow256(w) * k
  {
    PowMonotone(w, n);
    if v < 0 {
      PowMonotone(0, n - w);
      PowSplit(w, n - w);
      k := Pow256(n - w) - 1;
      OneLess(Pow256(w), Pow256(n - w));
    } else {
      k := 0;
    }
  }

  lemma OneLess(p: nat, q: nat)
    requires q > 0
    ensures p * q == p * (q - 1) + p
  {
  }

  /** A value widened to a field of `n` bytes is recovered from the field's first `w` bytes, sign
      and all. */
  lemma NarrowWidened(v: int, w: nat, n: nat, signed: bool)
    requires 0 < w <= n && InType(v, w, signed)
    ensures 0 <= v + Pow256(n) && Load(Store(v, n)[..w], signed) == v
  {
    CodeFits(v, w, signed);
    var k := WidenedCode(v, w, n);
    var low := FromBytes(Store(v, n)[..w]);
    LowBytes(Encode(v, n), n, w);
    var q: nat :| Encode(v, n) == low + Pow256(w) * q;
    SameRest(low, q, Encode(v, w), k, Pow256(w));
  }

  lemma SameRest(a: nat, q: nat, b: nat, k: nat, d: nat)
    requires a < d && b < d && a + d * q == b + d * k
    ensures a == b
  {
    if q < k {
      OneMore(d, q, k);
    } else if k < q {
      OneMore(d, k, q);
    }
  }

  lemma {:induction false} OneMore(d: nat, q: nat, k: nat)
    requires q < k
    ensures d * q + d <= d * k
  {
    if q + 1 < k {
      OneMore(d, q, k - 1);
    }
    assert d * k == d * (k - 1) + d;
  }
}
