/** The grammar against what it encodes: the characters are the encodings of the scalar values, and
    the length a lead byte announces is the number of its leading ones. */
module Utf8Scalars {

  import opened Prelude
  import opened Utf8

  /** Code points that are no surrogates, as section 3 of RFC 3629 has them. */
  predicate IsScalar(v: nat) { v < 0xD800 || 0xE000 <= v <= 0x10FFFF }

  /** Six bits each behind a lead that says how many bytes there are. */
  function Encoding(v: nat): (c: Bytes)
    requires IsScalar(v)
  {
    if v < 0x80 then [v]
    else if v < 0x800 then [0xC0 + v / 64, 0x80 + v % 64]
    else if v < 0x10000 then [0xE0 + v / 4096, 0x80 + v / 64 % 64, 0x80 + v % 64]
    else [0xF0 + v / 262144, 0x80 + v / 4096 % 64, 0x80 + v / 64 % 64, 0x80 + v % 64]
  }

  ghost predicate Encodes(c: Bytes, v: nat)
  {
    IsScalar(v) && Encoding(v) == c
  }

  /** The number in the bits behind the lead. */
  function Value(c: Bytes): (v: int)
    requires 1 <= |c| <= 4
  {
    var b0: int := c[0];
    if |c| == 1 then b0
    else
      var b1: int := c[1];
      if |c| == 2 then 64 * (b0 - 0xC0) + (b1 - 0x80)
      else
        var b2: int := c[2];
        if |c| == 3 then 4096 * (b0 - 0xE0) + 64 * (b1 - 0x80) + (b2 - 0x80)
        else
          var b3: int := c[3];
          262144 * (b0 - 0xF0) + 4096 * (b1 - 0x80) + 64 * (b2 - 0x80) + (b3 - 0x80)
  }

  /** Digits in base 64. */
  lemma Digits(v: nat)
    ensures v == 64 * (v / 64) + v % 64 && v / 64 == 64 * (v / 4096) + v / 64 % 64
    ensures v / 4096 == 64 * (v / 262144) + v / 4096 % 64
  {
  }

  lemma LastDigit(q: nat, r: nat)
    requires r < 64
    ensures (64 * q + r) / 64 == q && (64 * q + r) % 64 == r
  {
  }

  lemma DigitsOf(a: nat, b: nat, c: nat, d: nat)
    requires b < 64 && c < 64 && d < 64
    ensures var v := 262144 * a + 4096 * b + 64 * c + d;
      v % 64 == d && v / 64 % 64 == c && v / 4096 % 64 == b && v / 262144 == a
      && v / 64 == 4096 * a + 64 * b + c && v / 4096 == 64 * a + b
  {
    var v := 262144 * a + 4096 * b + 64 * c + d;
    LastDigit(4096 * a + 64 * b + c, d);
    LastDigit(64 * a + b, c);
    LastDigit(a, b);
    assert v / 4096 == v / 64 / 64 && v / 262144 == v / 4096 / 64;
  }

  lemma EncodingIsChar(v: nat)
    requires IsScalar(v)
    ensures RfcChar(Encoding(v)) && Value(Encoding(v)) == v
  {
    Digits(v);
  }

  lemma TwoEncode(c: Bytes)
    requires RfcChar(c) && |c| == 2
    ensures Value(c) >= 0 && Encodes(c, Value(c))
  {
    DigitsOf(0, 0, c[0] as int - 0xC0, c[1] as int - 0x80);
  }

  lemma ThreeEncode(c: Bytes)
    requires RfcChar(c) && |c| == 3
    ensures Value(c) >= 0 && Encodes(c, Value(c))
  {
    DigitsOf(0, c[0] as int - 0xE0, c[1] as int - 0x80, c[2] as int - 0x80);
    assert IsScalar(Value(c)) && 0x800 <= Value(c) < 0x10000;
  }

  lemma FourEncode(c: Bytes)
    requires RfcChar(c) && |c| == 4
    ensures Value(c) >= 0 && Encodes(c, Value(c))
  {
    DigitsOf(c[0] as int - 0xF0, c[1] as int - 0x80, c[2] as int - 0x80, c[3] as int - 0x80);
    assert 0x10000 <= Value(c) <= 0x10FFFF;
  }

  lemma CharEncodes(c: Bytes)
    requires RfcChar(c)
    ensures Value(c) >= 0 && Encodes(c, Value(c))
  {
    if |c| == 2 {
      TwoEncode(c);
    } else if |c| == 3 {
      ThreeEncode(c);
    } else if |c| == 4 {
      FourEncode(c);
    }
  }

  /** The characters of the published grammar are exactly the encodings of scalar values. */
  lemma RfcCharEncodes(c: Bytes)
    ensures RfcChar(c) <==> exists v: nat :: Encodes(c, v)
  {
    if RfcChar(c) {
      CharEncodes(c);
    }
    if v: nat :| Encodes(c, v) {
      EncodingIsChar(v);
    }
  }

  /** Each encodes one scalar value only. */
  lemma EncodesOne(c: Bytes, v: nat, w: nat)
    requires Encodes(c, v) && Encodes(c, w)
    ensures v == w
  {
    EncodingIsChar(v);
    EncodingIsChar(w);
  }

  ghost predicate AllScalars(vs: seq<nat>)
  {
    forall i :: 0 <= i < |vs| ==> IsScalar(vs[i])
  }

  ghost function Encodings(vs: seq<nat>): (cs: seq<Bytes>)
    requires AllScalars(vs)
  {
    seq(|vs|, i requires 0 <= i < |vs| => Encoding(vs[i]))
  }

  /** The strings of the published grammar are exactly the encodings of sequences of scalar values. */
  lemma RfcValidEncodes(s: Bytes)
    ensures RfcValid(s) <==> exists vs :: AllScalars(vs) && Concat(Encodings(vs)) == s
  {
    if RfcValid(s) {
      var cs :| IsRfcSplit(s, cs);
      forall i | 0 <= i < |cs| ensures Value(cs[i]) >= 0 && Encodes(cs[i], Value(cs[i])) {
        CharEncodes(cs[i]);
      }
      var vs: seq<nat> := seq(|cs|, i requires 0 <= i < |cs| => Value(cs[i]));
      assert AllScalars(vs) && Encodings(vs) == cs;
    }
    if vs :| AllScalars(vs) && Concat(Encodings(vs)) == s {
      forall i | 0 <= i < |vs| ensures RfcChar(Encodings(vs)[i]) {
        EncodingIsChar(vs[i]);
      }
      assert IsRfcSplit(s, Encodings(vs));
    }
  }

  // ----- lead bytes -------------------------------------------------------------------------

  /** Number of ones in front of the first zero of `n` bits. */
  function LeadingOnes(b: nat, n: nat): (ones: nat)
    requires b < Power(n)
  {
    if n == 0 || b < Power(n - 1) then 0 else 1 + LeadingOnes(b - Power(n - 1), n - 1)
  }

  function Power(n: nat): (p: nat) { if n == 0 then 1 else 2 * Power(n - 1) }

  /** No one in front announces one byte, one makes no lead, more announce as many bytes, but never
      more than four: bytes from F8 on, which the grammar does not have, are taken for leads. */
  lemma LeadLengthIsOnes(b: Byte)
    ensures Power(8) == 256
    ensures var ones := LeadingOnes(b, 8);
      LeadLength(b) == if ones == 0 then 1 else if ones == 1 then 0 else if ones <= 4 then ones else 4
  {
    assert Power(1) == 2 && Power(2) == 4 && Power(3) == 8 && Power(4) == 16;
    assert Power(5) == 32 && Power(6) == 64 && Power(7) == 128;
    if b >= 128 {
      assert LeadingOnes(b, 8) == 1 + LeadingOnes(b - 128, 7);
      if b >= 192 {
        assert LeadingOnes(b - 128, 7) == 1 + LeadingOnes(b - 192, 6);
        if b >= 224 {
          assert LeadingOnes(b - 192, 6) == 1 + LeadingOnes(b - 224, 5);
          if b >= 240 {
            assert LeadingOnes(b - 224, 5) == 1 + LeadingOnes(b - 240, 4);
          }
        }
      }
    }
  }
}
