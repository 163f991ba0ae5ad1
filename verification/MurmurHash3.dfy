/** MurmurHash3_x86_32 over keys of any length: the hash in 32-bit arithmetic, its inverse in
    the seed, and what that says about collisions. */
module MurmurHash3 {

  type Word = bv32
  type Byte = bv8

  // ----- the stages -------------------------------------------------------------------------

  function Rotl32(x: Word, r: bv6): (y: Word)
    requires 0 < r < 32
  {
    (x << r) | (x >> (32 - r))
  }

  function Xor(x: Word, y: Word): (z: Word) { x ^ y }

  function TimesC1(k: Word): (y: Word) { k * 0xcc9e2d51 }

  function TimesC2(k: Word): (y: Word) { k * 0x1b873593 }

  function TimesFive(h: Word): (y: Word) { h * 5 + 0xe6546b64 }

  function ShiftXor16(h: Word): (y: Word) { h ^ (h >> 16) }

  function ShiftXor13(h: Word): (y: Word) { h ^ (h >> 13) }

  function TimesF1(h: Word): (y: Word) { h * 0x85ebca6b }

  function TimesF2(h: Word): (y: Word) { h * 0xc2b2ae35 }

  /** Scrambling of one block of the key. */
  function MixKey(k: Word): (y: Word)
  {
    TimesC2(Rotl32(TimesC1(k), 15))
  }

  /** The hash after one more block. */
  function MixBlock(h: Word, k: Word): (y: Word)
  {
    TimesFive(Rotl32(Xor(h, MixKey(k)), 13))
  }

  /** Finalization mix. */
  function Fmix(h: Word): (y: Word)
  {
    ShiftXor16(TimesF2(ShiftXor13(TimesF1(ShiftXor16(h)))))
  }

  // ----- the hash ---------------------------------------------------------------------------

  /** Four bytes read as a little-endian word. */
  function WordOf(b0: Byte, b1: Byte, b2: Byte, b3: Byte): (w: Word)
  {
    (b0 as Word) | ((b1 as Word) << 8) | ((b2 as Word) << 16) | ((b3 as Word) << 24)
  }

  function Block(key: seq<Byte>, i: nat): (w: Word)
    requires 4 * i + 4 <= |key|
  {
    WordOf(key[4 * i], key[4 * i + 1], key[4 * i + 2], key[4 * i + 3])
  }

  /** The hash after the first `n` blocks. */
  function Body(key: seq<Byte>, n: nat, seed: Word): (h: Word)
    requires 4 * n <= |key|
  {
    if n == 0 then seed else MixBlock(Body(key, n - 1, seed), Block(key, n - 1))
  }

  /** Byte `j` after the last whole block, zero if there is none. */
  function TailByte(key: seq<Byte>, j: nat): (b: Byte)
  {
    if j < |key| % 4 then key[|key| / 4 * 4 + j] else 0
  }

  function TailWord(key: seq<Byte>): (w: Word)
  {
    WordOf(TailByte(key, 0), TailByte(key, 1), TailByte(key, 2), 0)
  }

  /** What is added for the tail: nothing if the key is made of whole blocks. */
  function TailMix(key: seq<Byte>): (w: Word)
  {
    if |key| % 4 == 0 then 0 else MixKey(TailWord(key))
  }

  function Finish(h: Word, tail: Word, length: Word): (y: Word)
  {
    Fmix(Xor(Xor(h, tail), length))
  }

  function Hash(key: seq<Byte>, seed: Word): (h: Word)
    requires |key| < 0x8000_0000
  {
    Finish(Body(key, |key| / 4, seed), TailMix(key), |key| as Word)
  }

  /** The algorithm as written: blocks are addressed backwards from the tail, and the tail
      bytes are folded in one by one. */
  method Compute(key: seq<Byte>, seed: Word) returns (h: Word)
    requires |key| < 0x8000_0000
    ensures h == Hash(key, seed)
  {
    var nblocks: int := |key| / 4;
    h := seed;
    var i := -nblocks;
    while i != 0
      invariant -nblocks <= i <= 0 && h == Body(key, nblocks + i, seed)
      decreases -i
    {
      var k := Block(key, nblocks + i);
      k := TimesC1(k);
      k := Rotl32(k, 15);
      k := TimesC2(k);
      h := Xor(h, k);
      h := Rotl32(h, 13);
      h := TimesFive(h);
      i := i + 1;
    }
    var k := FoldTail(key);
    if |key| % 4 != 0 {
      k := TimesC1(k);
      k := Rotl32(k, 15);
      k := TimesC2(k);
      h := Xor(h, k);
    } else {
      XorZero(h);
    }
    h := Xor(h, |key| as Word);
    h := Fmix(h);
  }

  /** The fall-through cases: folding bytes in by exclusive or builds the same word. */
  method FoldTail(key: seq<Byte>) returns (k: Word)
    ensures k == TailWord(key)
  {
    var tail := |key| / 4 * 4;
    FoldedTail(TailByte(key, 0), TailByte(key, 1), TailByte(key, 2));
    k := 0;
    if |key| % 4 >= 3 {
      k := FoldIn(k, key[tail + 2], 16);
    }
    if |key| % 4 >= 2 {
      k := FoldIn(k, key[tail + 1], 8);
    }
    if |key| % 4 >= 1 {
      k := FoldIn(k, key[tail], 0);
    }
  }

  function FoldIn(k: Word, b: Byte, shift: bv6): (y: Word)
    requires shift < 32
  {
    k ^ ((b as Word) << shift)
  }

  lemma FoldedTail(b0: Byte, b1: Byte, b2: Byte)
    ensures FoldIn(FoldIn(FoldIn(0, b2, 16), b1, 8), b0, 0) == WordOf(b0, b1, b2, 0)
    ensures FoldIn(FoldIn(0, b1, 8), b0, 0) == WordOf(b0, b1, 0, 0)
    ensures FoldIn(0, b0, 0) == WordOf(b0, 0, 0, 0) && WordOf(0, 0, 0, 0) == 0
  {
    FoldInFirst(b2, b1, b0);
    FoldInSecond(b2, b1);
    FoldInThird(b2, b1, b0);
  }

  lemma FoldInFirst(b2: Byte, b1: Byte, b0: Byte)
    ensures FoldIn(0, b2, 16) == WordOf(0, 0, b2, 0)
    ensures FoldIn(0, b1, 8) == WordOf(0, b1, 0, 0)
    ensures FoldIn(0, b0, 0) == WordOf(b0, 0, 0, 0)
    ensures WordOf(0, 0, 0, 0) == 0
  {
  }

  lemma FoldInSecond(b2: Byte, b1: Byte)
    ensures FoldIn(WordOf(0, 0, b2, 0), b1, 8) == WordOf(0, b1, b2, 0)
  {
  }

  lemma FoldInThird(b2: Byte, b1: Byte, b0: Byte)
    ensures FoldIn(WordOf(0, b1, b2, 0), b0, 0) == WordOf(b0, b1, b2, 0)
  {
  }

  // ----- every stage can be undone ----------------------------------------------------------

  function UntimesC1(k: Word): (y: Word) { k * 0xdee13bb1 }

  function UntimesC2(k: Word): (y: Word) { k * 0x56ed309b }

  function UntimesFive(h: Word): (y: Word) { (h - 0xe6546b64) * 0xcccccccd }

  function UnshiftXor13(h: Word): (y: Word) { h ^ (h >> 13) ^ (h >> 26) }

  function UntimesF1(h: Word): (y: Word) { h * 0xa5cb9243 }

  function UntimesF2(h: Word): (y: Word) { h * 0x7ed1b41d }

  lemma XorZero(x: Word)
    ensures Xor(x, 0) == x
  {
  }

  lemma XorBack(x: Word, y: Word)
    ensures Xor(Xor(x, y), y) == x
  {
    assert Xor(x ^ y, y) == x;
  }

  lemma C1Back(x: Word)
    ensures UntimesC1(TimesC1(x)) == x && TimesC1(UntimesC1(x)) == x
  {
    assert UntimesC1(x * 0xcc9e2d51) == x;
    assert TimesC1(x * 0xdee13bb1) == x;
  }

  lemma C2Back(x: Word)
    ensures UntimesC2(TimesC2(x)) == x && TimesC2(UntimesC2(x)) == x
  {
    assert UntimesC2(x * 0x1b873593) == x;
    assert TimesC2(x * 0x56ed309b) == x;
  }

  lemma FiveBack(x: Word)
    ensures UntimesFive(TimesFive(x)) == x && TimesFive(UntimesFive(x)) == x
  {
    assert UntimesFive(x * 5 + 0xe6546b64) == x;
    assert TimesFive((x - 0xe6546b64) * 0xcccccccd) == x;
  }

  lemma ShiftXor16Back(x: Word)
    ensures ShiftXor16(ShiftXor16(x)) == x
  {
    assert ShiftXor16(x ^ (x >> 16)) == x;
  }

  lemma ShiftXor13Back(x: Word)
    ensures UnshiftXor13(ShiftXor13(x)) == x && ShiftXor13(UnshiftXor13(x)) == x
  {
    assert UnshiftXor13(x ^ (x >> 13)) == x;
    assert ShiftXor13(x ^ (x >> 13) ^ (x >> 26)) == x;
  }

  lemma F1Back(x: Word)
    ensures UntimesF1(TimesF1(x)) == x && TimesF1(UntimesF1(x)) == x
  {
    assert UntimesF1(x * 0x85ebca6b) == x;
    assert TimesF1(x * 0xa5cb9243) == x;
  }

  lemma F2Back(x: Word)
    ensures UntimesF2(TimesF2(x)) == x && TimesF2(UntimesF2(x)) == x
  {
    assert UntimesF2(x * 0xc2b2ae35) == x;
    assert TimesF2(x * 0x7ed1b41d) == x;
  }

  lemma Rotate15Back(x: Word)
    ensures Rotl32(Rotl32(x, 15), 17) == x && Rotl32(Rotl32(x, 17), 15) == x
  {
    assert Rotl32((x << 15) | (x >> 17), 17) == x;
    assert Rotl32((x << 17) | (x >> 15), 15) == x;
  }

  lemma Rotate13Back(x: Word)
    ensures Rotl32(Rotl32(x, 13), 19) == x && Rotl32(Rotl32(x, 19), 13) == x
  {
    assert Rotl32((x << 13) | (x >> 19), 19) == x;
    assert Rotl32((x << 19) | (x >> 13), 13) == x;
  }

  function UnmixKey(y: Word): (k: Word)
  {
    UntimesC1(Rotl32(UntimesC2(y), 17))
  }

  lemma MixKeyInverse(k: Word)
    ensures UnmixKey(MixKey(k)) == k
  {
    C1Back(k);
    Rotate15Back(TimesC1(k));
    C2Back(Rotl32(TimesC1(k), 15));
  }

  function UnmixBlock(y: Word, k: Word): (h: Word)
  {
    Xor(Rotl32(UntimesFive(y), 19), MixKey(k))
  }

  lemma MixBlockInverse(h: Word, k: Word)
    ensures UnmixBlock(MixBlock(h, k), k) == h
  {
    var x := Xor(h, MixKey(k));
    XorBack(h, MixKey(k));
    Rotate13Back(x);
    FiveBack(Rotl32(x, 13));
  }

  lemma UnmixBlockInverse(y: Word, k: Word)
    ensures MixBlock(UnmixBlock(y, k), k) == y
  {
    var x := UntimesFive(y);
    FiveBack(y);
    Rotate13Back(x);
    XorBack(Rotl32(x, 19), MixKey(k));
  }

  function Unfmix(y: Word): (h: Word)
  {
    ShiftXor16(UntimesF1(UnshiftXor13(UntimesF2(ShiftXor16(y)))))
  }

  lemma FmixInverse(h: Word)
    ensures Unfmix(Fmix(h)) == h
  {
    var a := ShiftXor16(h);
    var b := TimesF1(a);
    var c := ShiftXor13(b);
    ShiftXor16Back(h);
    F1Back(a);
    ShiftXor13Back(b);
    F2Back(c);
    ShiftXor16Back(TimesF2(c));
  }

  lemma UnfmixInverse(y: Word)
    ensures Fmix(Unfmix(y)) == y
  {
    var a := ShiftXor16(y);
    var b := UntimesF2(a);
    var c := UnshiftXor13(b);
    ShiftXor16Back(y);
    F2Back(a);
    ShiftXor13Back(b);
    F1Back(c);
    ShiftXor16Back(UntimesF1(c));
  }

  // ----- a bijection in the seed ------------------------------------------------------------

  /** Undo the first `n` blocks. */
  function Unbody(key: seq<Byte>, n: nat, h: Word): (seed: Word)
    requires 4 * n <= |key|
  {
    if n == 0 then h else Unbody(key, n - 1, UnmixBlock(h, Block(key, n - 1)))
  }

  lemma {:induction false} BodyInverse(key: seq<Byte>, n: nat, seed: Word)
    requires 4 * n <= |key|
    ensures Unbody(key, n, Body(key, n, seed)) == seed
  {
    if n > 0 {
      MixBlockInverse(Body(key, n - 1, seed), Block(key, n - 1));
      BodyInverse(key, n - 1, seed);
    }
  }

  lemma {:induction false} UnbodyInverse(key: seq<Byte>, n: nat, h: Word)
    requires 4 * n <= |key|
    ensures Body(key, n, Unbody(key, n, h)) == h
  {
    if n > 0 {
      UnmixBlockInverse(h, Block(key, n - 1));
      UnbodyInverse(key, n - 1, UnmixBlock(h, Block(key, n - 1)));
    }
  }

  function Unfinish(y: Word, tail: Word, length: Word): (h: Word)
  {
    Xor(Xor(Unfmix(y), length), tail)
  }

  lemma FinishInverse(h: Word, tail: Word, length: Word)
    ensures Unfinish(Finish(h, tail, length), tail, length) == h
  {
    FmixInverse(Xor(Xor(h, tail), length));
    XorBack(Xor(h, tail), length);
    XorBack(h, tail);
  }

  lemma UnfinishInverse(y: Word, tail: Word, length: Word)
    ensures Finish(Unfinish(y, tail, length), tail, length) == y
  {
    UnfmixInverse(y);
    XorBack(Unfmix(y), length);
    XorBack(Xor(Unfmix(y), length), tail);
  }

  /** The one seed under which `key` hashes to `h`. */
  function SeedFor(key: seq<Byte>, h: Word): (seed: Word)
    requires |key| < 0x8000_0000
  {
    Unbody(key, |key| / 4, Unfinish(h, TailMix(key), |key| as Word))
  }

  /** For a fixed key the hash is a bijection from seeds to hash values. */
  lemma SeedBijection(key: seq<Byte>, seed: Word, h: Word)
    requires |key| < 0x8000_0000
    ensures SeedFor(key, Hash(key, seed)) == seed
    ensures Hash(key, SeedFor(key, h)) == h
  {
    var n, t, l := |key| / 4, TailMix(key), |key| as Word;
    FinishInverse(Body(key, n, seed), t, l);
    BodyInverse(key, n, seed);
    UnbodyInverse(key, n, Unfinish(h, t, l));
    UnfinishInverse(h, t, l);
  }

  // ----- collisions -------------------------------------------------------------------------

  /** Different bytes make different words. */
  lemma WordOfInjective(a0: Byte, a1: Byte, a2: Byte, a3: Byte, b0: Byte, b1: Byte, b2: Byte, b3: Byte)
    requires WordOf(a0, a1, a2, a3) == WordOf(b0, b1, b2, b3)
    ensures a0 == b0 && a1 == b1 && a2 == b2 && a3 == b3
  {
  }

  lemma {:induction false} BodySame(a: seq<Byte>, b: seq<Byte>, n: nat, seed: Word)
    requires |a| == |b| && 4 * n <= |a| && forall j :: 0 <= j < 4 * n ==> a[j] == b[j]
    ensures Body(a, n, seed) == Body(b, n, seed)
  {
    if n > 0 {
      BodySame(a, b, n - 1, seed);
    }
  }

  /** Once two bodies differ, equal blocks keep them apart. */
  lemma {:induction false} BodyStaysApart(a: seq<Byte>, b: seq<Byte>, m: nat, n: nat, seed: Word)
    requires |a| == |b| && m <= n && 4 * n <= |a| && Body(a, m, seed) != Body(b, m, seed)
    requires forall j :: 4 * m <= j < 4 * n ==> a[j] == b[j]
    ensures Body(a, n, seed) != Body(b, n, seed)
  {
    if m < n {
      BodyStaysApart(a, b, m, n - 1, seed);
      assert Block(a, n - 1) == Block(b, n - 1);
      MixBlockInverse(Body(a, n - 1, seed), Block(a, n - 1));
      MixBlockInverse(Body(b, n - 1, seed), Block(b, n - 1));
    }
  }

  /** The block that took the state from `h` to `y`. */
  function BlockFor(h: Word, y: Word): (k: Word)
  {
    UnmixKey(Xor(Rotl32(UntimesFive(y), 19), h))
  }

  lemma BlockRecovered(h: Word, k: Word)
    ensures BlockFor(h, MixBlock(h, k)) == k
  {
    var m := MixKey(k);
    var x := Xor(h, m);
    FiveBack(Rotl32(x, 13));
    Rotate13Back(x);
    assert Xor(h, m) == Xor(m, h);
    XorBack(m, h);
    MixKeyInverse(k);
  }

  /** Different blocks drive equal states apart. */
  lemma MixBlockSeparates(h: Word, k: Word, k': Word)
    requires k != k'
    ensures MixBlock(h, k) != MixBlock(h, k')
  {
    BlockRecovered(h, k);
    BlockRecovered(h, k');
  }

  lemma BlocksSeparate(a: seq<Byte>, b: seq<Byte>, i: nat)
    requires |a| == |b| && 4 * i + 4 <= |a| && a != b
    requires forall j :: 0 <= j < |a| && !(4 * i <= j < 4 * i + 4) ==> a[j] == b[j]
    ensures Block(a, i) != Block(b, i)
  {
    var j :| 0 <= j < |a| && a[j] != b[j];
    if Block(a, i) == Block(b, i) {
      WordOfInjective(a[4 * i], a[4 * i + 1], a[4 * i + 2], a[4 * i + 3],
                      b[4 * i], b[4 * i + 1], b[4 * i + 2], b[4 * i + 3]);
    }
  }

  lemma BodiesPart(a: seq<Byte>, b: seq<Byte>, i: nat, seed: Word)
    requires |a| == |b| && 4 * i + 4 <= |a| && a != b
    requires forall j :: 0 <= j < |a| && !(4 * i <= j < 4 * i + 4) ==> a[j] == b[j]
    ensures Body(a, i + 1, seed) != Body(b, i + 1, seed)
  {
    BodySame(a, b, i, seed);
    BlocksSeparate(a, b, i);
    MixBlockSeparates(Body(a, i, seed), Block(a, i), Block(b, i));
  }

  /** Keys of equal length that differ inside a single block never collide. */
  lemma OneBlockNeverCollides(a: seq<Byte>, b: seq<Byte>, i: nat, seed: Word)
    requires |a| == |b| < 0x8000_0000 && 4 * i + 4 <= |a| && a != b
    requires forall j :: 0 <= j < |a| && !(4 * i <= j < 4 * i + 4) ==> a[j] == b[j]
    ensures Hash(a, seed) != Hash(b, seed)
  {
    var n := |a| / 4;
    BodiesPart(a, b, i, seed);
    BodyStaysApart(a, b, i + 1, n, seed);
    SameTail(a, b);
    FinishSeparates(Body(a, n, seed), Body(b, n, seed), TailMix(a), |a| as Word);
  }

  lemma FinishSeparates(h: Word, h': Word, tail: Word, length: Word)
    requires h != h'
    ensures Finish(h, tail, length) != Finish(h', tail, length)
  {
    FinishInverse(h, tail, length);
    FinishInverse(h', tail, length);
  }

  lemma SameTail(a: seq<Byte>, b: seq<Byte>)
    requires |a| == |b| && forall j :: |a| / 4 * 4 <= j < |a| ==> a[j] == b[j]
    ensures TailMix(a) == TailMix(b)
  {
    assert forall j: nat :: j < 3 ==> TailByte(a, j) == TailByte(b, j);
  }

  /** The tail word that took the body `h` to the hash `y`. */
  function TailFor(h: Word, y: Word, length: Word): (t: Word)
  {
    UnmixKey(Xor(Xor(Unfmix(y), length), h))
  }

  lemma TailRecovered(h: Word, t: Word, length: Word)
    ensures TailFor(h, Finish(h, MixKey(t), length), length) == t
  {
    var m := MixKey(t);
    FmixInverse(Xor(Xor(h, m), length));
    XorBack(Xor(h, m), length);
    assert Xor(h, m) == Xor(m, h);
    XorBack(m, h);
    MixKeyInverse(t);
  }

  /** Keys of equal length that differ only after the last whole block never collide. */
  lemma TailNeverCollides(a: seq<Byte>, b: seq<Byte>, seed: Word)
    requires |a| == |b| < 0x8000_0000 && a != b
    requires forall j :: 0 <= j < |a| / 4 * 4 ==> a[j] == b[j]
    ensures Hash(a, seed) != Hash(b, seed)
  {
    var n, l := |a| / 4, |a| as Word;
    BodySame(a, b, n, seed);
    TailWordSeparates(a, b);
    TailSeparates(Body(a, n, seed), TailWord(a), TailWord(b), l);
  }

  lemma TailSeparates(h: Word, t: Word, t': Word, length: Word)
    requires t != t'
    ensures Finish(h, MixKey(t), length) != Finish(h, MixKey(t'), length)
  {
    TailRecovered(h, t, length);
    TailRecovered(h, t', length);
  }

  lemma TailWordSeparates(a: seq<Byte>, b: seq<Byte>)
    requires |a| == |b| && a != b && forall j :: 0 <= j < |a| / 4 * 4 ==> a[j] == b[j]
    ensures |a| % 4 != 0 && TailWord(a) != TailWord(b)
  {
    var t := |a| / 4 * 4;
    var j :| 0 <= j < |a| && a[j] != b[j];
    assert TailByte(a, j - t) != TailByte(b, j - t);
    if TailWord(a) == TailWord(b) {
      WordOfInjective(TailByte(a, 0), TailByte(a, 1), TailByte(a, 2), 0,
                      TailByte(b, 0), TailByte(b, 1), TailByte(b, 2), 0);
    }
  }

  // ----- known values -----------------------------------------------------------------------

  lemma SmallLength(n: nat)
    ensures n == 3 ==> n as Word == 3
    ensures n == 4 ==> n as Word == 4
  {
  }

  lemma BodyOfBlock(key: seq<Byte>, seed: Word)
    requires |key| == 4
    ensures Body(key, |key| / 4, seed) == MixBlock(seed, WordOf(key[0], key[1], key[2], key[3])) && TailMix(key) == 0
  {
    assert Body(key, 1, seed) == MixBlock(Body(key, 0, seed), Block(key, 0));
  }

  lemma HashOfBlock(key: seq<Byte>, seed: Word)
    requires |key| == 4
    ensures Hash(key, seed) == Finish(MixBlock(seed, WordOf(key[0], key[1], key[2], key[3])), 0, 4)
  {
    BodyOfBlock(key, seed);
    SmallLength(|key|);
  }

  lemma TailOfThree(key: seq<Byte>, seed: Word)
    requires |key| == 3
    ensures Body(key, |key| / 4, seed) == seed && TailMix(key) == MixKey(WordOf(key[0], key[1], key[2], 0))
  {
    assert TailByte(key, 0) == key[0] && TailByte(key, 1) == key[1] && TailByte(key, 2) == key[2];
  }

  lemma HashOfTail(key: seq<Byte>, seed: Word)
    requires |key| == 3
    ensures Hash(key, seed) == Finish(seed, MixKey(WordOf(key[0], key[1], key[2], 0)), 3)
  {
    TailOfThree(key, seed);
    SmallLength(|key|);
  }

  /** Values the operator is known to give: the number 3 as a key under two seeds, and `foo`. */
  lemma KnownHashes()
    ensures Hash([3, 0, 0, 0], 0) == 847579505
    ensures Hash([3, 0, 0, 0], 42) == 2471885347
    ensures Hash([0x66, 0x6f, 0x6f], 0) == 4138058784
  {
    KnownBlock();
    KnownTail();
    KnownFinish();
    HashOfBlock([3, 0, 0, 0], 0);
    HashOfBlock([3, 0, 0, 0], 42);
    HashOfTail([0x66, 0x6f, 0x6f], 0);
  }

  lemma KnownBlock()
    ensures WordOf(3, 0, 0, 0) == 3 && MixKey(3) == 0x1467cf17
    ensures MixBlock(0, 3) == 0xc7c2d820 && MixBlock(42, 3) == 0xc7da9820
  {
    assert TimesC1(3) == 0x65da87f3 && Rotl32(0x65da87f3, 15) == 0x43f9b2ed && TimesC2(0x43f9b2ed) == 0x1467cf17;
    assert Xor(0, 0x1467cf17) == 0x1467cf17 && Rotl32(0x1467cf17, 13) == 0xf9e2e28c &&
      TimesFive(0xf9e2e28c) == 0xc7c2d820;
    assert Xor(42, 0x1467cf17) == 0x1467cf3d && Rotl32(0x1467cf3d, 13) == 0xf9e7a28c &&
      TimesFive(0xf9e7a28c) == 0xc7da9820;
  }

  lemma KnownTail()
    ensures WordOf(0x66, 0x6f, 0x6f, 0) == 0x6f6f66 && MixKey(0x6f6f66) == 0x563dd5ff
  {
    assert TimesC1(0x6f6f66) == 0xc2cb2d46 && Rotl32(0xc2cb2d46, 15) == 0x96a36165 && TimesC2(0x96a36165) == 0x563dd5ff;
  }

  lemma KnownFinish()
    ensures Finish(0xc7c2d820, 0, 4) == 0x32850971 && Finish(0xc7da9820, 0, 4) == 0x9355fa23
    ensures Finish(0, 0x563dd5ff, 3) == 0xf6a5c420
  {
    assert Xor(0xc7c2d820, 0) == 0xc7c2d820 && Xor(0xc7c2d820, 4) == 0xc7c2d824;
    assert ShiftXor16(0xc7c2d824) == 0xc7c21fe6 && TimesF1(0xc7c21fe6) == 0x7170d122;
    assert ShiftXor13(0x7170d122) == 0x71735aa4 && TimesF2(0x71735aa4) == 0x32853bf4 &&
      ShiftXor16(0x32853bf4) == 0x32850971;
    assert Xor(0xc7da9820, 0) == 0xc7da9820 && Xor(0xc7da9820, 4) == 0xc7da9824;
    assert ShiftXor16(0xc7da9824) == 0xc7da5ffe && TimesF1(0xc7da5ffe) == 0xec2e8b2a;
    assert ShiftXor13(0xec2e8b2a) == 0xec29ea5e && TimesF2(0xec29ea5e) == 0x93556976 &&
      ShiftXor16(0x93556976) == 0x9355fa23;
    assert Xor(0, 0x563dd5ff) == 0x563dd5ff && Xor(0x563dd5ff, 3) == 0x563dd5fc;
    assert ShiftXor16(0x563dd5fc) == 0x563d83c1 && TimesF1(0x563d83c1) == 0xccd75bab;
    assert ShiftXor13(0xccd75bab) == 0xccd13d11 && TimesF2(0xccd13d11) == 0xf6a53285 &&
      ShiftXor16(0xf6a53285) == 0xf6a5c420;
  }

  /** Three blocks one after the other, and one byte behind them. */
  lemma HashOfThree(key: seq<Byte>, h: seq<Word>, tail: Word)
    requires |key| == 13 && |h| == 4
    requires h[1] == MixBlock(h[0], WordOf(key[0], key[1], key[2], key[3]))
    requires h[2] == MixBlock(h[1], WordOf(key[4], key[5], key[6], key[7]))
    requires h[3] == MixBlock(h[2], WordOf(key[8], key[9], key[10], key[11]))
    requires tail == MixKey(WordOf(key[12], 0, 0, 0))
    ensures Hash(key, h[0]) == Finish(h[3], tail, 13)
  {
    assert Body(key, 0, h[0]) == h[0];
    assert Body(key, 1, h[0]) == h[1];
    assert Body(key, 2, h[0]) == h[2];
    assert Body(key, 3, h[0]) == h[3];
    assert TailByte(key, 0) == key[12] && TailByte(key, 1) == 0 && TailByte(key, 2) == 0;
    ThirteenBytes(|key|);
  }

  lemma ThirteenBytes(n: nat)
    requires n == 13
    ensures n as Word == 13
  {
  }

  /** The published value for `Hello, world!`. */
  lemma KnownLongHash()
    ensures Hash([0x48, 0x65, 0x6c, 0x6c, 0x6f, 0x2c, 0x20, 0x77, 0x6f, 0x72, 0x6c, 0x64, 0x21], 0) == 0xc0363e43
  {
    KnownWords();
    KnownFirst();
    KnownSecond();
    KnownThird();
    KnownRest();
    HashOfThree([0x48, 0x65, 0x6c, 0x6c, 0x6f, 0x2c, 0x20, 0x77, 0x6f, 0x72, 0x6c, 0x64, 0x21],
                [0, 0xcb5bec36, 0x22b5bd6f, 0xa1590249], 0xac5e5123);
  }

  lemma KnownWords()
    ensures WordOf(0x48, 0x65, 0x6c, 0x6c) == 0x6c6c6548 && WordOf(0x6f, 0x2c, 0x20, 0x77) == 0x77202c6f
    ensures WordOf(0x6f, 0x72, 0x6c, 0x64) == 0x646c726f && WordOf(0x21, 0, 0, 0) == 0x21
  {
  }

  lemma KnownFirst()
    ensures MixBlock(0, 0x6c6c6548) == 0xcb5bec36
  {
    assert TimesC1(0x6c6c6548) == 0x3e89b3c8 && Rotl32(0x3e89b3c8, 15) == 0xd9e41f44 &&
      TimesC2(0xd9e41f44) == 0x153080c;
    assert Xor(0, 0x153080c) == 0x153080c && Rotl32(0x153080c, 13) == 0x6101802a && TimesFive(0x6101802a) == 0xcb5bec36;
  }

  lemma KnownSecond()
    ensures MixBlock(0xcb5bec36, 0x77202c6f) == 0x22b5bd6f
  {
    assert TimesC1(0x77202c6f) == 0x397f921f && Rotl32(0x397f921f, 15) == 0xc90f9cbf &&
      TimesC2(0xc90f9cbf) == 0x7d238cad;
    assert Xor(0xcb5bec36, 0x7d238cad) == 0xb678609b && Rotl32(0xb678609b, 13) == 0xc1376cf &&
      TimesFive(0xc1376cf) == 0x22b5bd6f;
  }

  lemma KnownThird()
    ensures MixBlock(0x22b5bd6f, 0x646c726f) == 0xa1590249
  {
    assert TimesC1(0x646c726f) == 0xeaefb81f && Rotl32(0xeaefb81f, 15) == 0xdc0ff577 &&
      TimesC2(0xdc0ff577) == 0xa9bc9655;
    assert Xor(0x22b5bd6f, 0xa9bc9655) == 0x8b092b3a && Rotl32(0x8b092b3a, 13) == 0x25675161 &&
      TimesFive(0x25675161) == 0xa1590249;
  }

  lemma KnownRest()
    ensures MixKey(0x21) == 0xac5e5123 && Finish(0xa1590249, 0xac5e5123, 13) == 0xc0363e43
  {
    assert TimesC1(0x21) == 0x6063d771 && Rotl32(0x6063d771, 15) == 0xebb8b031 && TimesC2(0xebb8b031) == 0xac5e5123;
    assert Xor(0xa1590249, 0xac5e5123) == 0xd07536a && Xor(0xd07536a, 13) == 0xd075367;
    assert ShiftXor16(0xd075367) == 0xd075e60 && TimesF1(0xd075e60) == 0xc4ac3220;
    assert ShiftXor13(0xc4ac3220) == 0xc4aa1741 && TimesF2(0xc4aa1741) == 0xc036fe75 &&
      ShiftXor16(0xc036fe75) == 0xc0363e43;
  }
}
