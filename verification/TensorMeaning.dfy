/** What element types, fields and bytes are, in numerals: the values of every type, where each byte
    of a number lies, which field holds what, and which error is reported. */
module TensorMeaning {

  import opened Prelude
  import opened TensorSize
  import opened TensorBytes
  import opened TensorProto

  // ----- bytes ------------------------------------------------------------------------------

  /** Byte `k` of a number is its digit of weight 256 to the power `k`. */
  lemma {:induction false} ByteAt(u: nat, w: nat, k: nat)
    requires k < w
    ensures Pow256(k) > 0 && ToBytes(u, w)[k] == u / Pow256(k) % 256
  {
    PowMonotone(0, k);
    if k > 0 {
      ByteAt(u / 256, w - 1, k - 1);
      DivTwice(u, Pow256(k - 1));
    }
  }

  lemma DivTwice(u: nat, p: nat)
    requires p > 0
    ensures u / 256 / p == u / (256 * p)
  {
    var q := u / 256 / p;
    var r := u / 256 % p;
    assert u / 256 == p * q + r;
    assert u == 256 * (p * q + r) + u % 256;
    assert 256 * (p * q + r) == (256 * p) * q + 256 * r;
    DivUnique(u, 256 * p, q, 256 * r + u % 256);
  }

  // ----- types ------------------------------------------------------------------------------

  lemma SignedRanges(v: int)
    ensures IsValue(v, Int8) <==> -128 <= v <= 127
    ensures IsValue(v, Int16) <==> -32768 <= v <= 32767
    ensures IsValue(v, Int32) <==> -0x8000_0000 <= v <= 0x7FFF_FFFF
    ensures IsValue(v, Int64) <==> -0x8000_0000_0000_0000 <= v <= 0x7FFF_FFFF_FFFF_FFFF
  {
    Powers();
  }

  lemma UnsignedRanges(v: int)
    ensures IsValue(v, Bool) <==> 0 <= v <= 1
    ensures IsValue(v, Uint8) <==> 0 <= v <= 255
    ensures IsValue(v, Uint16) <==> 0 <= v <= 65535
    ensures IsValue(v, Uint32) <==> 0 <= v <= 0xFFFF_FFFF
    ensures IsValue(v, Uint64) <==> 0 <= v <= 0xFFFF_FFFF_FFFF_FFFF
  {
    Powers();
  }

  /** Floating-point numbers are any patterns of 32 and 64 bits. */
  lemma FloatRanges(v: int)
    ensures IsValue(v, Float) <==> 0 <= v <= 0xFFFF_FFFF
    ensures IsValue(v, Double) <==> 0 <= v <= 0xFFFF_FFFF_FFFF_FFFF
  {
    Powers();
  }

  /** The types without a size; true and false take one byte, a string as many as its object. */
  lemma OtherSizes(t: ElementType, stringSize: nat)
    ensures ElementSize(t, stringSize).None? <==> t in {UndefinedType, Float16, Complex64, Complex128, Bfloat16}
    ensures ElementSize(Bool, stringSize) == Some(1) && ElementSize(String, stringSize) == Some(stringSize)
    ensures IsNumeric(t) ==> ElementSize(t, stringSize) == Some(Width(t))
  {
  }

  // ----- fields -----------------------------------------------------------------------------

  lemma Behind(i: nat, w: nat)
    requires i > 0
    ensures i * w == (i - 1) * w + w
  {
  }

  lemma CellBehind(first: seq<Byte>, rest: seq<Byte>, i: nat, w: nat)
    requires i > 0 && |first| == w && 0 <= (i - 1) * w <= (i - 1) * w + w <= |rest|
    ensures 0 <= i * w <= i * w + w <= |first + rest|
    ensures (first + rest)[i * w..i * w + w] == rest[(i - 1) * w..(i - 1) * w + w]
  {
    Behind(i, w);
    SliceOfSuffix(first, rest, i * w, i * w + w);
  }

  /** The entries of the five fields: 32 bits with a sign, 64 bits with or without, and patterns. */
  lemma EntryRanges(v: int, t: ElementType)
    requires IsNumeric(t)
    ensures t in {Bool, Int8, Int16, Int32, Uint8, Uint16} ==> (IsEntry(v, t) <==> -0x8000_0000 <= v <= 0x7FFF_FFFF)
    ensures t == Int64 ==> (IsEntry(v, t) <==> -0x8000_0000_0000_0000 <= v <= 0x7FFF_FFFF_FFFF_FFFF)
    ensures t in {Uint32, Uint64, Double} ==> (IsEntry(v, t) <==> 0 <= v <= 0xFFFF_FFFF_FFFF_FFFF)
    ensures t == Float ==> (IsEntry(v, t) <==> 0 <= v <= 0xFFFF_FFFF)
  {
    SignedRanges(v);
    UnsignedRanges(v);
    FloatRanges(v);
  }

  /** Element `i` of the raw bytes lies behind the `i` elements in front of it. */
  lemma {:induction false} RawCell(vs: seq<int>, t: ElementType, i: nat)
    requires IsNumeric(t) && (forall k :: 0 <= k < |vs| ==> IsValue(vs[k], t)) && i < |vs|
    ensures 0 <= vs[i] + Pow256(Width(t)) && 0 <= i * Width(t) <= i * Width(t) + Width(t) <= |StoreAll(vs, t)|
    ensures StoreAll(vs, t)[i * Width(t)..i * Width(t) + Width(t)] == Store(vs[i], Width(t))
  {
    var w := Width(t);
    ValueFits(vs[i], t);
    ValueFits(vs[0], t);
    var first, rest := Store(vs[0], w), StoreAll(vs[1..], t);
    if i > 0 {
      RawCell(vs[1..], t, i - 1);
      CellBehind(first, rest, i, w);
    } else {
      SliceOfPrefix(first, rest, 0, w);
    }
  }

  /** The message of a tensor: its shape and type, and its elements in one place only. */
  lemma PackedFields(t: Tensor, usingRaw: bool)
    requires WellFormed(t) && IsSupported(t.elementType)
    ensures var p := Packed(t, usingRaw);
      var vs := if t.elements.Numbers? && !usingRaw then t.elements.values else [];
      && p.dims == t.shape && p.dataType == t.elementType && !p.externalData
      && p.floatData == (if t.elementType == Float then vs else [])
      && p.doubleData == (if t.elementType == Double then vs else [])
      && p.int64Data == (if t.elementType == Int64 then vs else [])
      && p.uint64Data == (if t.elementType in {Uint32, Uint64} then vs else [])
      && p.int32Data == (if t.elementType in {Int32, Int16, Int8, Uint16, Uint8, Bool} then vs else [])
      && (p.raw.Some? <==> usingRaw && t.elementType != String)
      && (t.elementType == String ==>
            p.stringData == if t.elements.strings == [] then [[]] else t.elements.strings)
      && (t.elementType != String ==> p.stringData == [])
  {
  }

  /** An entry of a field becomes the value of the element type that agrees with it in the low bytes;
      any entry but zero is true. */
  lemma NarrowMeaning(v: int, t: ElementType)
    requires IsNumeric(t) && IsEntry(v, t)
    ensures IsValue(Narrow(v, t), t)
    ensures t == Bool ==> (Narrow(v, t) == 0 <==> v == 0)
    ensures t != Bool ==> exists k: int :: v == Narrow(v, t) + Pow256(Width(t)) * k
  {
    ValueFits(v, FieldType(t));
    if t != Bool {
      LowMeaning(v, Width(t), FieldWidth(t), IsSigned(t));
    }
  }

  /** The low bytes of a number hold the value of their type that agrees with it up to multiples. */
  lemma LowMeaning(v: int, w: nat, n: nat, signed: bool)
    requires 0 < w <= n && 0 <= v + Pow256(n)
    ensures var x := Load(Store(v, n)[..w], signed);
      InType(x, w, signed) && exists k: int :: v == x + Pow256(w) * k
  {
    var low := FromBytes(Store(v, n)[..w]);
    LowBytes(Encode(v, n), n, w);
    var q: nat :| Encode(v, n) == low + Pow256(w) * q;
    DecodeInType(low, w, signed);
    PowSplit(w, n - w);
    var carry := if v < 0 then Pow256(n - w) else 0;
    var borrow := if signed && low >= 128 * Pow256(w - 1) then 1 else 0;
    assert Decode(low, w, signed) == low - Pow256(w) * borrow;
    Collect(Pow256(w), q, carry, borrow);
    assert v == Decode(low, w, signed) + Pow256(w) * (q - carry + borrow);
  }

  lemma DecodeInType(u: nat, w: nat, signed: bool)
    requires w > 0 && u < Pow256(w)
    ensures InType(Decode(u, w, signed), w, signed)
  {
  }

  lemma Collect(p: nat, a: int, b: int, c: int)
    ensures p * a - p * b + p * c == p * (a - b + c)
  {
  }

  // ----- errors -----------------------------------------------------------------------------

  /** The elements a message holds are as many as its dimensions ask for: in raw bytes as many times
      the size of an element, else in the field of its type. */
  ghost predicate HoldsAll(p: Proto)
    requires IsSupported(p.dataType)
  {
    if p.dataType == String then |p.stringData| == Product(p.dims)
    else if p.raw.Some? then |p.raw.value| == Product(p.dims) * Width(p.dataType)
    else |Field(p)| == Product(p.dims)
  }

  /** Which messages are unpacked, and why the others are not. */
  lemma UnpackErrors(p: Proto, size: nat, stringSize: nat)
    requires IsMessage(p)
    ensures var r := Unpacked(p, size, stringSize);
      && (r == Err(InvalidArgument) <==> p.externalData)
      && (r == Err(NotImplemented) <==>
            && !p.externalData && AllNonNegative(p.dims) && PrefixesFit(p.dims)
            && p.dataType in {UndefinedType, Float16, Complex64, Complex128, Bfloat16})
      && (r.Ok? <==>
            && !p.externalData && AllNonNegative(p.dims) && PrefixesFit(p.dims) && IsSupported(p.dataType)
            && Product(p.dims) * ElementSize(p.dataType, stringSize).value <= SIZE_MAX
            && Product(p.dims) * ElementSize(p.dataType, stringSize).value <= size
            && !(p.dataType == String && p.raw.Some?) && HoldsAll(p))
      && (r.Ok? ==> r.value.shape == p.dims && r.value.elementType == p.dataType)
      && (r.Ok? && p.dataType == String ==> r.value.elements == Texts(p.stringData))
  {
  }

  lemma {:induction false} LoadLength(bs: seq<Byte>, w: nat, signed: bool, n: nat)
    requires w > 0 && |bs| == n * w
    ensures |LoadAll(bs, w, signed)| == n
  {
    if n > 0 {
      Behind(n, w);
      MulMonotone(0, n - 1, w);
      LoadLength(bs[w..], w, signed, n - 1);
    }
  }

  /** Element `i` of raw bytes. */
  lemma {:induction false} LoadCell(bs: seq<Byte>, w: nat, signed: bool, n: nat, i: nat)
    requires w > 0 && |bs| == n * w && i < n
    ensures |LoadAll(bs, w, signed)| == n && 0 <= i * w <= i * w + w <= |bs|
    ensures LoadAll(bs, w, signed)[i] == Load(bs[i * w..i * w + w], signed)
  {
    LoadLength(bs, w, signed, n);
    Behind(n, w);
    MulMonotone(0, n - 1, w);
    if i > 0 {
      LoadCell(bs[w..], w, signed, n - 1, i - 1);
      CellBehind(bs[..w], bs[w..], i, w);
      assert bs[..w] + bs[w..] == bs;
    }
  }

  /** The elements that come out: the bytes of each one after the other, or the entries of the field. */
  lemma UnpackedCells(p: Proto, size: nat, stringSize: nat, i: nat)
    requires IsMessage(p) && Unpacked(p, size, stringSize).Ok? && p.dataType != String && i < Product(p.dims)
    ensures var t := Unpacked(p, size, stringSize).value;
      && t.elements.Numbers? && |t.elements.values| == Product(p.dims)
      && (p.raw.Some? ==> var w := Width(p.dataType);
            0 <= i * w <= i * w + w <= |p.raw.value| &&
            t.elements.values[i] == Load(p.raw.value[i * w..i * w + w], IsSigned(p.dataType)))
      && (p.raw.None? ==> i < |Field(p)| && t.elements.values[i] == Narrow(Field(p)[i], p.dataType))
  {
    if p.raw.Some? {
      LoadCell(p.raw.value, Width(p.dataType), IsSigned(p.dataType), Product(p.dims), i);
    }
  }
}
