/** Tensors as messages: packing into raw bytes or typed fields, and unpacking again. */
module TensorProto {

  import opened Prelude
  import opened TensorSize
  import opened TensorBytes

  type Text = Bytes

  /** Numbers are the values of integers and the bit patterns of floating-point numbers. */
  datatype Elements = Numbers(values: seq<int>) | Texts(strings: seq<Text>)

  datatype Tensor = Tensor(shape: seq<int>, elementType: ElementType, elements: Elements)

  datatype Proto = Proto(
    dims: seq<int>, dataType: ElementType, externalData: bool, raw: Option<seq<Byte>>,
    floatData: seq<int>, doubleData: seq<int>, int32Data: seq<int>, int64Data: seq<int>, uint64Data: seq<int>,
    stringData: seq<Text>)

  // ----- element types ----------------------------------------------------------------------

  predicate IsNumeric(t: ElementType)
  {
    t in {Float, Double, Bool, Int8, Int16, Int32, Int64, Uint8, Uint16, Uint32, Uint64}
  }

  predicate IsSupported(t: ElementType) { IsNumeric(t) || t == String }

  function Width(t: ElementType): (w: nat)
    requires IsNumeric(t)
    ensures 0 < w <= 8 && ElementSize(t, 0) == Some(w)
  {
    ElementSize(t, 0).value
  }

  predicate IsSigned(t: ElementType) { t in {Int8, Int16, Int32, Int64} }

  /** The type of the entries of the field that holds elements of this type. */
  function FieldType(t: ElementType): (u: ElementType)
    requires IsNumeric(t)
    ensures IsNumeric(u) && Width(t) <= Width(u)
  {
    match t
    case Float | Double | Int64 => t
    case Uint32 | Uint64 => Uint64
    case _ => Int32
  }

  function FieldWidth(t: ElementType): (n: nat)
    requires IsNumeric(t)
    ensures Width(t) <= n
  {
    Width(FieldType(t))
  }

  predicate IsValue(v: int, t: ElementType)
    requires IsNumeric(t)
  {
    InType(v, Width(t), IsSigned(t)) && (t == Bool ==> 0 <= v <= 1)
  }

  lemma ValueFits(v: int, t: ElementType)
    requires IsNumeric(t) && IsValue(v, t)
    ensures 0 <= v + Pow256(Width(t)) && InType(v, Width(t), IsSigned(t))
  {
    var w, signed := Width(t), IsSigned(t);
    CodeFits(v, w, signed);
  }

  /** A tensor as it can exist in memory. */
  ghost predicate WellFormed(t: Tensor)
  {
    && AllNonNegative(t.shape) && PrefixesCounted(t.shape)
    && (forall i :: 0 <= i < |t.shape| ==> IsInt64(t.shape[i]))
    && match t.elements
       case Numbers(vs) => t.elementType != String && |vs| == Product(t.shape) &&
                           (IsNumeric(t.elementType) ==> forall i :: 0 <= i < |vs| ==> IsValue(vs[i], t.elementType))
       case Texts(ss) => t.elementType == String && |ss| == Product(t.shape)
  }

  /** Counting the elements stays within signed 64-bit arithmetic. */
  ghost predicate PrefixesCounted(dims: seq<int>)
  {
    forall k :: 0 <= k <= |dims| ==> Product(dims[..k]) < 0x8000_0000_0000_0000
  }

  // ----- packing ----------------------------------------------------------------------------

  function StoreAll(vs: seq<int>, t: ElementType): (bs: seq<Byte>)
    requires IsNumeric(t) && forall i :: 0 <= i < |vs| ==> IsValue(vs[i], t)
  {
    if vs == [] then [] else
    ValueFits(vs[0], t);
    Store(vs[0], Width(t)) + StoreAll(vs[1..], t)
  }

  function Empty(t: Tensor): (p: Proto)
  {
    Proto(t.shape, t.elementType, false, None, [], [], [], [], [], [])
  }

  /** The message with the given entries in the field for its type. */
  function WithField(p: Proto, vs: seq<int>): (q: Proto)
  {
    match p.dataType
    case Float => p.(floatData := vs)
    case Double => p.(doubleData := vs)
    case Int64 => p.(int64Data := vs)
    case Uint32 | Uint64 => p.(uint64Data := vs)
    case _ => p.(int32Data := vs)
  }

  function Field(p: Proto): (vs: seq<int>)
  {
    match p.dataType
    case Float => p.floatData
    case Double => p.doubleData
    case Int64 => p.int64Data
    case Uint32 | Uint64 => p.uint64Data
    case _ => p.int32Data
  }

  function Joined(ss: seq<Text>): (s: Text)
  {
    if ss == [] then [] else Joined(ss[..|ss| - 1]) + ss[|ss| - 1]
  }

  /** The strings after a trip through one buffer and its offsets: there is always a last one. */
  function Split(ss: seq<Text>): (r: seq<Text>)
  {
    if ss == [] then [[]] else ss
  }

  ghost function Packed(t: Tensor, usingRaw: bool): (p: Proto)
    requires WellFormed(t) && IsSupported(t.elementType)
  {
    match t.elements
    case Texts(ss) => Empty(t).(stringData := Split(ss))
    case Numbers(vs) =>
      if usingRaw then Empty(t).(raw := Some(StoreAll(vs, t.elementType))) else WithField(Empty(t), vs)
  }

  /** `offsets[i]` is where string `i` starts in the buffer. */
  ghost predicate AreOffsets(offsets: seq<nat>, ss: seq<Text>)
  {
    |offsets| == |ss| && forall i :: 0 <= i < |ss| ==> offsets[i] == |Joined(ss[..i])|
  }

  lemma {:induction false} JoinedPrefix(ss: seq<Text>, i: nat)
    requires i <= |ss|
    ensures Joined(ss[..i]) <= Joined(ss)
  {
    if i < |ss| {
      assert ss[..|ss| - 1][..i] == ss[..i];
      JoinedPrefix(ss[..|ss| - 1], i);
    } else {
      assert ss[..i] == ss;
    }
  }

  lemma NextJoined(ss: seq<Text>, i: nat)
    requires i < |ss|
    ensures |Joined(ss[..i])| <= |Joined(ss[..i + 1])| <= |Joined(ss)|
    ensures Joined(ss)[|Joined(ss[..i])|..|Joined(ss[..i + 1])|] == ss[i]
  {
    assert ss[..i + 1][..i] == ss[..i];
    JoinedPrefix(ss, i + 1);
    assert Joined(ss[..i + 1]) == Joined(ss[..i]) + ss[i];
  }

  /** Cutting the buffer at the offsets gives the strings back, if there are any. */
  method SplitStrings(buffer: Text, offsets: seq<nat>, count: nat, ghost ss: seq<Text>) returns (out: seq<Text>)
    requires buffer == Joined(ss) && AreOffsets(offsets, ss) && count == |ss|
    ensures out == Split(ss)
  {
    out := [];
    var start, i := 0, 1;
    while i < count
      invariant 1 <= i && (count > 0 ==> i <= count)
      invariant CutTo(ss, if count > 0 then i - 1 else 0, out, start)
    {
      var end := offsets[i];
      CutNext(ss, i - 1, out, start);
      out := out + [buffer[start..end]];
      start := end;
      i := i + 1;
    }
    if count > 0 {
      CutNext(ss, count - 1, out, start);
      assert ss[..count] == ss && buffer[start..|buffer|] == buffer[start..];
    }
    out := out + [buffer[start..]];
  }

  /** The first `i` strings have been cut off, up to `start`. */
  ghost predicate CutTo(ss: seq<Text>, i: nat, out: seq<Text>, start: nat)
  {
    i <= |ss| && out == ss[..i] && start == |Joined(ss[..i])| <= |Joined(ss)|
  }

  lemma CutNext(ss: seq<Text>, i: nat, out: seq<Text>, start: nat)
    requires CutTo(ss, i, out, start) && i < |ss|
    ensures start <= |Joined(ss[..i + 1])| <= |Joined(ss)|
    ensures CutTo(ss, i + 1, out + [Joined(ss)[start..|Joined(ss[..i + 1])|]], |Joined(ss[..i + 1])|)
  {
    NextJoined(ss, i);
    assert ss[..i + 1] == ss[..i] + [ss[i]];
  }

  /** Append the values one by one to a field. */
  method AddAll(vs: seq<int>) returns (field: seq<int>)
    ensures field == vs
  {
    field := [];
    var i := 0;
    while i < |vs|
      invariant 0 <= i <= |vs| && field == vs[..i]
    {
      field := field + [vs[i]];
      i := i + 1;
    }
  }

  method ToProto(t: Tensor, usingRaw: bool, offsets: seq<nat>) returns (r: Outcome<Proto>)
    requires WellFormed(t) && (t.elements.Texts? ==> AreOffsets(offsets, t.elements.strings))
    ensures r == if IsSupported(t.elementType) then Ok(Packed(t, usingRaw)) else Err(InvalidArgument)
  {
    if !IsSupported(t.elementType) {
      return Err(InvalidArgument);
    }
    match t.elements {
      case Texts(ss) =>
        var strings := SplitStrings(Joined(ss), offsets, |ss|, ss);
        r := Ok(Empty(t).(stringData := strings));
      case Numbers(vs) =>
        if usingRaw {
          r := Ok(Empty(t).(raw := Some(StoreAll(vs, t.elementType))));
        } else {
          var field := AddAll(vs);
          r := Ok(WithField(Empty(t), field));
        }
    }
  }

  // ----- unpacking --------------------------------------------------------------------------

  /** Elements of `w` bytes one after the other. */
  function LoadAll(bs: seq<Byte>, w: nat, signed: bool): (vs: seq<int>)
    requires w > 0
  {
    if |bs| < w then [] else [Load(bs[..w], signed)] + LoadAll(bs[w..], w, signed)
  }

  predicate IsEntry(v: int, t: ElementType)
    requires IsNumeric(t)
  {
    IsValue(v, FieldType(t))
  }

  /** An entry of a field read as an element: its first bytes, or whether it is zero. */
  function Narrow(v: int, t: ElementType): (x: int)
    requires IsNumeric(t) && IsEntry(v, t)
  {
    ValueFits(v, FieldType(t));
    if t == Bool then (if v == 0 then 0 else 1) else Load(Store(v, FieldWidth(t))[..Width(t)], IsSigned(t))
  }

  /** Fields hold values of their own type, and their lengths are signed numbers. */
  ghost predicate IsMessage(p: Proto)
  {
    && (forall i :: 0 <= i < |p.dims| ==> IsInt64(p.dims[i]))
    && (IsNumeric(p.dataType) ==> forall i :: 0 <= i < |Field(p)| ==> IsEntry(Field(p)[i], p.dataType))
    && IsInt64(|Field(p)|) && IsInt64(|p.stringData|)
  }

  ghost function UnpackedNumbers(p: Proto, count: nat): (r: Outcome<seq<int>>)
    requires IsNumeric(p.dataType) && IsMessage(p)
  {
    match p.raw
    case Some(bs) =>
      if count * Width(p.dataType) <= SIZE_MAX && |bs| == count * Width(p.dataType)
      then Ok(LoadAll(bs, Width(p.dataType), IsSigned(p.dataType)))
      else Err(Fail)
    case None =>
      if |Field(p)| == count
      then Ok(seq(count, i requires 0 <= i < count => Narrow(Field(p)[i], p.dataType)))
      else Err(Fail)
  }

  /** What comes out of a message, given a buffer of `size` bytes. */
  ghost function Unpacked(p: Proto, size: nat, stringSize: nat): (r: Outcome<Tensor>)
    requires IsMessage(p)
  {
    if p.externalData then Err(InvalidArgument)
    else if p.raw.Some? && p.dataType == String then Err(Fail)
    else if !AllNonNegative(p.dims) || !PrefixesFit(p.dims) then Err(Fail)
    else if !IsSupported(p.dataType) then Err(NotImplemented)
    else
      ProductNonNegative(p.dims);
      var needed := Product(p.dims) * ElementSize(p.dataType, stringSize).value;
      if needed > SIZE_MAX || size < needed then Err(Fail)
      else if p.dataType == String then
        if |p.stringData| == Product(p.dims) then Ok(Tensor(p.dims, String, Texts(p.stringData))) else Err(Fail)
      else
        match UnpackedNumbers(p, Product(p.dims))
        case Err(code) => Err(code)
        case Ok(vs) => Ok(Tensor(p.dims, p.dataType, Numbers(vs)))
  }

  /** Signed 64-bit arithmetic wraps around. */
  function SignedWrap(x: int): (y: int)
    ensures IsInt64(y)
  {
    (x + 0x8000_0000_0000_0000) % 0x1_0000_0000_0000_0000 - 0x8000_0000_0000_0000
  }

  /** A factor may be wrapped before the product is. */
  lemma SignedWrapProduct(x: int, n: int)
    ensures SignedWrap(SignedWrap(x) * n) == SignedWrap(x * n)
  {
    var q := (x + 0x8000_0000_0000_0000) / 0x1_0000_0000_0000_0000;
    assert x == SignedWrap(x) + q * 0x1_0000_0000_0000_0000;
    assert x * n == SignedWrap(x) * n + (q * n) * 0x1_0000_0000_0000_0000;
    SignedWrapShift(SignedWrap(x) * n, q * n);
  }

  lemma SignedWrapShift(x: int, k: int)
    ensures SignedWrap(x + k * 0x1_0000_0000_0000_0000) == SignedWrap(x)
  {
  }

  /** A wrapped count equals a length exactly when the count itself does. */
  lemma SignedWrapEquals(count: nat, length: nat)
    requires IsSize(count) && IsInt64(length)
    ensures length == SignedWrap(count) <==> length == count
  {
  }

  /** Whether no dimension is negative, and how many elements there are, up to wrapping. */
  method CountElements(dims: seq<int>) returns (ok: bool, count: int)
    ensures ok <==> AllNonNegative(dims)
    ensures ok ==> Product(dims) >= 0 && count == SignedWrap(Product(dims))
  {
    count := 1;
    var i := 0;
    while i < |dims|
      invariant 0 <= i <= |dims| && Product(dims[..i]) >= 0 && count == SignedWrap(Product(dims[..i]))
      invariant forall j :: 0 <= j < i ==> dims[j] >= 0
    {
      if dims[i] < 0 {
        return false, 0;
      }
      assert dims[..i + 1][..i] == dims[..i];
      SignedWrapProduct(Product(dims[..i]), dims[i]);
      count := SignedWrap(count * dims[i]);
      i := i + 1;
    }
    assert dims[..i] == dims;
    ok := true;
  }

  /** Copy the elements out of the raw bytes or, narrowed one by one, out of the typed field. The
      wrapped count is read back as an unsigned number against the bytes, compared as it is with
      the length of the field. */
  method UnpackNumbers(p: Proto, count: int, ghost exact: nat) returns (r: Outcome<seq<int>>)
    requires IsNumeric(p.dataType) && IsMessage(p) && IsSize(exact) && count == SignedWrap(exact)
    ensures r == UnpackedNumbers(p, exact)
  {
    if p.raw.Some? {
      var elements := if count < 0 then count + 0x1_0000_0000_0000_0000 else count;
      var ok, expected := CalcMemSize(elements, Width(p.dataType), 0);
      if !ok || |p.raw.value| != expected {
        return Err(Fail);
      }
      return Ok(LoadAll(p.raw.value, Width(p.dataType), IsSigned(p.dataType)));
    }
    var field := Field(p);
    SignedWrapEquals(exact, |field|);
    if |field| != count {
      return Err(Fail);
    }
    var vs, i := [], 0;
    while i < |field|
      invariant 0 <= i <= |field| && |vs| == i
      invariant forall j :: 0 <= j < i ==> vs[j] == Narrow(field[j], p.dataType)
    {
      vs := vs + [Narrow(field[i], p.dataType)];
      i := i + 1;
    }
    assert vs == UnpackedNumbers(p, exact).value;
    return Ok(vs);
  }

  method FromProto(p: Proto, size: nat, stringSize: nat) returns (r: Outcome<Tensor>)
    requires IsMessage(p) && IsSize(stringSize)
    ensures r == Unpacked(p, size, stringSize)
  {
    if p.externalData {
      return Err(InvalidArgument);
    }
    if p.raw.Some? && p.dataType == String {
      return Err(Fail);
    }
    var counted, count := CountElements(p.dims);
    if !counted {
      return Err(Fail);
    }
    var needed := GetSizeInBytes(p.dims, p.dataType, stringSize, 0);
    if needed.Err? {
      return Err(needed.code);
    }
    if size < needed.value {
      return Err(Fail);
    }
    assert p.dims[..|p.dims|] == p.dims;
    if p.dataType == String {
      SignedWrapEquals(Product(p.dims), |p.stringData|);
      return if |p.stringData| == count then Ok(Tensor(p.dims, String, Texts(p.stringData))) else Err(Fail);
    }
    var numbers := UnpackNumbers(p, count, Product(p.dims));
    match numbers {
      case Err(code) => r := Err(code);
      case Ok(vs) => r := Ok(Tensor(p.dims, p.dataType, Numbers(vs)));
    }
  }

  // ----- there and back ---------------------------------------------------------------------

  lemma {:induction false} RawLength(vs: seq<int>, t: ElementType)
    requires IsNumeric(t) && forall i :: 0 <= i < |vs| ==> IsValue(vs[i], t)
    ensures |StoreAll(vs, t)| == |vs| * Width(t)
  {
    if vs != [] {
      RawLength(vs[1..], t);
      assert |vs| * Width(t) == (|vs| - 1) * Width(t) + Width(t);
    }
  }

  lemma {:induction false} RawBack(vs: seq<int>, t: ElementType)
    requires IsNumeric(t) && forall i :: 0 <= i < |vs| ==> IsValue(vs[i], t)
    ensures LoadAll(StoreAll(vs, t), Width(t), IsSigned(t)) == vs
  {
    if vs != [] {
      var w := Width(t);
      ValueFits(vs[0], t);
      LoadStore(vs[0], w, IsSigned(t));
      RawBack(vs[1..], t);
      var bs := StoreAll(vs, t);
      assert bs[..w] == Store(vs[0], w) && bs[w..] == StoreAll(vs[1..], t);
    }
  }

  /** The fields are wide enough for the values of the types they hold. */
  lemma ValueIsEntry(v: int, t: ElementType)
    requires IsNumeric(t) && IsValue(v, t)
    ensures IsEntry(v, t)
  {
    if FieldType(t) != t {
      Powers();
    }
  }

  lemma NarrowBack(v: int, t: ElementType)
    requires IsNumeric(t) && IsValue(v, t)
    ensures IsEntry(v, t) && Narrow(v, t) == v
  {
    ValueFits(v, t);
    ValueIsEntry(v, t);
    NarrowWidened(v, Width(t), FieldWidth(t), IsSigned(t));
  }

  lemma FieldBack(p: Proto, vs: seq<int>)
    requires IsNumeric(p.dataType)
    ensures Field(WithField(p, vs)) == vs && WithField(p, vs).(floatData := p.floatData, doubleData := p.doubleData,
              int32Data := p.int32Data, int64Data := p.int64Data, uint64Data := p.uint64Data) == p
  {
  }

  lemma PackedCounts(t: Tensor)
    requires WellFormed(t)
    ensures PrefixesFit(t.shape) && IsInt64(Product(t.shape))
  {
    assert t.shape[..|t.shape|] == t.shape;
  }

  lemma NumbersBack(t: Tensor, usingRaw: bool)
    requires WellFormed(t) && IsNumeric(t.elementType) && t.elements.Numbers?
    requires |t.elements.values| * Width(t.elementType) <= SIZE_MAX
    ensures IsMessage(Packed(t, usingRaw))
    ensures UnpackedNumbers(Packed(t, usingRaw), |t.elements.values|) == Ok(t.elements.values)
  {
    var vs, p := t.elements.values, Packed(t, usingRaw);
    PackedCounts(t);
    if usingRaw {
      RawLength(vs, t.elementType);
      RawBack(vs, t.elementType);
    } else {
      FieldBack(Empty(t), vs);
      forall i | 0 <= i < |vs|
        ensures IsEntry(vs[i], t.elementType) && Narrow(vs[i], t.elementType) == vs[i]
      {
        NarrowBack(vs[i], t.elementType);
      }
      assert UnpackedNumbers(p, |vs|).value == vs;
    }
  }

  /** Packing and unpacking restores shape, type and elements exactly unless the tensor is a
      string tensor without elements. */
  lemma RoundTrip(t: Tensor, usingRaw: bool, size: nat, stringSize: nat)
    requires WellFormed(t) && IsSupported(t.elementType) && IsSize(size)
    requires Product(t.shape) * ElementSize(t.elementType, stringSize).value <= size
    ensures IsMessage(Packed(t, usingRaw))
    ensures Unpacked(Packed(t, usingRaw), size, stringSize) == Ok(t) <==>
      !(t.elementType == String && Product(t.shape) == 0)
  {
    PackedCounts(t);
    if t.elements.Numbers? {
      NumbersBack(t, usingRaw);
    }
  }

  /** A string tensor without elements comes back as a failure: packing adds an empty string. */
  lemma EmptyStringTensorFails()
    ensures var t := Tensor([0], String, Texts([]));
            WellFormed(t) && Packed(t, false).stringData == [[]] &&
            IsMessage(Packed(t, false)) && Unpacked(Packed(t, false), 0, 32) == Err(Fail)
  {
    var t := Tensor([0], String, Texts([]));
    assert Product(t.shape) == 0 by { assert t.shape[..0] == []; }
    assert forall k :: 0 <= k <= 1 ==> Product(t.shape[..k]) < 2 by {
      assert t.shape[..0] == [] && t.shape[..1] == t.shape;
    }
  }
}
