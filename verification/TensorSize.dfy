/** Overflow-checked size arithmetic on 64-bit unsigned integers. */
module TensorSize {

  import opened Prelude

  const SIZE_MAX: nat := 0xFFFF_FFFF_FFFF_FFFF

  datatype Code = InvalidArgument | Fail | NotImplemented

  datatype Outcome<T> = Ok(value: T) | Err(code: Code)

  /** 64-bit arithmetic wraps around. */
  function Wrap(x: nat): (y: nat) { x % 0x1_0000_0000_0000_0000 }

  /** Clearing the low bits below a power of two rounds down to a multiple of it. */
  function RoundDown(x: nat, alignment: nat): (y: nat)
    requires alignment > 0
  {
    x - x % alignment
  }

  predicate IsSize(x: int) { 0 <= x <= SIZE_MAX }

  /** `x` is the least multiple of the alignment that is not below `n`; without alignment `n`. */
  ghost predicate IsAligned(x: nat, n: nat, alignment: nat)
  {
    if alignment == 0 then x == n
    else x % alignment == 0 && n <= x && forall y: nat :: y % alignment == 0 && n <= y ==> x <= y
  }

  /** Comparing with a quotient compares the product. */
  lemma DivisionTest(most: nat, n: nat, s: nat)
    requires n > 0
    ensures most / n < s <==> most < n * s
  {
    var q := most / n;
    assert most == q * n + most % n;
    if q < s {
      MulMonotone(q + 1, s, n);
      assert (q + 1) * n == q * n + n;
    } else {
      MulMonotone(s, q, n);
    }
  }

  /** Below the square root there is nothing to test. */
  lemma SmallFactors(a: nat, b: nat, alignment: nat)
    requires alignment <= 256 && a < 0x1_0000_0000 - alignment && b < 0x1_0000_0000 - alignment
    ensures a * b <= SIZE_MAX - alignment
  {
    MulMonotone(a, 0xFFFF_FFFF - alignment, b);
    MulMonotone(b, 0xFFFF_FFFF - alignment, 0xFFFF_FFFF - alignment);
  }

  /** The size of `product` bytes, rounded up, in wrapping arithmetic. */
  method RoundUp(product: nat, alignment: nat) returns (out: nat)
    requires alignment in {0, 256} && product <= SIZE_MAX - alignment
    ensures IsAligned(out, product, alignment) && IsSize(out)
  {
    WrapSmall(product);
    if alignment == 0 {
      out := Wrap(product);
    } else {
      WrapSmall(product + 255);
      RoundedUp(product);
      out := RoundDown(Wrap(Wrap(product) + 255), 256);
    }
  }

  lemma WrapSmall(x: nat)
    requires IsSize(x)
    ensures Wrap(x) == x
  {
  }

  lemma RoundedUp(n: nat)
    ensures IsAligned(RoundDown(n + 255, 256), n, 256) && RoundDown(n + 255, 256) <= n + 255
  {
  }

  /** The test that avoids divisions succeeds exactly when the product fits, and the result is
      the exact product, rounded up to the alignment. */
  method CalcMemSize(nmemb: nat, size: nat, alignment: nat) returns (ok: bool, out: nat)
    requires IsSize(nmemb) && IsSize(size) && alignment in {0, 256}
    ensures ok <==> nmemb * size <= SIZE_MAX - alignment
    ensures ok ==> IsAligned(out, nmemb * size, alignment) && IsSize(out)
  {
    var maxAllowed := 0x1_0000_0000 - alignment;
    var maxSize := SIZE_MAX - alignment;
    if nmemb > 0 {
      DivisionTest(maxSize, nmemb, size);
    }
    if nmemb < maxAllowed && size < maxAllowed {
      SmallFactors(nmemb, size, alignment);
    }
    if nmemb >= maxAllowed && maxSize / nmemb < size {
      return false, 0;
    }
    if size >= maxAllowed && nmemb > 0 && maxSize / nmemb < size {
      return false, 0;
    }
    out := RoundUp(nmemb * size, alignment);
    ok := true;
  }

  // ----- sizes of tensors -------------------------------------------------------------------

  datatype ElementType =
    | UndefinedType | Float | Uint8 | Int8 | Uint16 | Int16 | Int32 | Int64 | String | Bool
    | Float16 | Double | Uint32 | Uint64 | Complex64 | Complex128 | Bfloat16

  /** Bytes per element of the supported types; the size of a string object is given. */
  function ElementSize(t: ElementType, stringSize: nat): (n: Option<nat>)
  {
    match t
    case Float | Int32 | Uint32 => Some(4)
    case Double | Int64 | Uint64 => Some(8)
    case Bool | Int8 | Uint8 => Some(1)
    case Int16 | Uint16 => Some(2)
    case String => Some(stringSize)
    case _ => None
  }

  function Product(dims: seq<int>): (n: int)
  {
    if dims == [] then 1 else Product(dims[..|dims| - 1]) * dims[|dims| - 1]
  }

  ghost predicate AllNonNegative(dims: seq<int>)
  {
    forall i :: 0 <= i < |dims| ==> dims[i] >= 0
  }

  /** Every partial product fits. */
  ghost predicate PrefixesFit(dims: seq<int>)
  {
    forall k :: 0 <= k <= |dims| ==> Product(dims[..k]) <= SIZE_MAX
  }

  lemma {:induction false} ProductNonNegative(dims: seq<int>)
    requires AllNonNegative(dims)
    ensures Product(dims) >= 0
  {
    if dims != [] {
      ProductNonNegative(dims[..|dims| - 1]);
    }
  }

  ghost predicate IsInt64(x: int) { -0x8000_0000_0000_0000 <= x < 0x8000_0000_0000_0000 }

  /** Succeeds exactly when no dimension is negative, every partial product fits, the type is
      supported and the whole fits; the result is then the true size, rounded up. The type is
      only looked at when the dimensions are in order. */
  method GetSizeInBytes(dims: seq<int>, elementType: ElementType, stringSize: nat, alignment: nat)
    returns (r: Outcome<nat>)
    requires alignment in {0, 256} && IsSize(stringSize) && forall i :: 0 <= i < |dims| ==> IsInt64(dims[i])
    ensures r.Ok? <==> AllNonNegative(dims) && PrefixesFit(dims) && ElementSize(elementType, stringSize).Some? &&
                       Product(dims) * ElementSize(elementType, stringSize).value <= SIZE_MAX - alignment
    ensures r.Ok? ==>
      Product(dims) >= 0 && IsAligned(r.value, Product(dims) * ElementSize(elementType, stringSize).value, alignment)
    ensures r.Err? ==>
      (r.code == NotImplemented <==>
       AllNonNegative(dims) && PrefixesFit(dims) && ElementSize(elementType, stringSize).None?)
    ensures r.Err? ==> r.code in {NotImplemented, Fail}
  {
    var size, i := 1, 0;
    while i < |dims|
      invariant 0 <= i <= |dims| && size == Product(dims[..i]) && IsSize(size)
      invariant forall j :: 0 <= j < i ==> dims[j] >= 0
      invariant forall k :: 0 <= k <= i ==> Product(dims[..k]) <= SIZE_MAX
    {
      if dims[i] < 0 || dims[i] >= SIZE_MAX {
        return Err(Fail);
      }
      assert dims[..i + 1][..i] == dims[..i];
      assert Product(dims[..i + 1]) == size * dims[i];
      var fits, next := CalcMemSize(size, dims[i], 0);
      if !fits {
        return Err(Fail);
      }
      size := next;
      i := i + 1;
    }
    assert dims[..i] == dims;
    match ElementSize(elementType, stringSize) {
      case None => return Err(NotImplemented);
      case Some(n) =>
        var fits, out := CalcMemSize(size, n, alignment);
        return if fits then Ok(out) else Err(Fail);
    }
  }
}
