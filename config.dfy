/** The configuration of a SmallHilbertCurve: `bits` per coordinate,
    `dimensions` coordinates, and `length = bits * dimensions` bits of index,
    built through `Builder.bits(..).dimensions(..)`. */
module Config {
  import opened JavaLang
  import opened Bits

  datatype Curve = Curve(bits: int, dimensions: int, length: int)
  {
    /** What the curve's operations rely on: at least one bit and one
        dimension, and an index that fits in 63 bits. */
    predicate Valid()
    {
      1 <= bits && 1 <= dimensions && length == bits * dimensions && length <= 63
    }
  }

  /** The code in the transforms of HilbertCurve, which is not part of this
      model, rewrites an array in place, so it keeps the array's length. */
  type InPlace = f: (nat, seq<Long>) -> seq<Long> | forall bits, x :: |f(bits, x)| == |x|
    witness (bits: nat, x: seq<Long>) => x

  /** Skilling's transform between a point and its transposed index:
      `HilbertCurve.transposedIndex` and `HilbertCurve.transposedIndexToPoint`. */
  datatype Skilling = Skilling(transposedIndex: InPlace, transposedIndexToPoint: InPlace)

  /** `Builder.dimensions` as written: the guard multiplies two Java `int`s. */
  function BuildAsWritten(bits: Int, dimensions: Int): (r: Result<Curve>)
    ensures r.Ok? <==> MulInt(bits, dimensions) <= 63
    ensures r.Ok? ==> r.value == Curve(bits, dimensions, MulInt(bits, dimensions))
  {
    var length := MulInt(bits, dimensions);
    if length <= 63 then Ok(Curve(bits, dimensions, length)) else Err(IllegalArgument)
  }

  /** `Builder.dimensions` as evidently intended: a curve is built exactly
      when it is valid, and then its indexes fit in a non-negative `long`. */
  function Build(bits: Int, dimensions: Int): (r: Result<Curve>)
    ensures r.Ok? <==> 1 <= bits && 1 <= dimensions && bits * dimensions <= 63
    ensures r.Ok? ==> r.value.Valid() && r.value.bits == bits && r.value.dimensions == dimensions
    ensures r.Ok? ==> Pow2(r.value.length) <= 0x8000_0000_0000_0000
    ensures r.Err? ==> r.error == IllegalArgument
  {
    if 1 <= bits && 1 <= dimensions && bits * dimensions <= 63 then
      Pow2Long();
      Pow2Monotone(bits * dimensions, 63);
      Ok(Curve(bits, dimensions, bits * dimensions))
    else
      Err(IllegalArgument)
  }

  /** The two builders agree wherever the product is honest and the
      parameters positive. */
  lemma BuildAgrees(bits: Int, dimensions: Int)
    requires 1 <= bits && 1 <= dimensions && bits * dimensions <= 0x7fff_ffff
    ensures BuildAsWritten(bits, dimensions) == Build(bits, dimensions)
  {
  }

  /** 63 bits of index are accepted; 64 are refused. */
  lemma BuildBoundary()
    ensures Build(21, 3).Ok? && Build(63, 1).Ok?
    ensures Build(16, 4) == Err(IllegalArgument) && Build(32, 2) == Err(IllegalArgument)
  {
  }

  /** The guard's product wraps: 65536 * 65536 is 0 as a Java `int`, so a
      curve with 2^32 bits of index is built. */
  lemma BuildAsWrittenAcceptsWrappedProduct()
    ensures BuildAsWritten(65536, 65536) == Ok(Curve(65536, 65536, 0))
    ensures !BuildAsWritten(65536, 65536).value.Valid()
    ensures Build(65536, 65536) == Err(IllegalArgument)
  {
  }

  /** Zero bits pass the guard; `transposeLong` then divides by `bits`. */
  lemma BuildAsWrittenAcceptsZeroBits()
    ensures BuildAsWritten(0, 5) == Ok(Curve(0, 5, 0))
    ensures !BuildAsWritten(0, 5).value.Valid()
    ensures Build(0, 5) == Err(IllegalArgument)
  {
  }
}
