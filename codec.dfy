/** Conversion between a point, its transposed index (one `bits`-bit word per
    dimension) and the scalar index, in which the transposed words are
    interleaved bit-plane by bit-plane, most significant plane first. */
module Codec {
  import opened JavaLang
  import opened Bits
  import opened Config
  import opened Arith

  // ---------------------------------------------------------------------
  // Where each bit goes. Index bit `p` holds bit `ShiftOf(p)` of transposed
  // word `DimOf(p)`; bit `k` of word `d` lands on index bit `Position(d, k)`.
  // ---------------------------------------------------------------------

  function DimOf(c: Curve, p: nat): nat
    requires c.Valid()
  {
    (c.length - 1 - p) % c.dimensions
  }

  function ShiftOf(c: Curve, p: nat): nat
    requires c.Valid()
  {
    p / c.dimensions
  }

  function Position(c: Curve, d: nat, k: nat): nat
    requires c.Valid() && d < c.dimensions
  {
    k * c.dimensions + (c.dimensions - 1 - d)
  }

  /** Bit `k` of word `d` goes to an index bit that is read back from word `d`, bit `k`. */
  lemma PositionInverse(c: Curve, d: nat, k: nat)
    requires c.Valid() && d < c.dimensions && k < c.bits
    ensures Position(c, d, k) < c.length
    ensures DimOf(c, Position(c, d, k)) == d && ShiftOf(c, Position(c, d, k)) == k
  {
    var n, p := c.dimensions, Position(c, d, k);
    MulLess(k, c.bits, n);
    DivMod(p, k, n - 1 - d, n);
    assert c.length - 1 - p == (c.bits - 1 - k) * n + d;
    DivMod(c.length - 1 - p, c.bits - 1 - k, d, n);
  }

  /** Every index bit below `length` is the image of exactly one word bit. */
  lemma PositionOf(c: Curve, p: nat)
    requires c.Valid() && p < c.length
    ensures DimOf(c, p) < c.dimensions && ShiftOf(c, p) < c.bits
    ensures Position(c, DimOf(c, p), ShiftOf(c, p)) == p
  {
    var n := c.dimensions;
    var q, r := p / n, p % n;
    assert p == q * n + r;
    if q >= c.bits {
      MulLess(c.bits - 1, q, n);
      MulSucc(c.bits - 1, n);
    }
    MulSub(c.bits - 1, q, n);
    MulSucc(c.bits - 1, n);
    assert c.length - 1 - p == (c.bits - 1 - q) * n + (n - 1 - r);
    DivMod(c.length - 1 - p, c.bits - 1 - q, n - 1 - r, n);
  }

  // ---------------------------------------------------------------------
  // untranspose (toIndex)
  // ---------------------------------------------------------------------

  /** The index bits, least significant first, that `toIndex` assembles from
      the low `bits` bits of each transposed word. */
  function IndexBits(c: Curve, t: seq<Long>): (bs: seq<bool>)
    requires c.Valid() && |t| == c.dimensions
    ensures |bs| == c.length
  {
    seq(c.length, p requires 0 <= p < c.length => LongBit(t[DimOf(c, p)], ShiftOf(c, p)))
  }

  lemma IndexSpaceFitsLong(c: Curve)
    requires c.Valid()
    ensures Pow2(c.length) <= 0x8000_0000_0000_0000
  {
    Pow2Long();
    Pow2Monotone(c.length, 63);
  }

  /** The index of a transposed index: it always lies in [0, 2^length). */
  function Untranspose(c: Curve, t: seq<Long>): (index: Long)
    requires c.Valid() && |t| == c.dimensions
    ensures 0 <= index < Pow2(c.length)
  {
    var bs := IndexBits(c, t);
    FromBitsBound(bs);
    IndexSpaceFitsLong(c);
    FromBits(bs)
  }

  /** The value contributed by index bits `lo` and above. */
  function Scanned(bs: seq<bool>, lo: nat): nat
    requires lo <= |bs|
    decreases |bs| - lo
  {
    if lo == |bs| then 0 else (if bs[lo] then Pow2(lo) else 0) + Scanned(bs, lo + 1)
  }

  /** The bits from `lo` up, read as a number and moved up by `lo` places. */
  lemma {:induction false} ScannedIsScaled(bs: seq<bool>, lo: nat)
    requires lo <= |bs|
    ensures Scanned(bs, lo) == Pow2(lo) * FromBits(bs[lo..])
    decreases |bs| - lo
  {
    if lo < |bs| {
      ScannedIsScaled(bs, lo + 1);
      assert bs[lo..][1..] == bs[lo + 1..];
      var bit, rest := (if bs[lo] then 1 else 0), FromBits(bs[lo + 1..]);
      var m := Pow2(lo);
      assert FromBits(bs[lo..]) == bit + 2 * rest;
      assert Pow2(lo + 1) == 2 * m;
      MulSplit(m, bit, rest);
    }
  }

  /** One step of the scan: ORing index bit `lo` into the value built from
      the bits above it gives the value built from bit `lo` up. */
  lemma ScanStep(bs: seq<bool>, lo: nat)
    requires lo < |bs|
    ensures (if bs[lo] then SetBit(Scanned(bs, lo + 1), lo) else Scanned(bs, lo + 1)) == Scanned(bs, lo)
  {
    ScannedIsScaled(bs, lo + 1);
    BitOfMultiple(FromBits(bs[lo + 1..]), lo);
  }

  /** The number of index bits in the `k` least significant bit planes. */
  function Planes(c: Curve, k: nat): nat
    requires c.Valid()
  {
    if k == 0 then 0 else Planes(c, k - 1) + c.dimensions
  }

  lemma {:induction false} PlanesIsProduct(c: Curve, k: nat)
    requires c.Valid()
    ensures Planes(c, k) == k * c.dimensions
  {
    if k > 0 {
      PlanesIsProduct(c, k - 1);
      MulSucc(k - 1, c.dimensions);
    }
  }

  /** The scan's step at word `j` of plane `shift`: `bIndex` is the index bit
      `Position(j, shift)` the source writes, and ORing the word's bit there
      extends the value built from the bits above it. */
  lemma ToIndexStep(c: Curve, t: seq<Long>, j: nat, shift: nat, bIndex: int, b: nat)
    requires c.Valid() && |t| == c.dimensions && j < c.dimensions && shift < c.bits
    requires bIndex + 1 + j == Planes(c, shift + 1) <= c.length
    requires b == Scanned(IndexBits(c, t), bIndex + 1)
    ensures 0 <= bIndex == Position(c, j, shift) < c.length
    ensures (if LongBit(t[j], shift) then SetBit(b, bIndex) else b)
         == Scanned(IndexBits(c, t), bIndex)
  {
    PlanesIsProduct(c, shift);
    PositionInverse(c, j, shift);
    ScanStep(IndexBits(c, t), Position(c, j, shift));
  }

  /** The complete scan yields the index. */
  lemma ScanIsUntranspose(c: Curve, t: seq<Long>)
    requires c.Valid() && |t| == c.dimensions
    ensures Scanned(IndexBits(c, t), 0) == Untranspose(c, t)
  {
    var bs := IndexBits(c, t);
    ScannedIsScaled(bs, 0);
    assert bs[0..] == bs;
  }

  /** `toIndex`: scans the bit planes from the most significant down and, in
      each plane, the words in order, ORing each bit into the next lower bit
      of the result. `shift` is the exponent of the source's `mask`. */
  method ToIndex(c: Curve, t: seq<Long>) returns (index: Long)
    requires c.Valid() && |t| == c.dimensions
    ensures index == Untranspose(c, t)
    ensures 0 <= index < Pow2(c.length)
  {
    ghost var bs := IndexBits(c, t);
    var b: nat := 0;
    var bIndex: int := c.length - 1;
    var shift: int := c.bits - 1;
    PlanesIsProduct(c, c.bits);
    for i := 0 to c.bits
      invariant shift == c.bits - 1 - i
      invariant bIndex + 1 == Planes(c, shift + 1) <= c.length
      invariant b == Scanned(bs, bIndex + 1)
    {
      for j := 0 to |t|
        invariant bIndex + 1 + j == Planes(c, shift + 1)
        invariant b == Scanned(bs, bIndex + 1)
      {
        ToIndexStep(c, t, j, shift, bIndex, b);
        if LongBit(t[j], shift) {
          b := SetBit(b, bIndex);
        }
        bIndex := bIndex - 1;
      }
      shift := shift - 1;
    }
    ScanIsUntranspose(c, t);
    index := b;
  }

  // ---------------------------------------------------------------------
  // transpose (transposeLong)
  // ---------------------------------------------------------------------

  function Zeros(n: nat): (z: seq<Long>)
    ensures |z| == n && forall k :: 0 <= k < n ==> z[k] == 0
  {
    seq(n, k => 0)
  }

  /** What `transposeLong` does for bit `idx` of `index`: when the bit is
      set, OR bit `shift` into word `dim`, where the source's truncating `%`
      can make `dim` negative and the array write then fails. */
  function TransposeStep(c: Curve, index: Long, x: seq<Long>, idx: nat): (r: Result<seq<Long>>)
    requires c.Valid()
  {
    if !LongBit(index, idx) then Ok(x)
    else
      var dim := Rem(c.length - idx - 1, c.dimensions);
      var shift := (idx / c.dimensions) % c.bits;
      if dim < 0 || dim >= |x| then Err(ArrayIndexOutOfBounds)
      else Ok(x[dim := LongSetBit(x[dim], shift)])
  }

  /** The words after `transposeLong` has handled index bits 0 .. n-1. */
  function TransposeBits(c: Curve, index: Long, x: seq<Long>, n: nat): (r: Result<seq<Long>>)
    requires c.Valid()
    ensures r.Ok? ==> |r.value| == |x|
    ensures r.Err? ==> r.error == ArrayIndexOutOfBounds
  {
    if n == 0 then Ok(x)
    else match TransposeBits(c, index, x, n - 1)
      case Err(e) => Err(e)
      case Ok(y) => TransposeStep(c, index, y, n - 1)
  }

  /** A failed array write ends the scan: the failure persists. */
  lemma {:induction false} TransposeBitsFails(c: Curve, index: Long, x: seq<Long>, n: nat, m: nat)
    requires c.Valid() && n <= m && TransposeBits(c, index, x, n).Err?
    ensures TransposeBits(c, index, x, m).Err?
  {
    if n < m {
      TransposeBitsFails(c, index, x, n, m - 1);
    }
  }

  /** `transposeLong(index, x)`: ORs the 64 bits of `index` into `x` in place. */
  method TransposeLong(c: Curve, index: Long, x: array<Long>) returns (r: Result<()>)
    requires c.Valid()
    modifies x
    ensures r.Err? ==> r.error == ArrayIndexOutOfBounds && TransposeBits(c, index, old(x[..]), 64).Err?
    ensures r.Ok? ==> TransposeBits(c, index, old(x[..]), 64) == Ok(x[..])
  {
    for idx := 0 to 64
      invariant TransposeBits(c, index, old(x[..]), idx) == Ok(x[..])
    {
      if LongBit(index, idx) {
        var dim := Rem(c.length - idx - 1, c.dimensions);
        var shift := (idx / c.dimensions) % c.bits;
        if dim < 0 || dim >= x.Length {
          TransposeBitsFails(c, index, old(x[..]), idx + 1, 64);
          return Err(ArrayIndexOutOfBounds);
        }
        x[dim] := LongSetBit(x[dim], shift);
      }
    }
    return Ok(());
  }

  /** `transposeLong(index)`: the same into a fresh zeroed array. */
  method Transpose(c: Curve, index: Long) returns (r: Result<seq<Long>>)
    requires c.Valid()
    ensures r == TransposeBits(c, index, Zeros(c.dimensions), 64)
    ensures 0 <= index < Pow2(c.length) ==> r.Ok?
  {
    var x := new Long[c.dimensions](k => 0);
    assert x[..] == Zeros(c.dimensions);
    var done := TransposeLong(c, index, x);
    if done.Ok? {
      r := Ok(x[..]);
    } else {
      r := Err(ArrayIndexOutOfBounds);
    }
    if 0 <= index < Pow2(c.length) {
      TransposeOfZeros(c, index, 64);
    }
  }

  /** Words below 2^bits whose bit `k` is index bit `Position(d, k)` when
      that position is below `n`, and clear otherwise. */
  ghost predicate HoldsBitsBelow(c: Curve, index: nat, n: nat, y: seq<Long>)
    requires c.Valid()
  {
    |y| == c.dimensions &&
    forall d :: 0 <= d < c.dimensions ==>
      0 <= y[d] < Pow2(c.bits) &&
      forall k :: 0 <= k < c.bits ==>
        Bit(y[d], k) == (Position(c, d, k) < n && Bit(index, Position(c, d, k)))
  }

  /** One step of the scan over a valid index keeps the words holding the
      bits seen so far: a set bit below `length` lands on its own word bit. */
  lemma TransposeStepPlaces(c: Curve, index: Long, y: seq<Long>, p: nat)
    requires c.Valid() && 0 <= index < Pow2(c.length) && p < 64
    requires HoldsBitsBelow(c, index, p, y)
    ensures TransposeStep(c, index, y, p).Ok?
    ensures HoldsBitsBelow(c, index, p + 1, TransposeStep(c, index, y, p).value)
  {
    assert LongBit(index, p) == Bit(index, p);
    if p >= c.length {
      BitAbove(index, c.length, p);
    }
    if Bit(index, p) {
      PositionOf(c, p);
      var dim, shift := DimOf(c, p), ShiftOf(c, p);
      assert Rem(c.length - p - 1, c.dimensions) == dim;
      DivMod(shift, 0, shift, c.bits);
      var y' := y[dim := LongSetBit(y[dim], shift)];
      assert TransposeStep(c, index, y, p) == Ok(y');
      SetBitBound(y[dim], shift, c.bits);
      forall d, k | 0 <= d < c.dimensions && 0 <= k < c.bits
        ensures Bit(y'[d], k) == (Position(c, d, k) < p + 1 && Bit(index, Position(c, d, k)))
      {
        PositionInverse(c, d, k);
        if d == dim {
          SetBitBits(y[dim], shift, k);
        }
      }
    } else {
      assert TransposeStep(c, index, y, p) == Ok(y);
    }
  }

  /** From zeroed words, the first `n` steps of the scan over a valid index
      never fail and place exactly index bits 0 .. n-1. */
  lemma {:induction false} TransposeOfZeros(c: Curve, index: Long, n: nat)
    requires c.Valid() && 0 <= index < Pow2(c.length) && n <= 64
    ensures TransposeBits(c, index, Zeros(c.dimensions), n).Ok?
    ensures HoldsBitsBelow(c, index, n, TransposeBits(c, index, Zeros(c.dimensions), n).value)
  {
    var z := Zeros(c.dimensions);
    if n == 0 {
      forall d, k | 0 <= d < c.dimensions && 0 <= k < c.bits
        ensures !Bit(z[d], k)
      {
        BitOfZero(k);
      }
    } else {
      TransposeOfZeros(c, index, n - 1);
      TransposeStepPlaces(c, index, TransposeBits(c, index, z, n - 1).value, n - 1);
    }
  }

  /** Words each below 2^bits. */
  predicate Bounded(c: Curve, x: seq<Long>)
    requires c.Valid()
  {
    forall k :: 0 <= k < |x| ==> 0 <= x[k] < Pow2(c.bits)
  }

  /** Word `d` rebuilt from the index of `t` is word `d` of `t`. */
  lemma WordRoundTrip(c: Curve, t: seq<Long>, y: seq<Long>, d: nat)
    requires c.Valid() && |t| == c.dimensions && Bounded(c, t) && d < c.dimensions
    requires HoldsBitsBelow(c, Untranspose(c, t), 64, y)
    ensures y[d] == t[d]
  {
    var bs := IndexBits(c, t);
    forall k | 0 <= k < c.bits
      ensures Bit(y[d], k) == Bit(t[d], k)
    {
      PositionInverse(c, d, k);
      FromBitsBit(bs, Position(c, d, k));
    }
    BitsDetermine(y[d], t[d], c.bits);
  }

  /** Round trip through the index: transposing the index of a transposed
      index into zeroed words gives the words back. */
  lemma TransposeUntranspose(c: Curve, t: seq<Long>)
    requires c.Valid() && |t| == c.dimensions && Bounded(c, t)
    ensures TransposeBits(c, Untranspose(c, t), Zeros(c.dimensions), 64) == Ok(t)
  {
    var u := Untranspose(c, t);
    TransposeOfZeros(c, u, 64);
    var y := TransposeBits(c, u, Zeros(c.dimensions), 64).value;
    forall d | 0 <= d < c.dimensions
      ensures y[d] == t[d]
    {
      WordRoundTrip(c, t, y, d);
    }
    assert y == t;
  }

  /** Round trip through the words: the index of the words transposed from a
      valid index is that index. */
  lemma UntransposeTranspose(c: Curve, index: Long)
    requires c.Valid() && 0 <= index < Pow2(c.length)
    ensures TransposeBits(c, index, Zeros(c.dimensions), 64).Ok?
    ensures Untranspose(c, TransposeBits(c, index, Zeros(c.dimensions), 64).value) == index
  {
    TransposeOfZeros(c, index, 64);
    var y := TransposeBits(c, index, Zeros(c.dimensions), 64).value;
    var bs := IndexBits(c, y);
    IndexSpaceFitsLong(c);
    forall p | 0 <= p < c.length
      ensures Bit(FromBits(bs), p) == Bit(index, p)
    {
      FromBitsBit(bs, p);
      PositionOf(c, p);
    }
    FromBitsBound(bs);
    BitsDetermine(FromBits(bs), index, c.length);
  }

  // ---------------------------------------------------------------------
  // index and point
  // ---------------------------------------------------------------------

  /** The index of a point with `dimensions` coordinates. */
  function IndexOf(c: Curve, g: Skilling, point: seq<Long>): (index: Long)
    requires c.Valid() && |point| == c.dimensions
  {
    Untranspose(c, g.transposedIndex(c.bits, point))
  }

  /** The point decoded from `index` into an array of `n` zeroed words. */
  function PointOf(c: Curve, g: Skilling, index: Long, n: nat): (r: Result<seq<Long>>)
    requires c.Valid()
    ensures r.Ok? ==> |r.value| == n
  {
    match TransposeBits(c, index, Zeros(n), 64)
    case Err(e) => Err(e)
    case Ok(y) => Ok(g.transposedIndexToPoint(c.bits, y))
  }

  /** `index(point)`: refuses a point of the wrong arity, before computing. */
  method Index(c: Curve, g: Skilling, point: seq<Long>) returns (r: Result<Long>)
    requires c.Valid()
    ensures r.Err? <==> |point| != c.dimensions
    ensures r.Err? ==> r.error == IllegalArgument
    ensures r.Ok? ==> r.value == IndexOf(c, g, point) && 0 <= r.value < Pow2(c.length)
  {
    if |point| != c.dimensions {
      return Err(IllegalArgument);
    }
    var index := ToIndex(c, g.transposedIndex(c.bits, point));
    return Ok(index);
  }

  /** `point(index)`: never fails on an index in [0, 2^length). */
  method Point(c: Curve, g: Skilling, index: Long) returns (r: Result<seq<Long>>)
    requires c.Valid()
    ensures r == PointOf(c, g, index, c.dimensions)
    ensures 0 <= index < Pow2(c.length) ==> r.Ok?
  {
    var t := Transpose(c, index);
    if t.Err? {
      return Err(t.error);
    }
    return Ok(g.transposedIndexToPoint(c.bits, t.value));
  }

  /** `point(index, x)`: zeroes `x` first, so the decoded point depends only
      on `index` and the length of `x`, never on what `x` held. */
  method PointInto(c: Curve, g: Skilling, index: Long, x: array<Long>) returns (r: Result<()>)
    requires c.Valid()
    modifies x
    ensures r.Ok? == PointOf(c, g, index, x.Length).Ok?
    ensures r.Ok? ==> x[..] == PointOf(c, g, index, x.Length).value
  {
    forall k | 0 <= k < x.Length {
      x[k] := 0;
    }
    assert x[..] == Zeros(x.Length);
    var done := TransposeLong(c, index, x);
    if done.Err? {
      return Err(done.error);
    }
    var p := g.transposedIndexToPoint(c.bits, x[..]);
    forall k | 0 <= k < x.Length {
      x[k] := p[k];
    }
    return Ok(());
  }

  /** Skilling's transform inverts on points of the curve, and sends them to
      transposed indexes whose words are below 2^bits. */
  ghost predicate InvertsOnPoints(c: Curve, g: Skilling)
    requires c.Valid()
  {
    forall p :: |p| == c.dimensions && Bounded(c, p) ==>
      Bounded(c, g.transposedIndex(c.bits, p)) &&
      g.transposedIndexToPoint(c.bits, g.transposedIndex(c.bits, p)) == p
  }

  /** Skilling's transform inverts on transposed indexes whose words are below 2^bits. */
  ghost predicate InvertsOnTransposed(c: Curve, g: Skilling)
    requires c.Valid()
  {
    forall t :: |t| == c.dimensions && Bounded(c, t) ==>
      g.transposedIndex(c.bits, g.transposedIndexToPoint(c.bits, t)) == t
  }

  /** `point(index(p)) == p`, given that the transform inverts. */
  lemma PointOfIndexOf(c: Curve, g: Skilling, p: seq<Long>)
    requires c.Valid() && InvertsOnPoints(c, g)
    requires |p| == c.dimensions && Bounded(c, p)
    ensures PointOf(c, g, IndexOf(c, g, p), c.dimensions) == Ok(p)
  {
    TransposeUntranspose(c, g.transposedIndex(c.bits, p));
  }

  /** `index(point(i)) == i` for every `i` in [0, 2^length), given that the
      transform inverts. */
  lemma IndexOfPointOf(c: Curve, g: Skilling, index: Long)
    requires c.Valid() && InvertsOnTransposed(c, g)
    requires 0 <= index < Pow2(c.length)
    ensures PointOf(c, g, index, c.dimensions).Ok?
    ensures IndexOf(c, g, PointOf(c, g, index, c.dimensions).value) == index
  {
    UntransposeTranspose(c, index);
    TransposeOfZeros(c, index, 64);
    var y := TransposeBits(c, index, Zeros(c.dimensions), 64).value;
    assert Bounded(c, y);
  }
}
