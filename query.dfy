/** `toRange`, its `Visitor`, and `query`: each box of a split is mapped to
    the range between the least and greatest index on its surface, the
    ranges are sorted by their low end and merged. */
module Query {
  import opened JavaLang
  import opened Config
  import opened Bits
  import opened Codec
  import opened Ranges
  import opened Boxes
  import opened Perimeter
  import opened Seqs

  /** `m` is an element of `s` and no element is below it. */
  predicate IsLeast(m: Long, s: seq<Long>)
  {
    (exists i :: 0 <= i < |s| && s[i] == m) && forall i :: 0 <= i < |s| ==> m <= s[i]
  }

  /** `m` is an element of `s` and no element is above it. */
  predicate IsGreatest(m: Long, s: seq<Long>)
  {
    (exists i :: 0 <= i < |s| && s[i] == m) && forall i :: 0 <= i < |s| ==> s[i] <= m
  }

  /** The least element of a non-empty sequence. */
  function SeqMin(s: seq<Long>): (m: Long)
    requires |s| > 0
    ensures IsLeast(m, s)
  {
    if |s| == 1 then s[0]
    else
      var rest := SeqMin(s[1..]);
      assert forall i :: 1 <= i < |s| ==> s[i] == s[1..][i - 1];
      if s[0] <= rest then s[0] else rest
  }

  /** The greatest element of a non-empty sequence. */
  function SeqMax(s: seq<Long>): (m: Long)
    requires |s| > 0
    ensures IsGreatest(m, s)
  {
    if |s| == 1 then s[0]
    else
      var rest := SeqMax(s[1..]);
      assert forall i :: 1 <= i < |s| ==> s[i] == s[1..][i - 1];
      if s[0] >= rest then s[0] else rest
  }

  /** A sequence has one least and one greatest element. */
  lemma ExtremesUnique(s: seq<Long>, lo: Long, hi: Long)
    requires IsLeast(lo, s) && IsGreatest(hi, s)
    ensures lo == SeqMin(s) && hi == SeqMax(s)
  {
    var i :| 0 <= i < |s| && s[i] == lo;
    var j :| 0 <= j < |s| && s[j] == hi;
    assert SeqMin(s) <= s[i] && lo <= SeqMin(s);
    assert s[j] <= SeqMax(s) && SeqMax(s) <= hi;
  }

  /** `accept`'s comparisons keep the least and greatest index seen. */
  lemma ExtremesSnoc(s: seq<Long>, x: Long, lo: Long, hi: Long)
    requires IsLeast(lo, s) && IsGreatest(hi, s)
    ensures IsLeast(if x < lo then x else lo, s + [x])
    ensures IsGreatest(if x > hi then x else hi, s + [x])
  {
    var t := s + [x];
    var i :| 0 <= i < |s| && s[i] == lo;
    var j :| 0 <= j < |s| && s[j] == hi;
    assert t[i] == lo && t[j] == hi && t[|s|] == x;
    assert forall k :: 0 <= k < |s| ==> t[k] == s[k];
  }

  lemma ExtremesSingle(x: Long)
    ensures IsLeast(x, [x]) && IsGreatest(x, [x])
  {
    assert [x][0] == x;
  }

  /** The index of each point, in order. */
  function Indexes(c: Curve, g: Skilling, ps: seq<seq<Long>>): (r: seq<Long>)
    requires c.Valid() && forall k :: 0 <= k < |ps| ==> |ps[k]| == c.dimensions
    ensures |r| == |ps|
    decreases |ps|
  {
    if |ps| == 0 then [] else Indexes(c, g, ps[..|ps| - 1]) + [IndexOf(c, g, ps[|ps| - 1])]
  }

  lemma {:induction false} IndexesAt(c: Curve, g: Skilling, ps: seq<seq<Long>>, k: nat)
    requires c.Valid() && forall j :: 0 <= j < |ps| ==> |ps[j]| == c.dimensions
    requires k < |ps|
    ensures Indexes(c, g, ps)[k] == IndexOf(c, g, ps[k])
    decreases |ps|
  {
    var front := ps[..|ps| - 1];
    if k < |ps| - 1 {
      IndexesAt(c, g, front, k);
      assert front[k] == ps[k];
    }
  }

  lemma IndexesSnoc(c: Curve, g: Skilling, ps: seq<seq<Long>>, k: nat)
    requires c.Valid() && forall j :: 0 <= j < |ps| ==> |ps[j]| == c.dimensions
    requires k < |ps|
    ensures Indexes(c, g, ps[..k + 1]) == Indexes(c, g, ps[..k]) + [IndexOf(c, g, ps[k])]
  {
    assert ps[..k + 1][..k] == ps[..k];
  }

  /** The `Visitor` of `toRange`: the least and greatest index of the points
      it has accepted, `null` before the first. */
  class Visitor {
    const curve: Curve
    const transform: Skilling
    var min: Option<Long>
    var max: Option<Long>
    /** The indexes accepted so far, in order. */
    ghost var seen: seq<Long>

    ghost predicate Valid()
      reads this
    {
      curve.Valid() &&
      (min.Some? <==> |seen| > 0) && (max.Some? <==> |seen| > 0) &&
      (min.Some? ==> IsLeast(min.value, seen)) && (max.Some? ==> IsGreatest(max.value, seen))
    }

    constructor(c: Curve, g: Skilling)
      requires c.Valid()
      ensures Valid() && curve == c && transform == g
      ensures seen == [] && min == None && max == None
    {
      curve, transform := c, g;
      min, max := None, None;
      seen := [];
    }

    /** `accept(x)`: the index of `x` lowers `min` or raises `max` when it
        lies beyond them; a point of the wrong arity is refused by `index`
        and changes nothing. */
    method Accept(x: seq<Long>) returns (r: Result<()>)
      requires Valid()
      modifies this
      ensures Valid()
      ensures r.Err? <==> |x| != curve.dimensions
      ensures r.Err? ==> r.error == IllegalArgument && seen == old(seen) && min == old(min) && max == old(max)
      ensures r.Ok? ==> seen == old(seen) + [IndexOf(curve, transform, x)]
    {
      var index := Index(curve, transform, x);
      if index.Err? {
        return Err(index.error);
      }
      var i := index.value;
      if |seen| > 0 {
        ExtremesSnoc(seen, i, min.value, max.value);
      } else {
        ExtremesSingle(i);
        assert seen + [i] == [i];
      }
      if min.None? || i < min.value {
        min := Some(i);
      }
      if max.None? || i > max.value {
        max := Some(i);
      }
      seen := seen + [i];
      return Ok(());
    }

    /** `getRange()`: the range from `min` to `max`; unboxing a `null`
        bound when nothing was accepted throws. */
    method GetRange() returns (r: Result<Range>)
      requires Valid()
      ensures r.Err? <==> seen == []
      ensures r.Err? ==> r.error == NullPointer
      ensures r.Ok? ==> IsLeast(r.value.low, seen) && IsGreatest(r.value.high, seen)
    {
      if min.None? || max.None? {
        return Err(NullPointer);
      }
      return Ok(Range(min.value, max.value));
    }
  }

  /** Every surface point of a box has the box's dimensions. */
  lemma PerimeterShape(box: Box)
    requires |box.a| == |box.b|
    ensures forall k :: 0 <= k < |PerimeterPoints(box)| ==> |PerimeterPoints(box)[k]| == |box.a|
  {
    var ps := PerimeterPoints(box);
    forall k | 0 <= k < |ps|
      ensures |ps[k]| == |box.a|
    {
      PerimeterMember(box, ps[k]);
    }
  }

  /** The indexes of the surface points of a box. */
  function SurfaceIndexes(c: Curve, g: Skilling, box: Box): (r: seq<Long>)
    requires c.Valid() && |box.a| == |box.b| == c.dimensions
    ensures |r| > 0
  {
    PerimeterShape(box);
    PerimeterNonEmpty(box);
    Indexes(c, g, PerimeterPoints(box))
  }

  /** What `toRange(box, SCAN_ENTIRE_PERIMETER)` returns for a box of the
      curve's dimensions. */
  function BoxRange(c: Curve, g: Skilling, box: Box): (r: Range)
    requires c.Valid() && |box.a| == |box.b| == c.dimensions
    ensures r.low <= r.high
  {
    var idx := SurfaceIndexes(c, g, box);
    Range(SeqMin(idx), SeqMax(idx))
  }

  /** The index of a point lies between the least and greatest index of
      the points it is among. */
  lemma IndexesBound(c: Curve, g: Skilling, ps: seq<seq<Long>>, p: seq<Long>)
    requires c.Valid() && forall k :: 0 <= k < |ps| ==> |ps[k]| == c.dimensions
    requires p in ps
    ensures |p| == c.dimensions
    ensures SeqMin(Indexes(c, g, ps)) <= IndexOf(c, g, p) <= SeqMax(Indexes(c, g, ps))
  {
    var k :| 0 <= k < |ps| && ps[k] == p;
    IndexesAt(c, g, ps, k);
  }

  /** Every surface point's index lies in the range of its box. */
  lemma BoxRangeBounds(c: Curve, g: Skilling, box: Box)
    requires c.Valid() && |box.a| == |box.b| == c.dimensions
    ensures forall p: seq<Long> :: OnSurface(p, box) ==> BoxRange(c, g, box).Contains(IndexOf(c, g, p))
  {
    var ps := PerimeterPoints(box);
    PerimeterShape(box);
    forall p: seq<Long> | OnSurface(p, box)
      ensures BoxRange(c, g, box).Contains(IndexOf(c, g, p))
    {
      PerimeterMember(box, p);
      IndexesBound(c, g, ps, p);
    }
  }

  /** Both ends of the range of a box are indexes of points on its
      surface. */
  lemma BoxRangeAttained(c: Curve, g: Skilling, box: Box)
    requires c.Valid() && |box.a| == |box.b| == c.dimensions
    ensures exists p: seq<Long> :: OnSurface(p, box) && IndexOf(c, g, p) == BoxRange(c, g, box).low
    ensures exists p: seq<Long> :: OnSurface(p, box) && IndexOf(c, g, p) == BoxRange(c, g, box).high
  {
    var ps := PerimeterPoints(box);
    var idx := SurfaceIndexes(c, g, box);
    var r := BoxRange(c, g, box);
    var i :| 0 <= i < |idx| && idx[i] == r.low;
    var j :| 0 <= j < |idx| && idx[j] == r.high;
    PerimeterShape(box);
    IndexesAt(c, g, ps, i);
    IndexesAt(c, g, ps, j);
    PerimeterMember(box, ps[i]);
    PerimeterMember(box, ps[j]);
    assert OnSurface(ps[i], box) && IndexOf(c, g, ps[i]) == r.low;
    assert OnSurface(ps[j], box) && IndexOf(c, g, ps[j]) == r.high;
  }

  /** `toRange(box, SCAN_ENTIRE_PERIMETER)`: a fresh `Visitor` accepts every
      point `visitPerimeter` emits. A box of other dimensions than the
      curve's fails in `index` at its first point, and a box of no
      dimensions, which emits nothing, fails in `getRange`. */
  method ToRange(c: Curve, g: Skilling, box: Box) returns (r: Result<Range>)
    requires c.Valid() && |box.a| == |box.b|
    ensures r == if |box.a| == c.dimensions then Ok(BoxRange(c, g, box))
                 else if |box.a| == 0 then Err(NullPointer)
                 else Err(IllegalArgument)
  {
    var visitor := new Visitor(c, g);
    var points := VisitPerimeter(box);
    PerimeterShape(box);
    for k := 0 to |points|
      invariant visitor.Valid() && visitor.curve == c && visitor.transform == g
      invariant |box.a| == c.dimensions ==> visitor.seen == Indexes(c, g, points[..k])
      invariant |box.a| != c.dimensions ==> k == 0 && visitor.seen == []
    {
      var accepted := visitor.Accept(points[k]);
      if accepted.Err? {
        return Err(accepted.error);
      }
      IndexesSnoc(c, g, points, k);
    }
    if |box.a| == c.dimensions {
      assert visitor.seen == SurfaceIndexes(c, g, box) by {
        assert points[..|points|] == points;
      }
      r := visitor.GetRange();
      ExtremesUnique(visitor.seen, r.value.low, r.value.high);
      return;
    } else if |box.a| > 0 {
      PerimeterNonEmpty(box);
      assert false;
    }
    r := visitor.GetRange();
  }

  /** The range of each box. */
  function BoxRanges(c: Curve, g: Skilling, boxes: seq<Box>): (r: seq<Range>)
    requires c.Valid() && Shaped(boxes, c.dimensions, c.dimensions)
    ensures |r| == |boxes|
    decreases |boxes|
  {
    if |boxes| == 0 then []
    else
      var n := |boxes| - 1;
      assert Shaped(boxes[..n], c.dimensions, c.dimensions);
      BoxRanges(c, g, boxes[..n]) + [BoxRange(c, g, boxes[n])]
  }

  /** The `k`th range is the range of the `k`th box. */
  lemma {:induction false} BoxRangesAt(c: Curve, g: Skilling, boxes: seq<Box>, k: nat)
    requires c.Valid() && Shaped(boxes, c.dimensions, c.dimensions) && k < |boxes|
    ensures BoxRanges(c, g, boxes)[k] == BoxRange(c, g, boxes[k])
    decreases |boxes|
  {
    var n := |boxes| - 1;
    if k < n {
      var front := boxes[..n];
      assert Shaped(front, c.dimensions, c.dimensions);
      assert BoxRanges(c, g, front)[k] == BoxRange(c, g, front[k]) by {
        BoxRangesAt(c, g, front, k);
      }
      assert front[k] == boxes[k];
    }
  }

  /** What `query(a, b, splitDepth)` returns. */
  function QuerySpec(c: Curve, g: Skilling, msb: Msb, a: seq<Long>, b: seq<Long>, splitDepth: int): (r: Result<seq<Range>>)
    requires c.Valid()
    ensures r.Ok? <==>
      |a| == c.dimensions && |b| == c.dimensions && splitDepth >= 0 && SplitSpec(msb, a, b, splitDepth).Ok?
  {
    if |a| != c.dimensions || |b| != c.dimensions || splitDepth < 0 then Err(IllegalArgument)
    else
      match SplitSpec(msb, a, b, splitDepth)
      case Err(e) => Err(e)
      case Ok(boxes) => Ok(Merge(SortByLow(BoxRanges(c, g, boxes))))
  }

  /** The ranges of the first `k + 1` boxes extend those of the first `k`. */
  lemma BoxRangesExtend(c: Curve, g: Skilling, boxes: seq<Box>, k: nat)
    requires c.Valid() && Shaped(boxes, c.dimensions, c.dimensions) && k < |boxes|
    ensures Shaped(boxes[..k], c.dimensions, c.dimensions)
    ensures Shaped(boxes[..k + 1], c.dimensions, c.dimensions)
    ensures BoxRanges(c, g, boxes[..k + 1]) == BoxRanges(c, g, boxes[..k]) + [BoxRange(c, g, boxes[k])]
  {
    assert boxes[..k + 1][..k] == boxes[..k];
    BoxRangesSnoc(c, g, boxes[..k + 1]);
  }

  /** `query(a, b, splitDepth)`: checks its arguments, splits the box, maps
      each part to its range, sorts the ranges by low end and reduces them. */
  method Query(c: Curve, g: Skilling, msb: Msb, a: seq<Long>, b: seq<Long>, splitDepth: Int)
    returns (r: Result<seq<Range>>)
    requires c.Valid()
    ensures r == QuerySpec(c, g, msb, a, b, splitDepth)
  {
    if |a| != c.dimensions || |b| != c.dimensions || splitDepth < 0 {
      return Err(IllegalArgument);
    }
    var boxes := Split(msb, a, b, splitDepth);
    if boxes.Err? {
      return Err(boxes.error);
    }
    var parts := boxes.value;
    var ranges: seq<Range> := [];
    for k := 0 to |parts|
      invariant Shaped(parts[..k], c.dimensions, c.dimensions)
      invariant ranges == BoxRanges(c, g, parts[..k])
    {
      var range := ToRange(c, g, parts[k]);
      BoxRangesExtend(c, g, parts, k);
      ranges := ranges + [range.value];
    }
    assert parts[..|parts|] == parts;
    var sorted := SortByLow(ranges);
    var list := Reduce(sorted);
    return Ok(list);
  }

  // ---------------------------------------------------------------------
  // toRange and query as written: the perimeter of a box of one coordinate
  // is visited through a box of no dimensions, where `visitBox` throws.
  // ---------------------------------------------------------------------

  /** `toRange(box, SCAN_ENTIRE_PERIMETER)` as written: the perimeter walk
      throws before any point reaches the visitor, or the visitor sees the
      surface points and returns their least and greatest index; a box of
      other dimensions than the curve's fails in `index`, and a box with no
      points fails in `getRange`. */
  function ToRangeAsWritten(c: Curve, g: Skilling, box: Box): (r: Result<Range>)
    requires c.Valid() && |box.a| == |box.b|
    ensures |box.a| == 1 ==> r == Err(ArrayIndexOutOfBounds)
    ensures |box.a| != 1 ==> r == if |box.a| == c.dimensions then Ok(BoxRange(c, g, box))
                                  else if |box.a| == 0 then Err(NullPointer)
                                  else Err(IllegalArgument)
  {
    PerimeterAsWrittenAgrees(box);
    assert |box.a| > 1 ==> |PerimeterPoints(box)| > 0 by {
      if |box.a| > 1 {
        PerimeterNonEmpty(box);
      }
    }
    match PerimeterAsWritten(box)
    case Err(e) => Err(e)
    case Ok(ps) =>
      if |box.a| == c.dimensions then Ok(BoxRange(c, g, box))
      else if |ps| == 0 then Err(NullPointer)
      else Err(IllegalArgument)
  }

  /** The map of `query` through `toRange` as written, one box after the
      other; the first box that throws ends the stream. */
  function RangesAsWritten(c: Curve, g: Skilling, boxes: seq<Box>): Result<seq<Range>>
    requires c.Valid() && forall k :: 0 <= k < |boxes| ==> |boxes[k].a| == |boxes[k].b|
    decreases |boxes|
  {
    if |boxes| == 0 then Ok([])
    else
      match RangesAsWritten(c, g, boxes[..|boxes| - 1])
      case Err(e) => Err(e)
      case Ok(rs) =>
        match ToRangeAsWritten(c, g, boxes[|boxes| - 1])
        case Err(e) => Err(e)
        case Ok(r) => Ok(rs + [r])
  }

  /** `query(a, b, splitDepth)` as written. */
  function QueryAsWritten(c: Curve, g: Skilling, msb: Msb, a: seq<Long>, b: seq<Long>, splitDepth: int): Result<seq<Range>>
    requires c.Valid()
  {
    if |a| != c.dimensions || |b| != c.dimensions || splitDepth < 0 then Err(IllegalArgument)
    else
      match SplitSpec(msb, a, b, splitDepth)
      case Err(e) => Err(e)
      case Ok(boxes) =>
        match RangesAsWritten(c, g, boxes)
        case Err(e) => Err(e)
        case Ok(rs) => Ok(Merge(SortByLow(rs)))
  }

  /** The ranges of boxes, one box longer. */
  lemma BoxRangesSnoc(c: Curve, g: Skilling, boxes: seq<Box>)
    requires c.Valid() && Shaped(boxes, c.dimensions, c.dimensions) && |boxes| > 0
    ensures Shaped(boxes[..|boxes| - 1], c.dimensions, c.dimensions)
    ensures BoxRanges(c, g, boxes) ==
      BoxRanges(c, g, boxes[..|boxes| - 1]) + [BoxRange(c, g, boxes[|boxes| - 1])]
  {
  }

  /** The as-written map, one box longer, when neither part throws. */
  lemma RangesAsWrittenSnoc(c: Curve, g: Skilling, boxes: seq<Box>, rs: seq<Range>, r: Range)
    requires c.Valid() && forall k :: 0 <= k < |boxes| ==> |boxes[k].a| == |boxes[k].b|
    requires |boxes| > 0
    requires RangesAsWritten(c, g, boxes[..|boxes| - 1]) == Ok(rs)
    requires ToRangeAsWritten(c, g, boxes[|boxes| - 1]) == Ok(r)
    ensures RangesAsWritten(c, g, boxes) == Ok(rs + [r])
  {
  }

  /** One more box of the curve's dimensions keeps the as-written map in step
      with the model. */
  lemma RangesAsWrittenStep(c: Curve, g: Skilling, boxes: seq<Box>)
    requires c.Valid() && c.dimensions != 1 && Shaped(boxes, c.dimensions, c.dimensions)
    requires |boxes| > 0
    requires Shaped(boxes[..|boxes| - 1], c.dimensions, c.dimensions)
    requires RangesAsWritten(c, g, boxes[..|boxes| - 1]) == Ok(BoxRanges(c, g, boxes[..|boxes| - 1]))
    ensures RangesAsWritten(c, g, boxes) == Ok(BoxRanges(c, g, boxes))
  {
    var n := |boxes| - 1;
    var r := BoxRange(c, g, boxes[n]);
    assert ToRangeAsWritten(c, g, boxes[n]) == Ok(r);
    RangesAsWrittenSnoc(c, g, boxes, BoxRanges(c, g, boxes[..n]), r);
    BoxRangesSnoc(c, g, boxes);
  }

  /** On a curve of at least two dimensions every box of a split maps to its
      range, as in the model. */
  lemma {:induction false} RangesAsWrittenAgrees(c: Curve, g: Skilling, boxes: seq<Box>)
    requires c.Valid() && c.dimensions != 1 && Shaped(boxes, c.dimensions, c.dimensions)
    ensures RangesAsWritten(c, g, boxes) == Ok(BoxRanges(c, g, boxes))
    decreases |boxes|
  {
    if |boxes| > 0 {
      var front := boxes[..|boxes| - 1];
      assert Shaped(front, c.dimensions, c.dimensions);
      RangesAsWrittenAgrees(c, g, front);
      RangesAsWrittenStep(c, g, boxes);
    }
  }

  /** On a curve of one dimension the first box already throws. */
  lemma {:induction false} RangesAsWrittenFailsOnLine(c: Curve, g: Skilling, boxes: seq<Box>)
    requires c.Valid() && c.dimensions == 1 && Shaped(boxes, 1, 1) && |boxes| > 0
    ensures RangesAsWritten(c, g, boxes) == Err(ArrayIndexOutOfBounds)
    decreases |boxes|
  {
    var n := |boxes| - 1;
    if n > 0 {
      RangesAsWrittenFailsOnLine(c, g, boxes[..n]);
    }
  }

  /** On a curve of at least two dimensions the source's `query` is the
      model's. */
  lemma QueryAsWrittenAgrees(c: Curve, g: Skilling, msb: Msb, a: seq<Long>, b: seq<Long>, splitDepth: int)
    requires c.Valid() && c.dimensions != 1
    ensures QueryAsWritten(c, g, msb, a, b, splitDepth) == QuerySpec(c, g, msb, a, b, splitDepth)
  {
    if |a| == c.dimensions && |b| == c.dimensions && splitDepth >= 0 && SplitSpec(msb, a, b, splitDepth).Ok? {
      RangesAsWrittenAgrees(c, g, SplitSpec(msb, a, b, splitDepth).value);
    }
  }

  /** On a curve of one dimension every call of the source's `query` that
      the model answers throws out-of-bounds instead, e.g. the depth-0 query
      of the line segment [0, 1]. */
  lemma QueryAsWrittenFailsOnLine(c: Curve, g: Skilling, msb: Msb, a: seq<Long>, b: seq<Long>, splitDepth: int)
    requires c.Valid() && c.dimensions == 1
    requires QuerySpec(c, g, msb, a, b, splitDepth).Ok?
    ensures QueryAsWritten(c, g, msb, a, b, splitDepth) == Err(ArrayIndexOutOfBounds)
  {
    SplitCount(msb, a, b, splitDepth);
    RangesAsWrittenFailsOnLine(c, g, SplitSpec(msb, a, b, splitDepth).value);
  }

  /** The smallest instance: one bit, one dimension, the box [0, 1]. */
  lemma QueryAsWrittenFailsOnUnitLine(g: Skilling, msb: Msb)
    ensures QuerySpec(Curve(1, 1, 1), g, msb, [0], [1], 0).Ok?
    ensures QueryAsWritten(Curve(1, 1, 1), g, msb, [0], [1], 0) == Err(ArrayIndexOutOfBounds)
  {
    QueryDepthZero(Curve(1, 1, 1), g, msb, [0], [1]);
    QueryAsWrittenFailsOnLine(Curve(1, 1, 1), g, msb, [0], [1], 0);
  }

  /** `query` refuses exactly the wrong arities and a negative depth with
      an illegal argument; otherwise it fails only when
      `mostSignificantBetween` answers outside a box's range. */
  lemma QueryErrors(c: Curve, g: Skilling, msb: Msb, a: seq<Long>, b: seq<Long>, splitDepth: int)
    requires c.Valid()
    ensures QuerySpec(c, g, msb, a, b, splitDepth) == Err(IllegalArgument) <==>
      |a| != c.dimensions || |b| != c.dimensions || splitDepth < 0
    ensures QuerySpec(c, g, msb, a, b, splitDepth).Err? ==>
      QuerySpec(c, g, msb, a, b, splitDepth).error in {IllegalArgument, SigBetweenOutOfRange}
  {
    if |a| == c.dimensions && |b| == c.dimensions && SplitSpec(msb, a, b, splitDepth).Err? {
      SplitError(msb, a, b, splitDepth);
    }
  }

  /** The ranges of a query are sorted by low end, pairwise separated by a
      gap, and no more than the 2^(splitDepth * dimensions) boxes. */
  lemma QueryShape(c: Curve, g: Skilling, msb: Msb, a: seq<Long>, b: seq<Long>, splitDepth: int)
    requires c.Valid() && QuerySpec(c, g, msb, a, b, splitDepth).Ok?
    ensures SortedByLow(QuerySpec(c, g, msb, a, b, splitDepth).value)
    ensures Separated(QuerySpec(c, g, msb, a, b, splitDepth).value)
    ensures 0 < |QuerySpec(c, g, msb, a, b, splitDepth).value| <= |SplitSpec(msb, a, b, splitDepth).value|
  {
    var boxes := SplitSpec(msb, a, b, splitDepth).value;
    var ranges := BoxRanges(c, g, boxes);
    var sorted := SortByLow(ranges);
    MergeProperties(sorted);
    SplitCount(msb, a, b, splitDepth);
    assert |sorted| == |multiset(sorted)| == |multiset(ranges)| == |ranges|;
  }

  /** At depth 0 the query is the single range of the whole box: from the
      least to the greatest index on its surface. */
  lemma QueryDepthZero(c: Curve, g: Skilling, msb: Msb, a: seq<Long>, b: seq<Long>)
    requires c.Valid() && |a| == |b| == c.dimensions
    ensures QuerySpec(c, g, msb, a, b, 0) == Ok([BoxRange(c, g, Box(a, b))])
  {
    SplitDepthZero(msb, a, b);
    var r := BoxRange(c, g, Box(a, b));
    var rs := BoxRanges(c, g, [Box(a, b)]);
    assert rs == [r];
    var sorted := SortByLow(rs);
    assert sorted == [r] by {
      assert |multiset(sorted)| == 1;
      assert sorted[0] in multiset(rs);
    }
    assert MergeFrom(None, [r]) == MergeFrom(Some(r), []) == [r];
  }

  /** A value in the range of one box is covered by the query. */
  lemma BoxRangeReachesQuery(c: Curve, g: Skilling, msb: Msb, a: seq<Long>, b: seq<Long>, splitDepth: int, k: nat, x: int)
    requires c.Valid() && QuerySpec(c, g, msb, a, b, splitDepth).Ok?
    requires k < |SplitSpec(msb, a, b, splitDepth).value|
    requires BoxRange(c, g, SplitSpec(msb, a, b, splitDepth).value[k]).Contains(x)
    ensures Covers(QuerySpec(c, g, msb, a, b, splitDepth).value, x)
  {
    var boxes := SplitSpec(msb, a, b, splitDepth).value;
    var ranges := BoxRanges(c, g, boxes);
    var sorted := SortByLow(ranges);
    assert QuerySpec(c, g, msb, a, b, splitDepth).value == MergeFrom(None, sorted);
    assert ranges[k].Contains(x) by {
      BoxRangesAt(c, g, boxes, k);
    }
    CoversPermutation(ranges, sorted, x);
    MergeFromComplete(None, sorted, x);
  }

  /** Every range of a query is covered by the ranges of the boxes. */
  lemma QuerySound(c: Curve, g: Skilling, msb: Msb, a: seq<Long>, b: seq<Long>, splitDepth: int, x: int)
    requires c.Valid() && QuerySpec(c, g, msb, a, b, splitDepth).Ok?
    requires Covers(QuerySpec(c, g, msb, a, b, splitDepth).value, x)
    ensures Covers(BoxRanges(c, g, SplitSpec(msb, a, b, splitDepth).value), x)
  {
    var boxes := SplitSpec(msb, a, b, splitDepth).value;
    var ranges := BoxRanges(c, g, boxes);
    var sorted := SortByLow(ranges);
    assert QuerySpec(c, g, msb, a, b, splitDepth).value == MergeFrom(None, sorted);
    MergeFromSound(None, sorted, x);
    CoversPermutation(ranges, sorted, x);
  }

  /** The index of every surface point of every box is covered by the
      query. */
  lemma QueryCoversSurfaces(c: Curve, g: Skilling, msb: Msb, a: seq<Long>, b: seq<Long>, splitDepth: int, k: nat, p: seq<Long>)
    requires c.Valid() && QuerySpec(c, g, msb, a, b, splitDepth).Ok?
    requires k < |SplitSpec(msb, a, b, splitDepth).value|
    requires OnSurface(p, SplitSpec(msb, a, b, splitDepth).value[k])
    ensures Covers(QuerySpec(c, g, msb, a, b, splitDepth).value, IndexOf(c, g, p))
  {
    BoxRangeBounds(c, g, SplitSpec(msb, a, b, splitDepth).value[k]);
    BoxRangeReachesQuery(c, g, msb, a, b, splitDepth, k, IndexOf(c, g, p));
  }

  /** The premise the source relies on: the least and greatest index of the
      points of a box lie on its surface. */
  ghost predicate ExtremesOnSurface(c: Curve, g: Skilling, box: Box)
    requires c.Valid() && |box.a| == |box.b| == c.dimensions
  {
    forall p: seq<Long> :: InBox(p, box) ==> BoxRange(c, g, box).Contains(IndexOf(c, g, p))
  }

  /** Where that premise holds for every box of the split, the query covers
      the index of every point of the queried box. */
  lemma QueryCoversBox(c: Curve, g: Skilling, msb: Msb, a: seq<Long>, b: seq<Long>, splitDepth: int, p: seq<Long>)
    requires c.Valid() && QuerySpec(c, g, msb, a, b, splitDepth).Ok?
    requires forall k :: 0 <= k < |SplitSpec(msb, a, b, splitDepth).value| ==>
      ExtremesOnSurface(c, g, SplitSpec(msb, a, b, splitDepth).value[k])
    requires InBox(p, Box(a, b))
    ensures Covers(QuerySpec(c, g, msb, a, b, splitDepth).value, IndexOf(c, g, p))
  {
    var boxes := SplitSpec(msb, a, b, splitDepth).value;
    assert InSome(p, boxes) by {
      SplitCovers(msb, a, b, splitDepth, p);
    }
    var k :| 0 <= k < |boxes| && InBox(p, boxes[k]);
    assert BoxRange(c, g, boxes[k]).Contains(IndexOf(c, g, p)) by {
      assert Shaped(boxes, c.dimensions, c.dimensions);
      assert ExtremesOnSurface(c, g, boxes[k]);
    }
    BoxRangeReachesQuery(c, g, msb, a, b, splitDepth, k, IndexOf(c, g, p));
  }
}
