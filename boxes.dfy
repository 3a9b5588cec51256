/** Boxes and `split`, which bisects a box along every dimension in turn,
    `splitDepth` times, at the boundary `Util.mostSignificantBetween` picks. */
module Boxes {
  import opened JavaLang
  import opened Bits
  import opened Arith

  /** An axis-aligned box given by two opposite corners, in either order. */
  datatype Box = Box(a: seq<Long>, b: seq<Long>)
  {
    /** `Math.min(a[i], b[i])` */
    function Lower(i: nat): Long
      requires i < |a| && i < |b|
    {
      if a[i] <= b[i] then a[i] else b[i]
    }

    /** `Math.max(a[i], b[i])` */
    function Upper(i: nat): Long
      requires i < |a| && i < |b|
    {
      if a[i] <= b[i] then b[i] else a[i]
    }
  }

  /** `Util.mostSignificantBetween`, which is not part of this model: any
      function of the two bounds. */
  type Msb = (int, int) -> int

  /** `p` is a lattice point of `box`. */
  predicate InBox(p: seq<int>, box: Box)
  {
    |p| == |box.a| <= |box.b| &&
    forall j :: 0 <= j < |p| ==> box.Lower(j) <= p[j] <= box.Upper(j)
  }

  /** Some box of `boxes` holds `p`. */
  predicate InSome(p: seq<int>, boxes: seq<Box>)
  {
    exists k :: 0 <= k < |boxes| && InBox(p, boxes[k])
  }

  /** Every box has corners of lengths `n` and `m`. */
  predicate Shaped(boxes: seq<Box>, n: nat, m: nat)
  {
    forall k :: 0 <= k < |boxes| ==> |boxes[k].a| == n && |boxes[k].b| == m
  }

  /** The split point along dimension `i`: `mostSignificantBetween(low + 1,
      high + 1) - 1`. */
  function SigBetween(msb: Msb, box: Box, i: nat): int
    requires i < |box.a| && i < |box.b|
  {
    msb(box.Lower(i) + 1, box.Upper(i) + 1) - 1
  }

  /** One box of `split`'s innermost loop: the two halves along dimension
      `i`, or the error the source throws. */
  function Halve(msb: Msb, box: Box, i: nat): (r: Result<(Box, Box)>)
    requires i < |box.a|
    ensures r.Ok? ==> |r.value.0.a| == |r.value.1.a| == |box.a|
    ensures r.Ok? ==> |r.value.0.b| == |r.value.1.b| == |box.b|
  {
    if i >= |box.b| then Err(ArrayIndexOutOfBounds)
    else
      var low, high := box.Lower(i), box.Upper(i);
      var sig := SigBetween(msb, box, i);
      if low > sig || high < sig then Err(SigBetweenOutOfRange)
      else
        var next: Long := if sig + 1 <= high then sig + 1 else high;
        Ok((Box(box.a[i := low], box.b[i := sig]), Box(box.a[i := next], box.b[i := high])))
  }

  /** Halving succeeds exactly when the split point lies in `[low, high]`;
      the halves are `[low, sigBetween]` and `[min(sigBetween + 1, high),
      high]` along `i`, and copy every other coordinate. */
  lemma HalveChildren(msb: Msb, box: Box, i: nat)
    requires i < |box.a| && i < |box.b|
    ensures Halve(msb, box, i).Ok? <==>
      box.Lower(i) <= SigBetween(msb, box, i) <= box.Upper(i)
    ensures Halve(msb, box, i).Err? ==> Halve(msb, box, i).error == SigBetweenOutOfRange
    ensures Halve(msb, box, i).Ok? ==>
      var (x, y) := Halve(msb, box, i).value;
      var sig := SigBetween(msb, box, i);
      x.Lower(i) == box.Lower(i) && x.Upper(i) == sig &&
      y.Lower(i) == (if sig + 1 <= box.Upper(i) then sig + 1 else box.Upper(i)) &&
      y.Upper(i) == box.Upper(i) &&
      (forall j :: 0 <= j < |box.a| && j != i ==> x.a[j] == y.a[j] == box.a[j]) &&
      (forall j :: 0 <= j < |box.b| && j != i ==> x.b[j] == y.b[j] == box.b[j])
  {
  }

  /** A point is in the box exactly when it is in one of its halves. */
  lemma {:induction false} HalveCovers(msb: Msb, box: Box, i: nat, p: seq<int>)
    requires i < |box.a| && Halve(msb, box, i).Ok?
    ensures InBox(p, box) <==> InBox(p, Halve(msb, box, i).value.0) || InBox(p, Halve(msb, box, i).value.1)
  {
    var (x, y) := Halve(msb, box, i).value;
    HalveChildren(msb, box, i);
    if |p| == |box.a| <= |box.b| {
      assert forall j :: 0 <= j < |p| && j != i ==>
        x.Lower(j) == y.Lower(j) == box.Lower(j) && x.Upper(j) == y.Upper(j) == box.Upper(j);
    }
  }

  /** The list `boxes2` after the loop over `boxes`: the halves of each box
      along `i`, in order, or the error of the first box that fails. */
  function HalveAll(msb: Msb, boxes: seq<Box>, i: nat): (r: Result<seq<Box>>)
    requires forall k :: 0 <= k < |boxes| ==> i < |boxes[k].a|
    ensures r.Ok? ==> |r.value| == 2 * |boxes|
    decreases |boxes|
  {
    if |boxes| == 0 then Ok([])
    else
      var front := boxes[..|boxes| - 1];
      match HalveAll(msb, front, i)
      case Err(e) => Err(e)
      case Ok(done) =>
        match Halve(msb, boxes[|boxes| - 1], i)
        case Err(e) => Err(e)
        case Ok((x, y)) => Ok(done + [x, y])
  }

  /** The halves keep the corner lengths of the boxes they come from. */
  lemma {:induction false} HalveAllShaped(msb: Msb, boxes: seq<Box>, i: nat, n: nat, m: nat)
    requires forall k :: 0 <= k < |boxes| ==> i < |boxes[k].a|
    requires Shaped(boxes, n, m) && HalveAll(msb, boxes, i).Ok?
    ensures Shaped(HalveAll(msb, boxes, i).value, n, m)
    decreases |boxes|
  {
    if |boxes| > 0 {
      HalveAllShaped(msb, boxes[..|boxes| - 1], i, n, m);
    }
  }

  /** Once a box fails, the whole pass fails with its error. */
  lemma {:induction false} HalveAllFails(msb: Msb, boxes: seq<Box>, i: nat, k: nat)
    requires forall j :: 0 <= j < |boxes| ==> i < |boxes[j].a|
    requires k <= |boxes| && HalveAll(msb, boxes[..k], i).Err?
    ensures HalveAll(msb, boxes, i) == HalveAll(msb, boxes[..k], i)
    decreases |boxes| - k
  {
    if k < |boxes| {
      assert boxes[..k + 1][..k] == boxes[..k];
      HalveAllFails(msb, boxes, i, k + 1);
    } else {
      assert boxes[..k] == boxes;
    }
  }

  lemma InSomeConcat(p: seq<int>, s: seq<Box>, t: seq<Box>)
    ensures InSome(p, s + t) <==> InSome(p, s) || InSome(p, t)
  {
    var st := s + t;
    if InSome(p, st) {
      var k :| 0 <= k < |st| && InBox(p, st[k]);
      if k < |s| {
        assert st[k] == s[k];
      } else {
        assert st[k] == t[k - |s|];
      }
    }
    if InSome(p, s) {
      var k :| 0 <= k < |s| && InBox(p, s[k]);
      assert st[k] == s[k];
    }
    if InSome(p, t) {
      var k :| 0 <= k < |t| && InBox(p, t[k]);
      assert st[k + |s|] == t[k];
    }
  }

  /** A pass keeps exactly the points of the boxes it halves. */
  lemma {:induction false} HalveAllCovers(msb: Msb, boxes: seq<Box>, i: nat, p: seq<int>)
    requires forall k :: 0 <= k < |boxes| ==> i < |boxes[k].a|
    requires HalveAll(msb, boxes, i).Ok?
    ensures InSome(p, boxes) <==> InSome(p, HalveAll(msb, boxes, i).value)
    decreases |boxes|
  {
    if |boxes| > 0 {
      var front := boxes[..|boxes| - 1];
      var last := boxes[|boxes| - 1];
      var done := HalveAll(msb, front, i).value;
      var (x, y) := Halve(msb, last, i).value;
      HalveAllCovers(msb, front, i, p);
      HalveCovers(msb, last, i, p);
      assert boxes == front + [last];
      InSomeConcat(p, front, [last]);
      InSomeConcat(p, done, [x, y]);
      assert InSome(p, [last]) <==> InBox(p, last) by {
        assert [last][0] == last;
      }
      assert InSome(p, [x, y]) <==> InBox(p, x) || InBox(p, y) by {
        assert [x, y][0] == x && [x, y][1] == y;
      }
    }
  }

  /** `split`'s boxes after `rounds` complete rounds and then the first
      `i` dimensions of the next one; every box has the corner lengths of
      `box`, and there are 2^(rounds * dimensions + i) of them. */
  function SplitUpTo(msb: Msb, box: Box, rounds: nat, i: nat): (r: Result<seq<Box>>)
    requires i <= |box.a|
    ensures r.Ok? ==> Shaped(r.value, |box.a|, |box.b|)
    decreases rounds, i
  {
    if i == 0 then
      if rounds == 0 then Ok([box]) else SplitUpTo(msb, box, rounds - 1, |box.a|)
    else
      match SplitUpTo(msb, box, rounds, i - 1)
      case Err(e) => Err(e)
      case Ok(boxes) =>
        var r := HalveAll(msb, boxes, i - 1);
        if r.Ok? then HalveAllShaped(msb, boxes, i - 1, |box.a|, |box.b|); r else r
  }

  /** `split(a, b, splitDepth)`: a negative depth runs no round. */
  function SplitSpec(msb: Msb, a: seq<Long>, b: seq<Long>, splitDepth: int): (r: Result<seq<Box>>)
    ensures r.Ok? ==> Shaped(r.value, |a|, |b|)
  {
    SplitUpTo(msb, Box(a, b), if splitDepth > 0 then splitDepth else 0, 0)
  }

  /** Depth 0 gives the input box alone. */
  lemma SplitDepthZero(msb: Msb, a: seq<Long>, b: seq<Long>)
    ensures SplitSpec(msb, a, b, 0) == Ok([Box(a, b)])
  {
  }

  /** The number of halving passes in `rounds` rounds over `n` dimensions
      and `i` more. */
  function Passes(n: nat, rounds: nat, i: nat): nat
  {
    if i > 0 then Passes(n, rounds, i - 1) + 1
    else if rounds > 0 then Passes(n, rounds - 1, n)
    else 0
  }

  lemma {:induction false} PassesIsProduct(n: nat, rounds: nat, i: nat)
    ensures Passes(n, rounds, i) == rounds * n + i
    decreases rounds, i
  {
    if i > 0 {
      PassesIsProduct(n, rounds, i - 1);
    } else if rounds > 0 {
      PassesIsProduct(n, rounds - 1, n);
      MulSucc(rounds - 1, n);
    }
  }

  /** Each pass doubles the number of boxes. */
  lemma {:induction false} SplitUpToCount(msb: Msb, box: Box, rounds: nat, i: nat)
    requires i <= |box.a| && SplitUpTo(msb, box, rounds, i).Ok?
    ensures |SplitUpTo(msb, box, rounds, i).value| == Pow2(Passes(|box.a|, rounds, i))
    decreases rounds, i
  {
    if i > 0 {
      SplitUpToCount(msb, box, rounds, i - 1);
    } else if rounds > 0 {
      SplitUpToCount(msb, box, rounds - 1, |box.a|);
    }
  }

  /** `split` returns exactly 2^(splitDepth * dimensions) boxes. */
  lemma SplitCount(msb: Msb, a: seq<Long>, b: seq<Long>, splitDepth: nat)
    requires SplitSpec(msb, a, b, splitDepth).Ok?
    ensures |SplitSpec(msb, a, b, splitDepth).value| == Pow2(splitDepth * |a|)
  {
    SplitUpToCount(msb, Box(a, b), splitDepth, 0);
    PassesIsProduct(|a|, splitDepth, 0);
  }

  lemma {:induction false} SplitUpToCovers(msb: Msb, box: Box, rounds: nat, i: nat, p: seq<int>)
    requires i <= |box.a| && SplitUpTo(msb, box, rounds, i).Ok?
    ensures InBox(p, box) <==> InSome(p, SplitUpTo(msb, box, rounds, i).value)
    decreases rounds, i
  {
    if i == 0 {
      if rounds > 0 {
        SplitUpToCovers(msb, box, rounds - 1, |box.a|, p);
      } else {
        assert [box][0] == box;
      }
    } else {
      SplitUpToCovers(msb, box, rounds, i - 1, p);
      var boxes := SplitUpTo(msb, box, rounds, i - 1).value;
      HalveAllCovers(msb, boxes, i - 1, p);
    }
  }

  /** The boxes of `split` hold exactly the points of the input box. */
  lemma SplitCovers(msb: Msb, a: seq<Long>, b: seq<Long>, splitDepth: int, p: seq<int>)
    requires SplitSpec(msb, a, b, splitDepth).Ok?
    ensures InBox(p, Box(a, b)) <==> InSome(p, SplitSpec(msb, a, b, splitDepth).value)
  {
    SplitUpToCovers(msb, Box(a, b), if splitDepth > 0 then splitDepth else 0, 0, p);
  }

  /** With corners of equal length, the only way a pass fails is a split
      point outside its box. */
  lemma {:induction false} HalveAllError(msb: Msb, boxes: seq<Box>, i: nat)
    requires forall k :: 0 <= k < |boxes| ==> i < |boxes[k].a| <= |boxes[k].b|
    requires HalveAll(msb, boxes, i).Err?
    ensures HalveAll(msb, boxes, i).error == SigBetweenOutOfRange
    decreases |boxes|
  {
    var front := boxes[..|boxes| - 1];
    if HalveAll(msb, front, i).Err? {
      HalveAllError(msb, front, i);
    } else {
      HalveChildren(msb, boxes[|boxes| - 1], i);
    }
  }

  lemma {:induction false} SplitUpToError(msb: Msb, box: Box, rounds: nat, i: nat)
    requires i <= |box.a| <= |box.b| && SplitUpTo(msb, box, rounds, i).Err?
    ensures SplitUpTo(msb, box, rounds, i).error == SigBetweenOutOfRange
    decreases rounds, i
  {
    if i == 0 {
      SplitUpToError(msb, box, rounds - 1, |box.a|);
    } else if SplitUpTo(msb, box, rounds, i - 1).Err? {
      SplitUpToError(msb, box, rounds, i - 1);
    } else {
      HalveAllError(msb, SplitUpTo(msb, box, rounds, i - 1).value, i - 1);
    }
  }

  /** `split` of a box whose corners have the same length fails only when
      `mostSignificantBetween` answers outside a box's range. */
  lemma SplitError(msb: Msb, a: seq<Long>, b: seq<Long>, splitDepth: int)
    requires |a| == |b| && SplitSpec(msb, a, b, splitDepth).Err?
    ensures SplitSpec(msb, a, b, splitDepth).error == SigBetweenOutOfRange
  {
    SplitUpToError(msb, Box(a, b), if splitDepth > 0 then splitDepth else 0, 0);
  }

  /** The pass over the first `k + 1` boxes extends the pass over the first `k`. */
  lemma HalveAllSnoc(msb: Msb, boxes: seq<Box>, i: nat, k: nat, done: seq<Box>)
    requires forall j :: 0 <= j < |boxes| ==> i < |boxes[j].a|
    requires k < |boxes| && HalveAll(msb, boxes[..k], i) == Ok(done)
    ensures Halve(msb, boxes[k], i).Err? ==> HalveAll(msb, boxes[..k + 1], i) == Err(Halve(msb, boxes[k], i).error)
    ensures Halve(msb, boxes[k], i).Ok? ==>
      HalveAll(msb, boxes[..k + 1], i) == Ok(done + [Halve(msb, boxes[k], i).value.0, Halve(msb, boxes[k], i).value.1])
  {
    assert boxes[..k + 1][..k] == boxes[..k];
  }

  /** One pass of `split`'s inner loop halves along dimension `i`. */
  lemma SplitUpToNext(msb: Msb, box: Box, rounds: nat, i: nat, boxes: seq<Box>)
    requires i < |box.a| && SplitUpTo(msb, box, rounds, i) == Ok(boxes)
    ensures forall j :: 0 <= j < |boxes| ==> i < |boxes[j].a|
    ensures SplitUpTo(msb, box, rounds, i + 1) == HalveAll(msb, boxes, i)
  {
  }

  /** A round ends after the last dimension; the next starts from its boxes. */
  lemma SplitUpToRound(msb: Msb, box: Box, rounds: nat)
    ensures SplitUpTo(msb, box, rounds + 1, 0) == SplitUpTo(msb, box, rounds, |box.a|)
  {
  }

  /** Once a pass fails, `split` fails with that pass's error. */
  lemma {:induction false} SplitUpToFails(msb: Msb, box: Box, rounds: nat, i: nat, rounds2: nat, i2: nat)
    requires i <= |box.a| && i2 <= |box.a|
    requires rounds < rounds2 || (rounds == rounds2 && i <= i2)
    requires SplitUpTo(msb, box, rounds, i).Err?
    ensures SplitUpTo(msb, box, rounds2, i2) == SplitUpTo(msb, box, rounds, i)
    decreases rounds2, i2
  {
    if rounds == rounds2 && i == i2 {
    } else if i2 > 0 {
      SplitUpToFails(msb, box, rounds, i, rounds2, i2 - 1);
    } else {
      SplitUpToFails(msb, box, rounds, i, rounds2 - 1, |box.a|);
    }
  }

  /** The innermost loop of `split`: halves every box of `boxes` along
      dimension `i` into the new list `boxes2`, stopping at the first box
      whose split point falls outside its bounds. */
  method HalvePass(msb: Msb, boxes: seq<Box>, i: nat) returns (r: Result<seq<Box>>)
    requires forall j :: 0 <= j < |boxes| ==> i < |boxes[j].a|
    ensures r == HalveAll(msb, boxes, i)
  {
    var boxes2 := [];
    for k := 0 to |boxes|
      invariant HalveAll(msb, boxes[..k], i) == Ok(boxes2)
    {
      var box := boxes[k];
      if i >= |box.b| {
        assert Halve(msb, box, i) == Err(ArrayIndexOutOfBounds);
        HalveAllSnoc(msb, boxes, i, k, boxes2);
        HalveAllFails(msb, boxes, i, k + 1);
        return Err(ArrayIndexOutOfBounds);
      }
      var low, high := box.Lower(i), box.Upper(i);
      var sigBetween := SigBetween(msb, box, i);
      if low > sigBetween || high < sigBetween {
        assert Halve(msb, box, i) == Err(SigBetweenOutOfRange);
        HalveAllSnoc(msb, boxes, i, k, boxes2);
        HalveAllFails(msb, boxes, i, k + 1);
        return Err(SigBetweenOutOfRange);
      }
      var a2 := box.a[i := low];
      var b2 := box.b[i := sigBetween];
      var a3 := box.a[i := if sigBetween + 1 <= high then sigBetween + 1 else high];
      var b3 := box.b[i := high];
      assert Halve(msb, box, i) == Ok((Box(a2, b2), Box(a3, b3)));
      HalveAllSnoc(msb, boxes, i, k, boxes2);
      boxes2 := boxes2 + [Box(a2, b2), Box(a3, b3)];
    }
    assert boxes[..|boxes|] == boxes;
    return Ok(boxes2);
  }

  /** One round of `split`'s outer loop: halves every box along each
      dimension in turn. */
  method SplitRound(msb: Msb, dimensions: nat, boxes: seq<Box>, ghost start: Box, ghost rounds: nat)
    returns (r: Result<seq<Box>>)
    requires dimensions == |start.a| && SplitUpTo(msb, start, rounds, 0) == Ok(boxes)
    ensures r == SplitUpTo(msb, start, rounds, dimensions)
  {
    var current := boxes;
    for i := 0 to dimensions
      invariant SplitUpTo(msb, start, rounds, i) == Ok(current)
    {
      SplitUpToNext(msb, start, rounds, i, current);
      var boxes2 := HalvePass(msb, current, i);
      if boxes2.Err? {
        SplitUpToFails(msb, start, rounds, i + 1, rounds, |start.a|);
        return boxes2;
      }
      current := boxes2.value;
    }
    return Ok(current);
  }

  /** `split`: `splitDepth` rounds; each round halves every box along each
      dimension in turn. */
  method Split(msb: Msb, a: seq<Long>, b: seq<Long>, splitDepth: Int) returns (r: Result<seq<Box>>)
    ensures r == SplitSpec(msb, a, b, splitDepth)
  {
    var dimensions := |a|;
    ghost var start := Box(a, b);
    var boxes := [Box(a, b)];
    var depth := 1;
    while depth <= splitDepth
      invariant 1 <= depth && depth - 1 <= (if splitDepth > 0 then splitDepth else 0)
      invariant SplitUpTo(msb, start, depth - 1, 0) == Ok(boxes)
      decreases splitDepth - depth
    {
      var next := SplitRound(msb, dimensions, boxes, start, depth - 1);
      SplitUpToRound(msb, start, depth - 1);
      if next.Err? {
        SplitUpToFails(msb, start, depth, 0, splitDepth, 0);
        return next;
      }
      boxes := next.value;
      depth := depth + 1;
    }
    assert depth - 1 == if splitDepth > 0 then splitDepth else 0;
    return Ok(boxes);
  }
}
