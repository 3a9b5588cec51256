/** `visitBox` and `visitPerimeter`: the lattice points of a box, and of its
    surface, in the order the source hands them to its visitor. */
module Perimeter {
  import opened JavaLang
  import opened Boxes
  import opened Seqs

  /** Points are distinct. */
  predicate NoDuplicates(ps: seq<seq<Long>>)
  {
    forall i, j :: 0 <= i < j < |ps| ==> ps[i] != ps[j]
  }

  /** `p` lies within the bounds of `box` from coordinate `dim` on. */
  predicate InBoxFrom(p: seq<Long>, box: Box, dim: nat)
    requires |p| == |box.a| == |box.b|
  {
    forall j :: dim <= j < |p| ==> box.Lower(j) <= p[j] <= box.Upper(j)
  }

  /** The points `visitBox(box, p, dim)` emits while its loop variable runs
      from `lo` up to the upper bound of `dim`, when `p` starts with
      `prefix`: each value in turn, then, below the last dimension, every
      point of the next dimensions. */
  function Rows(box: Box, dim: nat, prefix: seq<Long>, lo: int): seq<seq<Long>>
    requires dim < |box.a| == |box.b| && |prefix| == dim
    requires box.Lower(dim) <= lo
    decreases |box.a| - dim, box.Upper(dim) - lo + 1
  {
    if lo > box.Upper(dim) then []
    else
      var v: Long := lo;
      (if dim == |box.a| - 1 then [prefix + [v]]
       else Rows(box, dim + 1, prefix + [v], box.Lower(dim + 1)))
      + Rows(box, dim, prefix, lo + 1)
  }

  /** The lattice points of a box, in `visitBox`'s order. A box of no
      dimensions holds one point, the empty one. */
  function BoxPoints(box: Box): seq<seq<Long>>
    requires |box.a| == |box.b|
  {
    if |box.a| == 0 then [[]] else Rows(box, 0, [], box.Lower(0))
  }

  lemma PrefixStep(p: seq<Long>, prefix: seq<Long>, dim: nat)
    requires |prefix| == dim < |p|
    ensures p[..dim + 1] == prefix + [p[dim]] <==> p[..dim] == prefix
  {
    if p[..dim] == prefix {
      assert p[..dim + 1] == p[..dim] + [p[dim]];
    }
    if p[..dim + 1] == prefix + [p[dim]] {
      assert p[..dim] == p[..dim + 1][..dim];
    }
  }

  /** Exactly the points with the given prefix, coordinate `dim` from `lo`
      on, and every later coordinate within the box. */
  lemma {:induction false} RowsMember(box: Box, dim: nat, prefix: seq<Long>, lo: int, p: seq<Long>)
    requires dim < |box.a| == |box.b| && |prefix| == dim
    requires box.Lower(dim) <= lo
    ensures p in Rows(box, dim, prefix, lo) <==>
      |p| == |box.a| && p[..dim] == prefix && lo <= p[dim] && InBoxFrom(p, box, dim)
    decreases |box.a| - dim, box.Upper(dim) - lo + 1
  {
    var n := |box.a|;
    if lo <= box.Upper(dim) {
      var v: Long := lo;
      RowsMember(box, dim, prefix, lo + 1, p);
      if |p| == n {
        PrefixStep(p, prefix, dim);
      }
      if dim == n - 1 {
        if p == prefix + [v] {
          assert p[..dim] == prefix;
        }
        if |p| == n && p[..dim] == prefix && p[dim] == lo {
          assert p == p[..dim] + [p[dim]];
        }
      } else {
        RowsMember(box, dim + 1, prefix + [v], box.Lower(dim + 1), p);
      }
    }
  }

  /** What one value `v` of coordinate `dim` contributes. */
  function Block(box: Box, dim: nat, prefix: seq<Long>, v: Long): seq<seq<Long>>
    requires dim < |box.a| == |box.b| && |prefix| == dim
  {
    if dim == |box.a| - 1 then [prefix + [v]] else Rows(box, dim + 1, prefix + [v], box.Lower(dim + 1))
  }

  /** What the values from `lo` up to `hi - 1` of coordinate `dim`
      contribute: the points emitted so far by `visitBox`'s loop. */
  function RowsBetween(box: Box, dim: nat, prefix: seq<Long>, lo: int, hi: int): seq<seq<Long>>
    requires dim < |box.a| == |box.b| && |prefix| == dim
    requires box.Lower(dim) <= lo && hi <= box.Upper(dim) + 1
    decreases hi - lo
  {
    if hi <= lo then [] else RowsBetween(box, dim, prefix, lo, hi - 1) + Block(box, dim, prefix, hi - 1)
  }

  /** The loop's output so far followed by what remains is everything. */
  lemma {:induction false} RowsSplit(box: Box, dim: nat, prefix: seq<Long>, lo: int, hi: int)
    requires dim < |box.a| == |box.b| && |prefix| == dim
    requires box.Lower(dim) <= lo <= hi <= box.Upper(dim) + 1
    ensures RowsBetween(box, dim, prefix, lo, hi) + Rows(box, dim, prefix, hi) == Rows(box, dim, prefix, lo)
    decreases hi - lo
  {
    if lo < hi {
      RowsSplit(box, dim, prefix, lo, hi - 1);
      var v: Long := hi - 1;
      assert Rows(box, dim, prefix, hi - 1) == Block(box, dim, prefix, v) + Rows(box, dim, prefix, hi);
      Assoc(RowsBetween(box, dim, prefix, lo, hi - 1), Block(box, dim, prefix, v), Rows(box, dim, prefix, hi));
    }
  }

  /** `visitBox` reaches exactly the lattice points of the box. */
  lemma BoxPointsMember(box: Box, p: seq<Long>)
    requires |box.a| == |box.b|
    ensures p in BoxPoints(box) <==> InBox(p, box)
  {
    if |box.a| > 0 {
      RowsMember(box, 0, [], box.Lower(0), p);
    }
  }

  lemma NoDuplicatesConcat(s: seq<seq<Long>>, t: seq<seq<Long>>)
    requires NoDuplicates(s) && NoDuplicates(t)
    requires forall x :: x in s ==> x !in t
    ensures NoDuplicates(s + t)
  {
    var st := s + t;
    forall i, j | 0 <= i < j < |st|
      ensures st[i] != st[j]
    {
      if j < |s| {
        assert st[i] == s[i] && st[j] == s[j];
      } else if i >= |s| {
        assert st[i] == t[i - |s|] && st[j] == t[j - |s|];
      } else {
        assert st[i] == s[i] && st[j] == t[j - |s|];
        assert s[i] in s && t[j - |s|] in t;
      }
    }
  }

  lemma {:induction false} RowsDistinct(box: Box, dim: nat, prefix: seq<Long>, lo: int)
    requires dim < |box.a| == |box.b| && |prefix| == dim
    requires box.Lower(dim) <= lo
    ensures NoDuplicates(Rows(box, dim, prefix, lo))
    decreases |box.a| - dim, box.Upper(dim) - lo + 1
  {
    var n := |box.a|;
    if lo <= box.Upper(dim) {
      var v: Long := lo;
      var block, rest := Block(box, dim, prefix, v), Rows(box, dim, prefix, lo + 1);
      assert Rows(box, dim, prefix, lo) == block + rest;
      assert NoDuplicates(rest) by {
        RowsDistinct(box, dim, prefix, lo + 1);
      }
      assert NoDuplicates(block) by {
        if dim < n - 1 {
          RowsDistinct(box, dim + 1, prefix + [v], box.Lower(dim + 1));
        }
      }
      assert forall x :: x in block ==> x !in rest by {
        forall x | x in block
          ensures x !in rest
        {
          if dim < n - 1 {
            RowsMember(box, dim + 1, prefix + [v], box.Lower(dim + 1), x);
            assert x[dim] == x[..dim + 1][dim] == v;
          } else {
            assert x == prefix + [v];
            assert x[dim] == v;
          }
          RowsMember(box, dim, prefix, lo + 1, x);
        }
      }
      NoDuplicatesConcat(block, rest);
    }
  }

  /** `visitBox` visits every lattice point of the box exactly once. */
  lemma BoxPointsExactlyOnce(box: Box)
    requires |box.a| == |box.b|
    ensures NoDuplicates(BoxPoints(box))
    ensures forall p: seq<Long> :: p in BoxPoints(box) <==> InBox(p, box)
  {
    if |box.a| > 0 {
      RowsDistinct(box, 0, [], box.Lower(0));
    }
    forall p: seq<Long>
      ensures p in BoxPoints(box) <==> InBox(p, box)
    {
      BoxPointsMember(box, p);
    }
  }

  /** `visitBox(box, p, dimension, visitor)`: writes each value of its
      coordinate into the shared array `p` and either hands `p` to the
      visitor (at the last dimension) or recurses. The visitor's view of `p`
      at each call is recorded in `emitted`. */
  method VisitBoxFrom(box: Box, p: array<Long>, dimension: nat) returns (emitted: seq<seq<Long>>)
    requires |box.a| == |box.b| == p.Length && dimension < p.Length
    modifies p
    ensures emitted == Rows(box, dimension, old(p[..dimension]), box.Lower(dimension))
    ensures p[..dimension] == old(p[..dimension])
    decreases p.Length - dimension
  {
    var upper := if box.a[dimension] <= box.b[dimension] then box.b[dimension] else box.a[dimension];
    var lower := if box.a[dimension] <= box.b[dimension] then box.a[dimension] else box.b[dimension];
    ghost var prefix := p[..dimension];
    emitted := [];
    var i: int := lower;
    while i <= upper
      invariant lower <= i <= upper + 1
      invariant p[..dimension] == prefix
      invariant emitted == RowsBetween(box, dimension, prefix, lower, i)
      decreases upper - i
    {
      p[dimension] := i;
      ghost var head := p[..dimension + 1];
      assert head == prefix + [i as Long];
      if dimension == p.Length - 1 {
        assert p[..] == head;
        emitted := emitted + [p[..]];
      } else {
        var sub := VisitBoxFrom(box, p, dimension + 1);
        emitted := emitted + sub;
        assert p[..dimension] == prefix by {
          assert p[..dimension] == p[..dimension + 1][..dimension];
        }
      }
      i := i + 1;
    }
    RowsSplit(box, dimension, prefix, lower, i);
  }

  /** `visitBox(box, visitor)`: starts `p` at the lower corner and visits
      from the first dimension. A box of no dimensions yields its single
      empty point; the source reads `box.a[0]` there and fails (see
      `VisitBoxAsWritten`). */
  method VisitBox(box: Box) returns (emitted: seq<seq<Long>>)
    requires |box.a| == |box.b|
    ensures emitted == BoxPoints(box)
  {
    var dimensions := |box.a|;
    if dimensions == 0 {
      return [[]];
    }
    var p := new Long[dimensions];
    for i := 0 to dimensions {
      p[i] := if box.a[i] <= box.b[i] then box.a[i] else box.b[i];
    }
    emitted := VisitBoxFrom(box, p, 0);
    assert p[..0] == [];
  }

  /** `visitBox(box, visitor)` as written: on a box of no dimensions it
      reads `box.a[0]`. */
  function VisitBoxAsWritten(box: Box): (r: Result<seq<seq<Long>>>)
    requires |box.a| == |box.b|
    ensures r.Err? <==> |box.a| == 0
    ensures r.Err? ==> r.error == ArrayIndexOutOfBounds
  {
    if |box.a| == 0 then Err(ArrayIndexOutOfBounds) else Ok(Rows(box, 0, [], box.Lower(0)))
  }

  // ---------------------------------------------------------------------
  // visitPerimeter
  // ---------------------------------------------------------------------

  /** `Box.dropDimension(d)`: the box without coordinate `d`. */
  function Drop(box: Box, d: nat): (r: Box)
    requires d < |box.a| == |box.b|
    ensures |r.a| == |r.b| == |box.a| - 1
  {
    Box(box.a[..d] + box.a[d + 1..], box.b[..d] + box.b[d + 1..])
  }

  /** The point of the full box whose coordinate `d` is `v` and whose other
      coordinates are those of `q`. */
  function Lift(q: seq<Long>, d: nat, v: Long): (x: seq<Long>)
    requires d <= |q|
    ensures |x| == |q| + 1
  {
    q[..d] + [v] + q[d..]
  }

  /** The lambda of `visitPerimeter(box, dimension, b, val, visitor)`: a new
      array `x` with `val` at `dimension` and `p` around it. */
  method Embed(p: seq<Long>, dimension: nat, val: Long, n: nat) returns (x: seq<Long>)
    requires dimension < n && |p| == n - 1
    ensures x == Lift(p, dimension, val)
  {
    var arr := new Long[n];
    for i := 0 to n
      invariant forall k :: 0 <= k < i ==> arr[k] == Lift(p, dimension, val)[k]
    {
      if i == dimension {
        arr[i] := val;
      } else if i < dimension {
        arr[i] := p[i];
      } else {
        arr[i] := p[i - 1];
      }
    }
    x := arr[..];
  }

  /** Each point of `qs` lifted into coordinate `d` at value `v`. */
  function LiftAll(qs: seq<seq<Long>>, d: nat, v: Long): (r: seq<seq<Long>>)
    requires forall k :: 0 <= k < |qs| ==> d <= |qs[k]|
    ensures |r| == |qs|
  {
    if |qs| == 0 then [] else LiftAll(qs[..|qs| - 1], d, v) + [Lift(qs[|qs| - 1], d, v)]
  }

  /** The face of `box` where coordinate `d` is `v`. */
  function Face(box: Box, d: nat, v: Long): seq<seq<Long>>
    requires d < |box.a| == |box.b|
  {
    var qs := BoxPoints(Drop(box, d));
    assert forall k :: 0 <= k < |qs| ==> d <= |qs[k]| by {
      forall k | 0 <= k < |qs| {
        BoxPointsMember(Drop(box, d), qs[k]);
      }
    }
    LiftAll(qs, d, v)
  }

  /** The faces `visitPerimeter(box, d)` emits: at `a[d]`, then at `b[d]`
      unless the two are equal. */
  function FacePair(box: Box, d: nat): seq<seq<Long>>
    requires d < |box.a| == |box.b|
  {
    Face(box, d, box.a[d]) + if box.a[d] != box.b[d] then Face(box, d, box.b[d]) else []
  }

  /** The points emitted for the first `k` dimensions. */
  function Faces(box: Box, k: nat): seq<seq<Long>>
    requires k <= |box.a| == |box.b|
  {
    if k == 0 then [] else Faces(box, k - 1) + FacePair(box, k - 1)
  }

  /** Everything `visitPerimeter(box, visitor)` emits, in order. */
  function PerimeterPoints(box: Box): seq<seq<Long>>
    requires |box.a| == |box.b|
  {
    Faces(box, |box.a|)
  }

  /** `p` is on the surface of `box`: in it, with some coordinate equal to
      that coordinate of one of the two corners. */
  predicate OnSurface(p: seq<Long>, box: Box)
  {
    InBox(p, box) && OnFaceBelow(p, box, |p|)
  }

  /** Coordinate `d` of `p` equals that coordinate of one of the corners. */
  predicate OnFace(p: seq<Long>, box: Box, d: nat)
  {
    d < |p| && d < |box.a| && d < |box.b| && (p[d] == box.a[d] || p[d] == box.b[d])
  }

  /** One of the first `k` coordinates of `p` lies on a face. */
  predicate OnFaceBelow(p: seq<Long>, box: Box, k: nat)
  {
    exists d :: 0 <= d < k && OnFace(p, box, d)
  }

  lemma OnFaceBelowStep(p: seq<Long>, box: Box, k: nat)
    requires k > 0
    ensures OnFaceBelow(p, box, k) <==> OnFaceBelow(p, box, k - 1) || OnFace(p, box, k - 1)
  {
    if OnFaceBelow(p, box, k) {
      var e :| 0 <= e < k && OnFace(p, box, e);
      if e < k - 1 {
        assert OnFaceBelow(p, box, k - 1);
      }
    }
  }

  /** Dropping coordinate `d` of a point and of the box keeps the bounds
      on every other coordinate. */
  lemma DropInBox(box: Box, d: nat, p: seq<Long>)
    requires d < |box.a| == |box.b| && |p| == |box.a|
    ensures InBox(p[..d] + p[d + 1..], Drop(box, d)) <==>
      forall j :: 0 <= j < |p| && j != d ==> box.Lower(j) <= p[j] <= box.Upper(j)
  {
    var q, e := p[..d] + p[d + 1..], Drop(box, d);
    if InBox(q, e) {
      forall j | 0 <= j < |p| && j != d
        ensures box.Lower(j) <= p[j] <= box.Upper(j)
      {
        var i := if j < d then j else j - 1;
        DropAt(p, d, i); DropAt(box.a, d, i); DropAt(box.b, d, i);
        assert e.Lower(i) <= q[i] <= e.Upper(i);
      }
    }
    if forall j :: 0 <= j < |p| && j != d ==> box.Lower(j) <= p[j] <= box.Upper(j) {
      forall j | 0 <= j < |q|
        ensures e.Lower(j) <= q[j] <= e.Upper(j)
      {
        var i := if j < d then j else j + 1;
        DropAt(p, d, j); DropAt(box.a, d, j); DropAt(box.b, d, j);
        assert box.Lower(i) <= p[i] <= box.Upper(i);
      }
    }
  }

  /** Lifting a point into coordinate `d` is undone by dropping `d`. */
  lemma LiftDrop(q: seq<Long>, d: nat, v: Long, p: seq<Long>)
    requires d <= |q|
    ensures p == Lift(q, d, v) <==> d < |p| && p[d] == v && p[..d] + p[d + 1..] == q
  {
    if p == Lift(q, d, v) {
      assert p[..d] == q[..d] && p[d + 1..] == q[d..];
    }
    if d < |p| && p[d] == v && p[..d] + p[d + 1..] == q {
      assert q[..d] == p[..d] && q[d..] == p[d + 1..];
    }
  }

  /** The lifted points are exactly those that drop back into `qs`. */
  lemma {:induction false} LiftAllMember(qs: seq<seq<Long>>, d: nat, v: Long, p: seq<Long>)
    requires forall k :: 0 <= k < |qs| ==> d <= |qs[k]|
    ensures p in LiftAll(qs, d, v) <==> d < |p| && p[d] == v && p[..d] + p[d + 1..] in qs
    decreases |qs|
  {
    if |qs| > 0 {
      var front, last := qs[..|qs| - 1], qs[|qs| - 1];
      LiftAllMember(front, d, v, p);
      InConcat(p, LiftAll(front, d, v), [Lift(last, d, v)]);
      LiftDrop(last, d, v, p);
      assert qs == front + [last];
      if d < |p| {
        InConcat(p[..d] + p[d + 1..], front, [last]);
      }
    }
  }

  /** The face at `v` holds exactly the points of the box's other
      coordinates with `v` at `d`. */
  lemma FaceMember(box: Box, d: nat, v: Long, p: seq<Long>)
    requires d < |box.a| == |box.b|
    ensures p in Face(box, d, v) <==>
      |p| == |box.a| && p[d] == v &&
      forall j :: 0 <= j < |p| && j != d ==> box.Lower(j) <= p[j] <= box.Upper(j)
  {
    var e := Drop(box, d);
    var qs := BoxPoints(e);
    forall k | 0 <= k < |qs|
      ensures d <= |qs[k]|
    {
      BoxPointsMember(e, qs[k]);
    }
    assert Face(box, d, v) == LiftAll(qs, d, v);
    LiftAllMember(qs, d, v, p);
    if d < |p| {
      BoxPointsMember(e, p[..d] + p[d + 1..]);
      if |p| == |box.a| {
        DropInBox(box, d, p);
      }
    }
  }

  /** The one or two faces of dimension `d` hold exactly the box's points
      with coordinate `d` on a corner. */
  lemma FacePairMember(box: Box, d: nat, p: seq<Long>)
    requires d < |box.a| == |box.b|
    ensures p in FacePair(box, d) <==> InBox(p, box) && OnFace(p, box, d)
  {
    if box.a[d] != box.b[d] {
      InConcat(p, Face(box, d, box.a[d]), Face(box, d, box.b[d]));
    } else {
      AppendNil(Face(box, d, box.a[d]));
    }
    FaceMember(box, d, box.a[d], p);
    FaceMember(box, d, box.b[d], p);
    if |p| == |box.a| && OnFace(p, box, d) {
      assert box.Lower(d) <= p[d] <= box.Upper(d);
    }
  }

  /** The first `k` dimensions' faces hold exactly the box's points with a
      corner coordinate among the first `k`. */
  lemma {:induction false} FacesMember(box: Box, k: nat, p: seq<Long>)
    requires k <= |box.a| == |box.b|
    ensures p in Faces(box, k) <==> InBox(p, box) && OnFaceBelow(p, box, k)
  {
    if k > 0 {
      var s, t := Faces(box, k - 1), FacePair(box, k - 1);
      assert Faces(box, k) == s + t;
      assert p in s <==> InBox(p, box) && OnFaceBelow(p, box, k - 1) by {
        FacesMember(box, k - 1, p);
      }
      assert p in t <==> InBox(p, box) && OnFace(p, box, k - 1) by {
        FacePairMember(box, k - 1, p);
      }
      InConcat(p, s, t);
      OnFaceBelowStep(p, box, k);
    }
  }

  /** `visitPerimeter` emits exactly the points on the surface of the box:
      each lies in the box with a coordinate on one of its faces, and every
      such point is emitted. */
  lemma PerimeterMember(box: Box, p: seq<Long>)
    requires |box.a| == |box.b|
    ensures p in PerimeterPoints(box) <==> OnSurface(p, box)
  {
    FacesMember(box, |box.a|, p);
  }

  /** A box with a dimension has a surface point: its corner `a`. */
  lemma PerimeterNonEmpty(box: Box)
    requires 0 < |box.a| == |box.b|
    ensures box.a in PerimeterPoints(box)
    ensures |PerimeterPoints(box)| > 0
  {
    assert InBox(box.a, box) by {
      forall j | 0 <= j < |box.a|
        ensures box.Lower(j) <= box.a[j] <= box.Upper(j)
      {
      }
    }
    assert OnFace(box.a, box, 0);
    assert OnSurface(box.a, box);
    PerimeterMember(box, box.a);
  }

  lemma FacesStep(box: Box, i: nat)
    requires i < |box.a| == |box.b|
    ensures box.a[i] != box.b[i] ==>
      Faces(box, i + 1) == Faces(box, i) + Face(box, i, box.a[i]) + Face(box, i, box.b[i])
    ensures box.a[i] == box.b[i] ==> Faces(box, i + 1) == Faces(box, i) + Face(box, i, box.a[i])
  {
    var f, g := Face(box, i, box.a[i]), Face(box, i, box.b[i]);
    assert Faces(box, i + 1) == Faces(box, i) + FacePair(box, i);
    if box.a[i] != box.b[i] {
      Assoc(Faces(box, i), f, g);
    } else {
      AppendNil(f);
    }
  }

  /** `visitPerimeter(box, dimension, b, val, visitor)`. */
  method VisitFace(box: Box, dimension: nat, val: Long) returns (emitted: seq<seq<Long>>)
    requires dimension < |box.a| == |box.b|
    ensures emitted == Face(box, dimension, val)
  {
    var b := Drop(box, dimension);
    var points := VisitBox(b);
    forall k | 0 <= k < |points|
      ensures |points[k]| == |box.a| - 1
    {
      BoxPointsMember(b, points[k]);
    }
    emitted := [];
    for k := 0 to |points|
      invariant emitted == LiftAll(points[..k], dimension, val)
    {
      var x := Embed(points[k], dimension, val, |box.a|);
      assert points[..k + 1][..k] == points[..k];
      emitted := emitted + [x];
    }
    assert points[..|points|] == points;
  }

  /** `visitPerimeter(box, visitor)`: the faces of each dimension in turn. */
  method VisitPerimeter(box: Box) returns (emitted: seq<seq<Long>>)
    requires |box.a| == |box.b|
    ensures emitted == PerimeterPoints(box)
  {
    emitted := [];
    for i := 0 to |box.a|
      invariant emitted == Faces(box, i)
    {
      FacesStep(box, i);
      var low := VisitFace(box, i, box.a[i]);
      emitted := emitted + low;
      if box.a[i] != box.b[i] {
        var high := VisitFace(box, i, box.b[i]);
        emitted := emitted + high;
      }
    }
  }

  /** The source visits a one-dimensional box's surface through a box of no
      dimensions, where `visitBox` fails; the surface itself is the box's
      two end points. */
  lemma VisitBoxAsWrittenFailsOnLine()
    ensures Drop(Box([0], [1]), 0) == Box([], [])
    ensures VisitBoxAsWritten(Drop(Box([0], [1]), 0)) == Err(ArrayIndexOutOfBounds)
    ensures BoxPoints(Drop(Box([0], [1]), 0)) == [[]]
    ensures PerimeterPoints(Box([0], [1])) == [[0], [1]]
  {
    var box := Box([0], [1]);
    assert Drop(box, 0) == Box([], []);
    assert BoxPoints(Box([], [])) == [[]];
    assert Lift([], 0, 0) == [0] && Lift([], 0, 1) == [1];
    assert Face(box, 0, 0) == [[0]];
    assert Face(box, 0, 1) == [[1]];
  }

  /** Wherever the source's `visitBox` succeeds it agrees with the model. */
  lemma VisitBoxAsWrittenAgrees(box: Box)
    requires 0 < |box.a| == |box.b|
    ensures VisitBoxAsWritten(box) == Ok(BoxPoints(box))
  {
  }

  /** `visitPerimeter(box, visitor)` as written, over its first `k`
      dimensions: each dimension's faces are visited through the source's
      `visitBox` on the dropped box, and the first visit that throws ends
      the walk. */
  function FacesAsWritten(box: Box, k: nat): Result<seq<seq<Long>>>
    requires k <= |box.a| == |box.b|
  {
    if k == 0 then Ok([])
    else
      match FacesAsWritten(box, k - 1)
      case Err(e) => Err(e)
      case Ok(s) =>
        match VisitBoxAsWritten(Drop(box, k - 1))
        case Err(e) => Err(e)
        case Ok(_) => Ok(s + FacePair(box, k - 1))
  }

  /** Everything `visitPerimeter(box, visitor)` as written emits, or the
      exception it throws. */
  function PerimeterAsWritten(box: Box): Result<seq<seq<Long>>>
    requires |box.a| == |box.b|
  {
    FacesAsWritten(box, |box.a|)
  }

  /** With at least two dimensions every dropped box keeps one, so the walk
      emits the surface exactly as the model does. */
  lemma {:induction false} FacesAsWrittenAgrees(box: Box, k: nat)
    requires k <= |box.a| == |box.b| && |box.a| != 1
    ensures FacesAsWritten(box, k) == Ok(Faces(box, k))
  {
    if k > 0 {
      var s := Faces(box, k - 1);
      assert FacesAsWritten(box, k - 1) == Ok(s) by {
        FacesAsWrittenAgrees(box, k - 1);
      }
      assert VisitBoxAsWritten(Drop(box, k - 1)).Ok?;
    }
  }

  /** The source's `visitPerimeter` throws out-of-bounds on every box of one
      coordinate, and emits the model's surface points on every other box. */
  lemma PerimeterAsWrittenAgrees(box: Box)
    requires |box.a| == |box.b|
    ensures |box.a| == 1 ==> PerimeterAsWritten(box) == Err(ArrayIndexOutOfBounds)
    ensures |box.a| != 1 ==> PerimeterAsWritten(box) == Ok(PerimeterPoints(box))
  {
    if |box.a| != 1 {
      FacesAsWrittenAgrees(box, |box.a|);
    } else {
      assert FacesAsWritten(box, 0) == Ok([]);
      assert |Drop(box, 0).a| == 0;
    }
  }
}
