/** Index ranges and `reduce`, which merges a list of ranges sorted by their
    low ends into the fewest ranges covering the same indexes. */
module Ranges {
  import opened JavaLang
  import opened Seqs

  /** A closed range `[low, high]` of curve indexes. */
  datatype Range = Range(low: Long, high: Long)
  {
    predicate Contains(x: int)
    {
      low <= x <= high
    }
  }

  function Max(x: Long, y: Long): (m: Long)
    ensures m >= x && m >= y && (m == x || m == y)
  {
    if x >= y then x else y
  }

  /** Some range of `rs` contains `x`. */
  predicate Covers(rs: seq<Range>, x: int)
  {
    exists k :: 0 <= k < |rs| && rs[k].Contains(x)
  }

  predicate SortedByLow(rs: seq<Range>)
  {
    forall i, j :: 0 <= i < j < |rs| ==> rs[i].low <= rs[j].low
  }

  /** Consecutive ranges neither overlap nor touch: at least one index lies
      strictly between them. */
  predicate Separated(rs: seq<Range>)
  {
    forall i :: 0 <= i < |rs| - 1 ==> rs[i].high < rs[i + 1].low - 1
  }

  /** `reduce`'s merge test: `r` overlaps `previous` or starts right after it. */
  predicate Adjoins(previous: Range, r: Range)
  {
    previous.high >= r.low - 1
  }

  /** What `reduce` emits for the rest of the list once its accumulator
      `previous` holds `acc` (`None` being the source's `null`). */
  function MergeFrom(acc: Option<Range>, rest: seq<Range>): seq<Range>
    decreases |rest|
  {
    if |rest| == 0 then
      if acc.Some? then [acc.value] else []
    else
      match acc
      case None => MergeFrom(Some(rest[0]), rest[1..])
      case Some(p) =>
        if Adjoins(p, rest[0]) then MergeFrom(Some(Range(p.low, Max(p.high, rest[0].high))), rest[1..])
        else [p] + MergeFrom(Some(rest[0]), rest[1..])
  }

  function Merge(rs: seq<Range>): seq<Range>
  {
    MergeFrom(None, rs)
  }

  predicate CoversOpt(acc: Option<Range>, x: int)
  {
    acc.Some? && acc.value.Contains(x)
  }

  lemma CoversCons(p: Range, rs: seq<Range>, x: int)
    ensures Covers([p] + rs, x) <==> p.Contains(x) || Covers(rs, x)
  {
    var s := [p] + rs;
    if Covers(rs, x) {
      var k :| 0 <= k < |rs| && rs[k].Contains(x);
      assert s[k + 1] == rs[k];
    }
    if p.Contains(x) {
      assert s[0] == p;
    }
    if Covers(s, x) && !p.Contains(x) {
      var k :| 0 <= k < |s| && s[k].Contains(x);
      assert k > 0 && s[k] == rs[k - 1];
      assert rs[k - 1].Contains(x);
    }
  }

  /** The first merged range starts where the accumulator starts. */
  lemma {:induction false} MergeFromFirst(acc: Option<Range>, rest: seq<Range>)
    requires acc.Some?
    ensures |MergeFrom(acc, rest)| > 0 && MergeFrom(acc, rest)[0].low == acc.value.low
    decreases |rest|
  {
    if |rest| > 0 && Adjoins(acc.value, rest[0]) {
      MergeFromFirst(Some(Range(acc.value.low, Max(acc.value.high, rest[0].high))), rest[1..]);
    }
  }

  /** The merged ranges are separated, whatever the order of the input. */
  lemma {:induction false} MergeFromSeparated(acc: Option<Range>, rest: seq<Range>)
    ensures Separated(MergeFrom(acc, rest))
    decreases |rest|
  {
    if |rest| > 0 {
      match acc
      case None =>
        MergeFromSeparated(Some(rest[0]), rest[1..]);
      case Some(p) =>
        if Adjoins(p, rest[0]) {
          MergeFromSeparated(Some(Range(p.low, Max(p.high, rest[0].high))), rest[1..]);
        } else {
          var m := MergeFrom(Some(rest[0]), rest[1..]);
          MergeFromSeparated(Some(rest[0]), rest[1..]);
          MergeFromFirst(Some(rest[0]), rest[1..]);
          var s := [p] + m;
          forall i | 0 <= i < |s| - 1
            ensures s[i].high < s[i + 1].low - 1
          {
            if i > 0 {
              assert s[i] == m[i - 1] && s[i + 1] == m[i];
            }
          }
        }
    }
  }

  /** No merged range starts below a bound that every input range respects. */
  lemma {:induction false} MergeFromLowsAbove(acc: Option<Range>, rest: seq<Range>, bound: int)
    requires acc.Some? ==> acc.value.low >= bound
    requires forall k :: 0 <= k < |rest| ==> rest[k].low >= bound
    ensures forall k :: 0 <= k < |MergeFrom(acc, rest)| ==> MergeFrom(acc, rest)[k].low >= bound
    decreases |rest|
  {
    if |rest| > 0 {
      match acc
      case None =>
        MergeFromLowsAbove(Some(rest[0]), rest[1..], bound);
      case Some(p) =>
        if Adjoins(p, rest[0]) {
          MergeFromLowsAbove(Some(Range(p.low, Max(p.high, rest[0].high))), rest[1..], bound);
        } else {
          MergeFromLowsAbove(Some(rest[0]), rest[1..], bound);
        }
    }
  }

  /** The input is sorted by low end, and the accumulator starts no later
      than any of it. */
  predicate SortedFrom(acc: Option<Range>, rest: seq<Range>)
  {
    SortedByLow(rest) && (acc.Some? ==> forall k :: 0 <= k < |rest| ==> acc.value.low <= rest[k].low)
  }

  /** Input sorted by low end gives output sorted by low end. */
  lemma {:induction false} MergeFromSorted(acc: Option<Range>, rest: seq<Range>)
    requires SortedFrom(acc, rest)
    ensures SortedByLow(MergeFrom(acc, rest))
    decreases |rest|
  {
    if |rest| > 0 {
      match acc
      case None =>
        MergeFromSorted(Some(rest[0]), rest[1..]);
      case Some(p) =>
        if Adjoins(p, rest[0]) {
          MergeFromSorted(Some(Range(p.low, Max(p.high, rest[0].high))), rest[1..]);
        } else {
          var m := MergeFrom(Some(rest[0]), rest[1..]);
          MergeFromSorted(Some(rest[0]), rest[1..]);
          MergeFromLowsAbove(Some(rest[0]), rest[1..], p.low);
          var s := [p] + m;
          forall i, j | 0 <= i < j < |s|
            ensures s[i].low <= s[j].low
          {
            assert s[j] == m[j - 1];
            if i > 0 {
              assert s[i] == m[i - 1];
            }
          }
        }
    }
  }

  /** Every merged index was covered by the accumulator or the input. */
  lemma {:induction false} MergeFromSound(acc: Option<Range>, rest: seq<Range>, x: int)
    requires Covers(MergeFrom(acc, rest), x)
    ensures CoversOpt(acc, x) || Covers(rest, x)
    decreases |rest|
  {
    if |rest| == 0 {
      assert MergeFrom(acc, rest)[0] == acc.value;
    } else {
      assert rest == [rest[0]] + rest[1..];
      CoversCons(rest[0], rest[1..], x);
      match acc
      case None =>
        MergeFromSound(Some(rest[0]), rest[1..], x);
      case Some(p) =>
        if Adjoins(p, rest[0]) {
          MergeFromSound(Some(Range(p.low, Max(p.high, rest[0].high))), rest[1..], x);
        } else {
          CoversCons(p, MergeFrom(Some(rest[0]), rest[1..]), x);
          if !p.Contains(x) {
            MergeFromSound(Some(rest[0]), rest[1..], x);
          }
        }
    }
  }

  /** With the input sorted, every index of the accumulator or the input is
      covered by the merge. */
  lemma {:induction false} MergeFromComplete(acc: Option<Range>, rest: seq<Range>, x: int)
    requires SortedFrom(acc, rest)
    requires CoversOpt(acc, x) || Covers(rest, x)
    ensures Covers(MergeFrom(acc, rest), x)
    decreases |rest|
  {
    if |rest| == 0 {
      assert MergeFrom(acc, rest)[0] == acc.value;
    } else {
      assert rest == [rest[0]] + rest[1..];
      CoversCons(rest[0], rest[1..], x);
      assert SortedFrom(Some(rest[0]), rest[1..]);
      match acc
      case None =>
        MergeFromComplete(Some(rest[0]), rest[1..], x);
      case Some(p) =>
        if Adjoins(p, rest[0]) {
          var q := Range(p.low, Max(p.high, rest[0].high));
          assert SortedFrom(Some(q), rest[1..]);
          MergeFromComplete(Some(q), rest[1..], x);
        } else {
          CoversCons(p, MergeFrom(Some(rest[0]), rest[1..]), x);
          if !p.Contains(x) {
            MergeFromComplete(Some(rest[0]), rest[1..], x);
          }
        }
    }
  }

  /** The merge emits at most one range per input range. */
  lemma {:induction false} MergeFromLength(acc: Option<Range>, rest: seq<Range>)
    ensures |MergeFrom(acc, rest)| <= |rest| + (if acc.Some? then 1 else 0)
    decreases |rest|
  {
    if |rest| > 0 {
      match acc
      case None =>
        MergeFromLength(Some(rest[0]), rest[1..]);
      case Some(p) =>
        if Adjoins(p, rest[0]) {
          MergeFromLength(Some(Range(p.low, Max(p.high, rest[0].high))), rest[1..]);
        } else {
          MergeFromLength(Some(rest[0]), rest[1..]);
        }
    }
  }

  /** Separated ranges led by an accumulator that is separated from them
      merge to themselves. */
  lemma {:induction false} MergeFromKeepsSeparated(p: Range, rest: seq<Range>)
    requires Separated([p] + rest)
    ensures MergeFrom(Some(p), rest) == [p] + rest
    decreases |rest|
  {
    if |rest| > 0 {
      assert ([p] + rest)[0] == p && ([p] + rest)[1] == rest[0];
      assert !Adjoins(p, rest[0]);
      var tail := [rest[0]] + rest[1..];
      assert tail == rest;
      forall i | 0 <= i < |tail| - 1
        ensures tail[i].high < tail[i + 1].low - 1
      {
        assert tail[i] == ([p] + rest)[i + 1] && tail[i + 1] == ([p] + rest)[i + 2];
      }
      MergeFromKeepsSeparated(rest[0], rest[1..]);
    }
  }

  /** Ranges that are already separated are left as they are. */
  lemma MergeOfSeparated(rs: seq<Range>)
    requires Separated(rs)
    ensures Merge(rs) == rs
  {
    if |rs| > 0 {
      assert [rs[0]] + rs[1..] == rs;
      MergeFromKeepsSeparated(rs[0], rs[1..]);
    }
  }

  /** Merging is idempotent: `reduce(reduce(rs)) == reduce(rs)`. */
  lemma MergeIdempotent(rs: seq<Range>)
    ensures Merge(Merge(rs)) == Merge(rs)
  {
    MergeFromSeparated(None, rs);
    MergeOfSeparated(Merge(rs));
  }

  /** Every property `reduce` promises, about the merge of `ranges`. */
  lemma MergeProperties(ranges: seq<Range>)
    ensures Separated(Merge(ranges))
    ensures |Merge(ranges)| <= |ranges|
    ensures Merge(ranges) == [] <==> ranges == []
    ensures forall x :: Covers(Merge(ranges), x) ==> Covers(ranges, x)
    ensures SortedByLow(ranges) ==> SortedByLow(Merge(ranges))
    ensures SortedByLow(ranges) ==> forall x :: Covers(ranges, x) ==> Covers(Merge(ranges), x)
  {
    MergeFromSeparated(None, ranges);
    MergeFromLength(None, ranges);
    if |ranges| > 0 {
      MergeFromFirst(Some(ranges[0]), ranges[1..]);
    }
    forall x | Covers(Merge(ranges), x)
      ensures Covers(ranges, x)
    {
      MergeFromSound(None, ranges, x);
    }
    if SortedByLow(ranges) {
      MergeFromSorted(None, ranges);
      forall x | Covers(ranges, x)
        ensures Covers(Merge(ranges), x)
      {
        MergeFromComplete(None, ranges, x);
      }
    }
  }

  /** The scenario of two touching ranges and a third after a gap. */
  lemma MergeExample()
    ensures Merge([Range(1, 3), Range(4, 6), Range(10, 12)]) == [Range(1, 6), Range(10, 12)]
  {
    var rs := [Range(1, 3), Range(4, 6), Range(10, 12)];
    assert rs[1..] == [Range(4, 6), Range(10, 12)];
    assert rs[1..][1..] == [Range(10, 12)];
  }

  /** Inserts `r` before the first range whose low end is not below its own. */
  function InsertByLow(r: Range, rs: seq<Range>): (s: seq<Range>)
    ensures multiset(s) == multiset(rs) + multiset{r}
  {
    if |rs| == 0 || r.low <= rs[0].low then
      [r] + rs
    else
      assert rs == [rs[0]] + rs[1..];
      [rs[0]] + InsertByLow(r, rs[1..])
  }

  lemma {:induction false} InsertByLowSorted(r: Range, rs: seq<Range>)
    requires SortedByLow(rs)
    ensures SortedByLow(InsertByLow(r, rs))
  {
    var s := InsertByLow(r, rs);
    if |rs| == 0 || r.low <= rs[0].low {
      forall i, j | 0 <= i < j < |s|
        ensures s[i].low <= s[j].low
      {
        assert s[j] == rs[j - 1];
        if i > 0 {
          assert s[i] == rs[i - 1];
        }
      }
    } else {
      var t := InsertByLow(r, rs[1..]);
      InsertByLowSorted(r, rs[1..]);
      forall i, j | 0 <= i < j < |s|
        ensures s[i].low <= s[j].low
      {
        assert s[j] == t[j - 1];
        if i > 0 {
          assert s[i] == t[i - 1];
        } else {
          assert s[j] in multiset(rs[1..]) + multiset{r};
          if s[j] != r {
            var k :| 0 <= k < |rs[1..]| && rs[1..][k] == s[j];
            assert rs[k + 1] == s[j];
          }
        }
      }
    }
  }

  /** The stream sort of `query`: a stable sort of the ranges by low end. */
  function SortByLow(rs: seq<Range>): (s: seq<Range>)
    ensures SortedByLow(s)
    ensures multiset(s) == multiset(rs)
  {
    if |rs| == 0 then []
    else
      assert rs == [rs[0]] + rs[1..];
      InsertByLowSorted(rs[0], SortByLow(rs[1..]));
      InsertByLow(rs[0], SortByLow(rs[1..]))
  }

  /** Reordering ranges does not change which indexes they cover. */
  lemma CoversPermutation(rs: seq<Range>, ss: seq<Range>, x: int)
    requires multiset(rs) == multiset(ss)
    ensures Covers(rs, x) <==> Covers(ss, x)
  {
    if Covers(rs, x) {
      var k :| 0 <= k < |rs| && rs[k].Contains(x);
      assert rs[k] in multiset(ss);
      var j :| 0 <= j < |ss| && ss[j] == rs[k];
    }
    if Covers(ss, x) {
      var k :| 0 <= k < |ss| && ss[k].Contains(x);
      assert ss[k] in multiset(rs);
      var j :| 0 <= j < |rs| && rs[j] == ss[k];
    }
  }

  /** `MergeFrom` unfolded once on a suffix of `rs`. */
  lemma MergeFromStep(acc: Option<Range>, rs: seq<Range>, i: nat)
    requires i < |rs|
    ensures MergeFrom(acc, rs[i..]) ==
      if acc.None? then MergeFrom(Some(rs[i]), rs[i + 1..])
      else if Adjoins(acc.value, rs[i]) then MergeFrom(Some(Range(acc.value.low, Max(acc.value.high, rs[i].high))), rs[i + 1..])
      else [acc.value] + MergeFrom(Some(rs[i]), rs[i + 1..])
  {
    assert rs[i..][0] == rs[i];
    assert rs[i..][1..] == rs[i + 1..];
  }

  /** `reduce`: one pass with the accumulator `previous`, appending each
      finished range to `list`. */
  method Reduce(ranges: seq<Range>) returns (list: seq<Range>)
    ensures list == Merge(ranges)
    ensures Separated(list)
    ensures |list| <= |ranges|
    ensures list == [] <==> ranges == []
    ensures forall x :: Covers(list, x) ==> Covers(ranges, x)
    ensures SortedByLow(ranges) ==> SortedByLow(list)
    ensures SortedByLow(ranges) ==> forall x :: Covers(ranges, x) ==> Covers(list, x)
  {
    list := [];
    var previous: Option<Range> := None;
    for i := 0 to |ranges|
      invariant list + MergeFrom(previous, ranges[i..]) == Merge(ranges)
      invariant previous.None? <==> i == 0
    {
      var r := ranges[i];
      MergeFromStep(previous, ranges, i);
      if previous.Some? {
        if previous.value.high >= r.low - 1 {
          previous := Some(Range(previous.value.low, Max(previous.value.high, r.high)));
        } else {
          Assoc(list, [previous.value], MergeFrom(Some(r), ranges[i + 1..]));
          list := list + [previous.value];
          previous := Some(r);
        }
      } else {
        previous := Some(r);
      }
    }
    if previous.Some? {
      list := list + [previous.value];
    }
    assert ranges[|ranges|..] == [];
    MergeProperties(ranges);
  }
}
