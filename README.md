# SmallHilbertCurve in Dafny

A model of `SmallHilbertCurve`, the variant of the Hilbert curve whose
index fits in one Java `long`, together with proofs about it. A curve has
`bits` bits per coordinate and `dimensions` coordinates. The model covers:

- converting between a point and its index through the transposed index,
  which holds one `bits`-bit word per dimension (`index`, `point`,
  `toIndex`, `transposeLong`);
- range queries: `query` splits a box into sub-boxes (`split`), maps each
  sub-box to the range between the least and greatest index on its surface
  (`toRange`, `visitPerimeter`, `visitBox`, `Visitor`), sorts those ranges
  and merges them (`reduce`);
- the builder's check on `bits * dimensions`.

The code that works in place keeps its form. `toIndex`, `transposeLong`,
`visitBox`, `split` and `reduce` are methods with loops. `transposeLong(index,
x)` and `visitBox` write into arrays, and `Visitor` is a class whose methods
update its `min` and `max`. Each method is proved equal to a specification
function, and the properties are proved about those functions.

Some of the code is not part of this model:

- Skilling's transforms `HilbertCurve.transposedIndex` and
  `HilbertCurve.transposedIndexToPoint` are the parameter `Skilling`. The
  model assumes only that each keeps the length of its array.
- `Util.mostSignificantBetween` is the parameter `msb`, an arbitrary function
  of the two bounds.
- `Box.dropDimension`, `Range.create` and the `Box` and `Range` classes are
  modelled by what their call sites rely on.

Files:

| file | contents |
|---|---|
| `java_lang.dfy` | the `long` and `int` ranges, 32-bit multiplication, truncating `%`, the exceptions |
| `bits.dfy` | powers of two, bits of naturals, and `long` bit tests and bit sets in two's complement |
| `arith.dfy` | arithmetic facts used by the proofs |
| `seqs.dfy` | sequence facts used by the proofs |
| `config.dfy` | the curve configuration and `Builder.dimensions` |
| `codec.dfy` | `toIndex`, `transposeLong`, `index`, `point` |
| `ranges.dfy` | `Range`, the merge that `reduce` performs, and the sort by low end |
| `boxes.dfy` | `Box` and `split` |
| `perimeter.dfy` | `visitBox` and `visitPerimeter` |
| `query.dfy` | `Visitor`, `toRange`, `query` |

## Model

All source paths are `src/main/java/org/davidmoten/hilbert/SmallHilbertCurve.java`.

| member | source | states |
|---|---|---|
| JavaLang.MulInt | src/main/java/org/davidmoten/hilbert/SmallHilbertCurve.java:320 | the `int` product equals the exact product when that fits in 32 bits, and always agrees with it modulo 2^32 |
| JavaLang.Rem | src/main/java/org/davidmoten/hilbert/SmallHilbertCurve.java:93 | Java `%` agrees with Euclidean `%` on a non-negative dividend, is never positive on a negative one, lies strictly between -n and n, and differs from the dividend by a multiple of n, which together fix the truncating remainder |
| Bits.LongSetBit | src/main/java/org/davidmoten/hilbert/SmallHilbertCurve.java:95 | `v \| (1L << k)` sets exactly bit `k` of the two's-complement pattern and keeps every other bit; on a non-negative `v` it adds 2^k when the bit was clear |
| Bits.LongBit | src/main/java/org/davidmoten/hilbert/SmallHilbertCurve.java:92 | `(index & (1L << idx)) != 0`, also the mask test of line 79: bit `k` of the 64-bit two's-complement pattern of a `long`; `LongSetBit` is stated in its terms |
| Config.BuildAsWritten | src/main/java/org/davidmoten/hilbert/SmallHilbertCurve.java:319-323 | a curve is built exactly when the 32-bit product `bits * dimensions` is at most 63; its length is that wrapped product |
| Config.Build | src/main/java/org/davidmoten/hilbert/SmallHilbertCurve.java:319-323 | a curve is built exactly when `bits >= 1`, `dimensions >= 1` and the true product is at most 63; every index then fits in a non-negative `long`; any other input is an illegal argument |
| Config.BuildAgrees | src/main/java/org/davidmoten/hilbert/SmallHilbertCurve.java:319-323 | with positive arguments whose product fits in an `int`, the source's builder and the corrected one agree |
| Config.BuildBoundary | src/main/java/org/davidmoten/hilbert/SmallHilbertCurve.java:320-321 | 63 bits of index are accepted (21 x 3, 63 x 1) and 64 are refused (16 x 4, 32 x 2) |
| Config.BuildAsWrittenAcceptsWrappedProduct | src/main/java/org/davidmoten/hilbert/SmallHilbertCurve.java:320 | 65536 x 65536 wraps to 0 and passes the guard, giving an invalid curve that the corrected builder refuses |
| Config.BuildAsWrittenAcceptsZeroBits | src/main/java/org/davidmoten/hilbert/SmallHilbertCurve.java:320 | 0 bits passes the guard, giving an invalid curve that the corrected builder refuses |
| Codec.PositionInverse | src/main/java/org/davidmoten/hilbert/SmallHilbertCurve.java:93-94 | bit `k` of word `d` goes to an index bit below `length`, and `transposeLong`'s `dim`/`shift` formulas send that index bit back to word `d`, bit `k` |
| Codec.PositionOf | src/main/java/org/davidmoten/hilbert/SmallHilbertCurve.java:75-83 | every index bit below `length` is the image of exactly one (word, bit) pair, namely the one `transposeLong` computes for it |
| Codec.TransposeStep | src/main/java/org/davidmoten/hilbert/SmallHilbertCurve.java:92-96 | one pass of the loop: a clear index bit leaves the words alone; a set bit ORs bit `(idx / dimensions) % bits` into word `(length - idx - 1) % dimensions` under Java's truncating `%`, and a word index outside the array is an out-of-bounds error (properties in `TransposeStepPlaces`, `TransposeBits`) |
| Codec.IndexSpaceFitsLong | src/main/java/org/davidmoten/hilbert/SmallHilbertCurve.java:74-80 | on a valid curve, 2^length is at most 2^63, so the index never reaches the sign bit |
| Codec.Untranspose | src/main/java/org/davidmoten/hilbert/SmallHilbertCurve.java:73-88 | the index of any transposed index lies in [0, 2^length) |
| Codec.ToIndex | src/main/java/org/davidmoten/hilbert/SmallHilbertCurve.java:73-88 | the bit-plane scan returns the number whose bit `Position(d, k)` is bit `k` of word `d`, which lies in [0, 2^length) |
| Codec.TransposeBits | src/main/java/org/davidmoten/hilbert/SmallHilbertCurve.java:90-98 | the loop over the 64 index bits keeps the array's length, and it can only fail with an out-of-bounds write |
| Codec.TransposeBitsFails | src/main/java/org/davidmoten/hilbert/SmallHilbertCurve.java:91-97 | once a write is out of bounds, the rest of the loop does not run |
| Codec.TransposeLong | src/main/java/org/davidmoten/hilbert/SmallHilbertCurve.java:90-98 | the array afterwards is the words `TransposeBits` computes from its old contents, or the call throws out-of-bounds |
| Codec.Transpose | src/main/java/org/davidmoten/hilbert/SmallHilbertCurve.java:100-104 | transposing into a fresh zeroed array never fails for an index in [0, 2^length) |
| Codec.TransposeStepPlaces | src/main/java/org/davidmoten/hilbert/SmallHilbertCurve.java:92-96 | for an index in range, each step writes in bounds and keeps every word below 2^bits, with bit `k` of word `d` equal to index bit `Position(d, k)` |
| Codec.TransposeOfZeros | src/main/java/org/davidmoten/hilbert/SmallHilbertCurve.java:100-104 | starting from zeroed words, the first `n` steps succeed and place exactly the index bits seen so far |
| Codec.TransposeUntranspose | src/main/java/org/davidmoten/hilbert/SmallHilbertCurve.java:73-104 | round trip: `transposeLong(toIndex(t)) == t` for words below 2^bits |
| Codec.UntransposeTranspose | src/main/java/org/davidmoten/hilbert/SmallHilbertCurve.java:73-104 | round trip: `toIndex(transposeLong(i)) == i` for every `i` in [0, 2^length) |
| Codec.PointOf | src/main/java/org/davidmoten/hilbert/SmallHilbertCurve.java:62-70 | a decoded point has the length of the array it was decoded into |
| Codec.IndexOf | src/main/java/org/davidmoten/hilbert/SmallHilbertCurve.java:48 | the index of a point: `toIndex` of the transform's transposed index (its range is stated by `Untranspose`, its use by `Index`) |
| Codec.Index | src/main/java/org/davidmoten/hilbert/SmallHilbertCurve.java:46-49 | `index` fails with an illegal argument exactly when the arity is wrong; otherwise it returns the point's index, in [0, 2^length) |
| Codec.Point | src/main/java/org/davidmoten/hilbert/SmallHilbertCurve.java:62-64 | `point(index)` decodes into fresh zeroed words and never fails for an index in [0, 2^length) |
| Codec.PointInto | src/main/java/org/davidmoten/hilbert/SmallHilbertCurve.java:66-70 | `point(index, x)` zeroes `x` first, so its result depends only on `index` and `x.length`, and on success `x` holds the decoded point |
| Codec.PointOfIndexOf | src/main/java/org/davidmoten/hilbert/SmallHilbertCurve.java:46-64 | `point(index(p)) == p` for every point with coordinates below 2^bits, given that the transform inverts on points |
| Codec.IndexOfPointOf | src/main/java/org/davidmoten/hilbert/SmallHilbertCurve.java:46-64 | `index(point(i)) == i` for every `i` in [0, 2^length), given that the transform inverts on transposed indexes |
| Ranges.Max | src/main/java/org/davidmoten/hilbert/SmallHilbertCurve.java:139 | `Math.max` is one of its arguments and at least both |
| Ranges.MergeFrom | src/main/java/org/davidmoten/hilbert/SmallHilbertCurve.java:134-150 | what the loop emits from a given `previous` (`None` for null): an adjoining range widens `previous` to the larger high end, any other range flushes `previous` and replaces it, and a non-null `previous` is flushed at the end (properties in the `MergeFrom*` lemmas) |
| Ranges.Merge | src/main/java/org/davidmoten/hilbert/SmallHilbertCurve.java:132-152 | `reduce`: the same walk from a null `previous` (properties in `MergeProperties`, `MergeIdempotent`) |
| Ranges.MergeFromFirst | src/main/java/org/davidmoten/hilbert/SmallHilbertCurve.java:136-146 | the first merged range starts where the pending range starts |
| Ranges.MergeFromSeparated | src/main/java/org/davidmoten/hilbert/SmallHilbertCurve.java:135-150 | whatever the input order, consecutive output ranges have a gap of at least one index between them |
| Ranges.MergeFromSorted | src/main/java/org/davidmoten/hilbert/SmallHilbertCurve.java:135-150 | input sorted by low end gives output sorted by low end |
| Ranges.MergeFromSound | src/main/java/org/davidmoten/hilbert/SmallHilbertCurve.java:135-150 | every index in the output was in the pending range or in the input |
| Ranges.MergeFromComplete | src/main/java/org/davidmoten/hilbert/SmallHilbertCurve.java:135-150 | with sorted input, every index in the pending range or in the input is in the output |
| Ranges.MergeFromLength | src/main/java/org/davidmoten/hilbert/SmallHilbertCurve.java:135-150 | the output has at most one range per input range |
| Ranges.MergeFromKeepsSeparated | src/main/java/org/davidmoten/hilbert/SmallHilbertCurve.java:135-150 | separated input passes through unchanged |
| Ranges.MergeOfSeparated | src/main/java/org/davidmoten/hilbert/SmallHilbertCurve.java:132-152 | `reduce` returns separated ranges unchanged |
| Ranges.MergeIdempotent | src/main/java/org/davidmoten/hilbert/SmallHilbertCurve.java:132-152 | `reduce(reduce(rs)) == reduce(rs)` |
| Ranges.MergeProperties | src/main/java/org/davidmoten/hilbert/SmallHilbertCurve.java:132-152 | `reduce` gives separated output that is no longer than its input, empty exactly when the input is, and covers nothing the input does not; for sorted input it is also sorted and covers everything the input covers |
| Ranges.MergeExample | src/main/java/org/davidmoten/hilbert/SmallHilbertCurve.java:137-142 | touching ranges [1,3] and [4,6] merge, and [10,12] after a gap stays separate |
| Ranges.InsertByLow | src/main/java/org/davidmoten/hilbert/SmallHilbertCurve.java:126 | insertion adds exactly one range, as a multiset |
| Ranges.InsertByLowSorted | src/main/java/org/davidmoten/hilbert/SmallHilbertCurve.java:126 | inserting into a list sorted by low end keeps it sorted |
| Ranges.SortByLow | src/main/java/org/davidmoten/hilbert/SmallHilbertCurve.java:124-127 | the stream sort's output is sorted by low end and is a permutation of its input |
| Ranges.CoversPermutation | src/main/java/org/davidmoten/hilbert/SmallHilbertCurve.java:124-127 | sorting does not change which indexes the ranges cover |
| Ranges.Reduce | src/main/java/org/davidmoten/hilbert/SmallHilbertCurve.java:132-152 | the loop with its `previous` accumulator computes the merge: separated, no longer than the input, empty only for empty input, sound, and for sorted input sorted and complete |
| Boxes.Halve | src/main/java/org/davidmoten/hilbert/SmallHilbertCurve.java:277-294 | both halves of a box keep its corner lengths |
| Boxes.SigBetween | src/main/java/org/davidmoten/hilbert/SmallHilbertCurve.java:279 | the split point `mostSignificantBetween(low + 1, high + 1) - 1` along dimension `i` (its range check is stated by `HalveChildren`) |
| Boxes.HalveChildren | src/main/java/org/davidmoten/hilbert/SmallHilbertCurve.java:277-294 | halving succeeds exactly when `low <= sigBetween <= high`, and otherwise fails with "sigBetween out of range"; the halves are `[low, sigBetween]` and `[min(sigBetween + 1, high), high]` along `i`, and every other coordinate is copied |
| Boxes.HalveCovers | src/main/java/org/davidmoten/hilbert/SmallHilbertCurve.java:283-294 | a point is in a box exactly when it is in one of its two halves |
| Boxes.HalveAll | src/main/java/org/davidmoten/hilbert/SmallHilbertCurve.java:275-297 | a successful pass doubles the number of boxes |
| Boxes.HalveAllShaped | src/main/java/org/davidmoten/hilbert/SmallHilbertCurve.java:284-294 | a pass keeps the boxes' corner lengths |
| Boxes.HalveAllFails | src/main/java/org/davidmoten/hilbert/SmallHilbertCurve.java:280-282 | one failing box fails the whole pass with its error |
| Boxes.HalveAllCovers | src/main/java/org/davidmoten/hilbert/SmallHilbertCurve.java:275-297 | a pass keeps exactly the points of the boxes it halves |
| Boxes.HalvePass | src/main/java/org/davidmoten/hilbert/SmallHilbertCurve.java:275-297 | the loop over `boxes` builds `boxes2` as `HalveAll` specifies, stopping at the first failure |
| Boxes.SplitUpTo | src/main/java/org/davidmoten/hilbert/SmallHilbertCurve.java:273-299 | every box after any number of passes has the input's corner lengths |
| Boxes.SplitSpec | src/main/java/org/davidmoten/hilbert/SmallHilbertCurve.java:269-301 | every box `split` returns has the input's corner lengths |
| Boxes.SplitDepthZero | src/main/java/org/davidmoten/hilbert/SmallHilbertCurve.java:271-273 | at depth 0, `split` returns the input box alone |
| Boxes.SplitUpToCount | src/main/java/org/davidmoten/hilbert/SmallHilbertCurve.java:273-299 | each pass doubles the number of boxes |
| Boxes.SplitCount | src/main/java/org/davidmoten/hilbert/SmallHilbertCurve.java:269-301 | `split` returns exactly 2^(splitDepth * dimensions) boxes |
| Boxes.SplitUpToCovers | src/main/java/org/davidmoten/hilbert/SmallHilbertCurve.java:273-299 | after any number of passes, the boxes hold exactly the points of the input box |
| Boxes.SplitCovers | src/main/java/org/davidmoten/hilbert/SmallHilbertCurve.java:269-301 | a point is in the input box exactly when it is in one of the boxes `split` returns |
| Boxes.HalveAllError | src/main/java/org/davidmoten/hilbert/SmallHilbertCurve.java:277-282 | with corners of equal length, a pass can only fail with "sigBetween out of range" |
| Boxes.SplitUpToError | src/main/java/org/davidmoten/hilbert/SmallHilbertCurve.java:273-299 | the same holds after any number of passes |
| Boxes.SplitError | src/main/java/org/davidmoten/hilbert/SmallHilbertCurve.java:269-301 | `split` of a box whose corners have equal length fails only with "sigBetween out of range" |
| Boxes.SplitUpToFails | src/main/java/org/davidmoten/hilbert/SmallHilbertCurve.java:280-282 | once a pass fails, every later stage of `split` returns that failure |
| Boxes.SplitRound | src/main/java/org/davidmoten/hilbert/SmallHilbertCurve.java:274-298 | one round of the loop over dimensions computes the boxes after that round |
| Boxes.Split | src/main/java/org/davidmoten/hilbert/SmallHilbertCurve.java:269-301 | the nested loops compute `SplitSpec`; a negative depth runs no round |
| Perimeter.Rows | src/main/java/org/davidmoten/hilbert/SmallHilbertCurve.java:195-206 | the points the recursive `visitBox` emits from value `lo` of coordinate `dim` with the earlier coordinates fixed: each value up to the upper bound in turn, with every point of the later coordinates beneath it (properties in `RowsMember`, `RowsDistinct`) |
| Perimeter.BoxPoints | src/main/java/org/davidmoten/hilbert/SmallHilbertCurve.java:186-206 | the points `visitBox` emits, in its order, starting every coordinate at its lower bound; the single empty point for a box of no dimensions (properties in `BoxPointsMember`, `BoxPointsExactlyOnce`) |
| Perimeter.RowsMember | src/main/java/org/davidmoten/hilbert/SmallHilbertCurve.java:195-206 | the recursion from `dimension` with `p`'s prefix fixed emits exactly the points with that prefix whose later coordinates lie in the box |
| Perimeter.RowsDistinct | src/main/java/org/davidmoten/hilbert/SmallHilbertCurve.java:195-206 | no point is emitted twice |
| Perimeter.RowsSplit | src/main/java/org/davidmoten/hilbert/SmallHilbertCurve.java:198-205 | what the loop has emitted, followed by what its remaining values emit, is everything |
| Perimeter.BoxPointsMember | src/main/java/org/davidmoten/hilbert/SmallHilbertCurve.java:186-206 | `visitBox` emits a point exactly when it is a lattice point of the box |
| Perimeter.BoxPointsExactlyOnce | src/main/java/org/davidmoten/hilbert/SmallHilbertCurve.java:186-206 | `visitBox` emits every lattice point of the box, and each exactly once |
| Perimeter.VisitBoxFrom | src/main/java/org/davidmoten/hilbert/SmallHilbertCurve.java:195-206 | the recursion hands the visitor, in order, the specified rows for the current prefix of `p`, and leaves that prefix unchanged |
| Perimeter.VisitBox | src/main/java/org/davidmoten/hilbert/SmallHilbertCurve.java:186-193 | `visitBox` emits exactly the specified lattice points in order, and the single empty point for a box of no dimensions |
| Perimeter.VisitBoxAsWrittenFailsOnLine | src/main/java/org/davidmoten/hilbert/SmallHilbertCurve.java:195-197 | for the one-dimensional box [0,1], the dropped box has no dimensions and the source's `visitBox` fails on it, although the surface is the two points [0] and [1] |
| Perimeter.VisitBoxAsWritten | src/main/java/org/davidmoten/hilbert/SmallHilbertCurve.java:186-206 | the source's `visitBox`: it throws out-of-bounds exactly on a box of no dimensions, and otherwise emits the rows from coordinate 0 |
| Perimeter.VisitBoxAsWrittenAgrees | src/main/java/org/davidmoten/hilbert/SmallHilbertCurve.java:186-206 | on boxes with at least one dimension, the source's `visitBox` and the corrected one agree |
| Perimeter.FacesAsWritten | src/main/java/org/davidmoten/hilbert/SmallHilbertCurve.java:155-183 | the source's walk over the faces of the first `k` dimensions, failing at the first face whose dropped box `visitBox` refuses |
| Perimeter.PerimeterAsWritten | src/main/java/org/davidmoten/hilbert/SmallHilbertCurve.java:155-159 | the source's `visitPerimeter`, built on the source's `visitBox` |
| Perimeter.FacesAsWrittenAgrees | src/main/java/org/davidmoten/hilbert/SmallHilbertCurve.java:155-183 | on a box of any number of dimensions other than one, the source's face walk emits the specified faces |
| Perimeter.PerimeterAsWrittenAgrees | src/main/java/org/davidmoten/hilbert/SmallHilbertCurve.java:155-206 | the source's `visitPerimeter` throws out-of-bounds on every box of one dimension and emits the specified surface points on every other box |
| Perimeter.Drop | src/main/java/org/davidmoten/hilbert/SmallHilbertCurve.java:162 | dropping a dimension removes one coordinate from each corner |
| Perimeter.Lift | src/main/java/org/davidmoten/hilbert/SmallHilbertCurve.java:171-180 | the rebuilt point has one more coordinate than `p` |
| Perimeter.Embed | src/main/java/org/davidmoten/hilbert/SmallHilbertCurve.java:170-182 | the loop filling `x` puts `val` at `dimension`, copies `p` before it and shifts `p` by one after it |
| Perimeter.LiftAll | src/main/java/org/davidmoten/hilbert/SmallHilbertCurve.java:169-183 | one rebuilt point per point of the dropped box |
| Perimeter.DropInBox | src/main/java/org/davidmoten/hilbert/SmallHilbertCurve.java:162 | a point without coordinate `d` is in the dropped box exactly when its other coordinates are within the box's bounds |
| Perimeter.LiftDrop | src/main/java/org/davidmoten/hilbert/SmallHilbertCurve.java:171-180 | `p` is the rebuilt point exactly when `p[d] == val` and dropping `d` from `p` gives back the visited point |
| Perimeter.LiftAllMember | src/main/java/org/davidmoten/hilbert/SmallHilbertCurve.java:169-183 | the rebuilt points are exactly those with `val` at `d` that drop back into the visited points |
| Perimeter.Face | src/main/java/org/davidmoten/hilbert/SmallHilbertCurve.java:169-183 | the points of one face: each point of the box with dimension `d` dropped, rebuilt with `val` at `d` (property in `FaceMember`) |
| Perimeter.FacePair | src/main/java/org/davidmoten/hilbert/SmallHilbertCurve.java:161-167 | the face at `a[d]` followed by the face at `b[d]` unless the two are equal (property in `FacePairMember`) |
| Perimeter.Faces | src/main/java/org/davidmoten/hilbert/SmallHilbertCurve.java:156-158 | the loop over dimensions of `visitPerimeter(box, visitor)`: the face pairs of dimensions 0 to `k - 1`, in order (property in `FacesMember`) |
| Perimeter.PerimeterPoints | src/main/java/org/davidmoten/hilbert/SmallHilbertCurve.java:155-159 | the faces of every dimension in turn (property in `PerimeterMember`) |
| Perimeter.FaceMember | src/main/java/org/davidmoten/hilbert/SmallHilbertCurve.java:169-183 | the face at `val` holds exactly the points with `val` at `d` and every other coordinate within the box |
| Perimeter.FacePairMember | src/main/java/org/davidmoten/hilbert/SmallHilbertCurve.java:161-167 | the one or two faces of dimension `d` hold exactly the box's points whose coordinate `d` is a corner's |
| Perimeter.FacesMember | src/main/java/org/davidmoten/hilbert/SmallHilbertCurve.java:155-159 | the faces of the first `k` dimensions hold exactly the box's points with a corner coordinate among the first `k` |
| Perimeter.FacesStep | src/main/java/org/davidmoten/hilbert/SmallHilbertCurve.java:161-167 | dimension `i` contributes the face at `a[i]` and, unless `a[i] == b[i]`, the face at `b[i]` |
| Perimeter.PerimeterMember | src/main/java/org/davidmoten/hilbert/SmallHilbertCurve.java:155-183 | `visitPerimeter` emits exactly the points on the surface of the box |
| Perimeter.PerimeterNonEmpty | src/main/java/org/davidmoten/hilbert/SmallHilbertCurve.java:155-167 | a box with a dimension has surface points, among them its corner `a` |
| Perimeter.VisitFace | src/main/java/org/davidmoten/hilbert/SmallHilbertCurve.java:169-183 | `visitPerimeter(box, dimension, b, val, visitor)` emits the specified face in order |
| Perimeter.VisitPerimeter | src/main/java/org/davidmoten/hilbert/SmallHilbertCurve.java:155-167 | `visitPerimeter(box, visitor)` emits, in order, the specified faces of each dimension |
| Query.SeqMin | src/main/java/org/davidmoten/hilbert/SmallHilbertCurve.java:255-257 | the least index is one of the indexes and is below all of them |
| Query.SeqMax | src/main/java/org/davidmoten/hilbert/SmallHilbertCurve.java:258-260 | the greatest index is one of the indexes and is above all of them |
| Query.ExtremesUnique | src/main/java/org/davidmoten/hilbert/SmallHilbertCurve.java:249-260 | the least and greatest elements are unique, so the visitor's bounds are `SeqMin` and `SeqMax` |
| Query.ExtremesSnoc | src/main/java/org/davidmoten/hilbert/SmallHilbertCurve.java:255-260 | `accept`'s updates of `min` and `max` keep them the least and greatest index seen |
| Query.ExtremesSingle | src/main/java/org/davidmoten/hilbert/SmallHilbertCurve.java:255-260 | after the first index, `min` and `max` are both that index |
| Query.Indexes | src/main/java/org/davidmoten/hilbert/SmallHilbertCurve.java:253-254 | one index per visited point |
| Query.IndexesAt | src/main/java/org/davidmoten/hilbert/SmallHilbertCurve.java:253-254 | the `k`th index is the index of the `k`th visited point |
| Query.Visitor.constructor | src/main/java/org/davidmoten/hilbert/SmallHilbertCurve.java:246-250 | a new visitor has `min` and `max` null and has seen nothing |
| Query.Visitor.Accept | src/main/java/org/davidmoten/hilbert/SmallHilbertCurve.java:252-261 | `accept` fails with an illegal argument exactly for a point of the wrong arity, and then changes nothing; otherwise it records the point's index, and `min` and `max` stay the least and greatest index seen |
| Query.Visitor.GetRange | src/main/java/org/davidmoten/hilbert/SmallHilbertCurve.java:263-265 | `getRange` throws a null-pointer exception exactly when nothing was accepted; otherwise it returns the least and greatest index seen |
| Query.PerimeterShape | src/main/java/org/davidmoten/hilbert/SmallHilbertCurve.java:169-182 | every surface point has the box's dimensions |
| Query.SurfaceIndexes | src/main/java/org/davidmoten/hilbert/SmallHilbertCurve.java:233-235 | a box with the curve's dimensions has at least one surface index |
| Query.BoxRange | src/main/java/org/davidmoten/hilbert/SmallHilbertCurve.java:228-244 | the range of a box is not empty: its low end is at most its high end |
| Query.IndexesBound | src/main/java/org/davidmoten/hilbert/SmallHilbertCurve.java:252-261 | the index of each visited point lies between the least and greatest index |
| Query.BoxRangeBounds | src/main/java/org/davidmoten/hilbert/SmallHilbertCurve.java:233-235 | the index of every surface point lies in the box's range |
| Query.BoxRangeAttained | src/main/java/org/davidmoten/hilbert/SmallHilbertCurve.java:228-244 | both ends of the box's range are indexes of surface points |
| Query.ToRange | src/main/java/org/davidmoten/hilbert/SmallHilbertCurve.java:228-244 | `toRange` returns the range from the least to the greatest surface index for a box of the curve's dimensions; a box of no dimensions throws a null-pointer exception; any other arity is an illegal argument |
| Query.BoxRanges | src/main/java/org/davidmoten/hilbert/SmallHilbertCurve.java:124-125 | one range per box, built box by box in the stream's order |
| Query.BoxRangesAt | src/main/java/org/davidmoten/hilbert/SmallHilbertCurve.java:124-125 | the `k`th range is the range of the `k`th box |
| Query.QuerySpec | src/main/java/org/davidmoten/hilbert/SmallHilbertCurve.java:110-129 | `query` succeeds exactly when both corners have the curve's dimensions, the depth is non-negative and `split` succeeds |
| Query.Query | src/main/java/org/davidmoten/hilbert/SmallHilbertCurve.java:110-129 | the method (checks, split, the map through `toRange`, sort, `reduce`) computes `QuerySpec` |
| Query.ToRangeAsWritten | src/main/java/org/davidmoten/hilbert/SmallHilbertCurve.java:228-244 | the source's `toRange`: a box of one dimension throws out-of-bounds in the perimeter walk; otherwise it agrees with `ToRange` |
| Query.RangesAsWritten | src/main/java/org/davidmoten/hilbert/SmallHilbertCurve.java:124-125 | the stream map through the source's `toRange`: the ranges of the boxes in order, or the error of the first box that throws, which ends the stream |
| Query.QueryAsWritten | src/main/java/org/davidmoten/hilbert/SmallHilbertCurve.java:110-129 | the three-argument `query` as written: the argument checks of lines 120-122, then `split`, then that map, then the sort by low end and `reduce` |
| Query.RangesAsWrittenAgrees | src/main/java/org/davidmoten/hilbert/SmallHilbertCurve.java:124-125 | on a curve of other than one dimension, the source's map through `toRange` gives exactly `BoxRanges` |
| Query.RangesAsWrittenFailsOnLine | src/main/java/org/davidmoten/hilbert/SmallHilbertCurve.java:124-125 | on a curve of one dimension, the source's map throws out-of-bounds on any non-empty list of boxes |
| Query.QueryAsWrittenAgrees | src/main/java/org/davidmoten/hilbert/SmallHilbertCurve.java:110-129 | on a curve of other than one dimension, the source's `query` and `QuerySpec` agree on every input |
| Query.QueryAsWrittenFailsOnLine | src/main/java/org/davidmoten/hilbert/SmallHilbertCurve.java:110-129 | on a curve of one dimension, every query that `QuerySpec` answers throws out-of-bounds in the source |
| Query.QueryAsWrittenFailsOnUnitLine | src/main/java/org/davidmoten/hilbert/SmallHilbertCurve.java:110-129 | on the curve of 1 bit and 1 dimension, the query from [0] to [1] at depth 0 throws out-of-bounds in the source, while `QuerySpec` answers it |
| Query.QueryErrors | src/main/java/org/davidmoten/hilbert/SmallHilbertCurve.java:120-123 | `query` returns an illegal argument exactly for a wrong arity or a negative depth; its only other error is "sigBetween out of range" |
| Query.QueryShape | src/main/java/org/davidmoten/hilbert/SmallHilbertCurve.java:124-128 | the ranges are sorted by low end and separated by gaps; there is at least one, and no more than there are boxes |
| Query.QueryDepthZero | src/main/java/org/davidmoten/hilbert/SmallHilbertCurve.java:110-129 | at depth 0 the query is the single range of the whole box |
| Query.BoxRangeReachesQuery | src/main/java/org/davidmoten/hilbert/SmallHilbertCurve.java:124-128 | every index in some box's range is covered by the query |
| Query.QuerySound | src/main/java/org/davidmoten/hilbert/SmallHilbertCurve.java:124-128 | every index the query covers is in the range of some box |
| Query.QueryCoversSurfaces | src/main/java/org/davidmoten/hilbert/SmallHilbertCurve.java:110-129 | the index of every surface point of every box of the split is covered |
| Query.QueryCoversBox | src/main/java/org/davidmoten/hilbert/SmallHilbertCurve.java:110-129 | the index of every point of the queried box is covered, provided every box of the split has its least and greatest index on its surface |

## Left out

- The transforms of `HilbertCurve` are parameters. The round trips
  `PointOfIndexOf` and `IndexOfPointOf` assume that they invert each other.
- `Util.mostSignificantBetween` is a parameter. It is not proved to stay
  within the box, so the "sigBetween out of range" failure stays reachable
  in the model.
- `Box.java` and `Range.java` are not part of this model:
  - `Box.dropDimension` is modelled as removing coordinate `d` from both
    corners;
  - `Range.create(min, max)` is modelled as the range `[min, max]`, with a
    null bound throwing a null-pointer exception;
  - Java objects become values.
- 64-bit wrap-around in coordinate and range arithmetic is not modelled;
  integers there are unbounded. This affects:
  - `low + 1` and `high + 1` in `split`, and `sigBetween + 1`;
  - `r.low() - 1` in `reduce`;
  - the `i <= upper` loop of `visitBox` at `Long.MAX_VALUE`, which would
    not end in Java.

  The bit-level code (`toIndex`, `transposeLong`, `1L << k`, `|`) and the
  builder's `int` product are modelled exactly.
- The three-argument `query` is modelled; it fixes the strategy to
  `SCAN_ENTIRE_PERIMETER`. The four-argument overload's strategy parameter,
  and `toRange`'s null check on it, are left out.
- `visitVertices` is left out, because no operation in the model calls it.
- The documentation of `point(index)` promises an illegal argument for a
  negative index. The code has no such check, and the model follows the
  code. A negative index, or one at or above 2^length, can make
  `transposeLong`'s `dim` negative, so the array write throws out-of-bounds;
  in other cases it decodes some bits.
- Codec.TransposeLong: on an out-of-bounds write it returns the error but
  does not describe the partly updated array.
- Codec.PointInto: on an out-of-bounds write it returns the error but does
  not describe the partly updated array `x`.
- The visitor receives the shared array `p` in `visitBox`. The model records
  the array's contents at each call, which is what a visitor that reads `p`
  at once sees. A visitor that keeps the reference is not modelled.
- The stream sort is modelled as an insertion sort by low end that puts
  each range before the later ranges with an equal low end. Java's `sorted`
  on an ordered stream is stable, and so is this sort, but only sortedness
  and permutation are proved; stability itself is not.
- Perimeter.VisitBox: requires corners of equal length (`|a| == |b|`), and so
  do `VisitBoxFrom`, `VisitFace`, `VisitPerimeter` and `Query.ToRange`.
  The source's `Box` assumes this too; `query` checks both corners against
  the curve's dimensions.
- Query.QueryCoversBox: soundness for every point of the queried box is
  proved only under the premise the source relies on: the least and
  greatest index of each sub-box lie on its surface. That premise is a
  property of the Hilbert transform, which is a parameter here.
  Unconditionally, the query covers every surface point of every sub-box
  (`QueryCoversSurfaces`).
- Query.ToRange, Query.QuerySpec, Query.Query, Query.QueryErrors: these are
  built on the corrected `visitBox`. In the source, `toRange` on a box of
  one dimension throws out-of-bounds, so every `query` on a one-dimensional
  curve that the model answers throws out-of-bounds in the source
  (`ToRangeAsWritten`, `QueryAsWrittenFailsOnLine`). On curves of any other
  number of dimensions the source and the model agree
  (`QueryAsWrittenAgrees`).
- Perimeter.VisitBox, Perimeter.BoxPoints, Perimeter.PerimeterPoints,
  Perimeter.PerimeterMember, Perimeter.VisitFace, Perimeter.VisitPerimeter:
  these are built on the corrected `visitBox`, which gives a box of no
  dimensions its single empty point. In the source, `visitBox` throws
  out-of-bounds on such a box, so `visitPerimeter` throws on every box of one
  dimension (`VisitBoxAsWritten`, `PerimeterAsWrittenAgrees`). The two
  `visitBox`es agree on every box with a dimension
  (`VisitBoxAsWrittenAgrees`), and the two `visitPerimeter`s on every box
  whose number of dimensions is not one.

## Findings

| source | as written | input that shows it | evidently intended | confidence | as-written member | corrected member |
|---|---|---|---|---|---|---|
| src/main/java/org/davidmoten/hilbert/SmallHilbertCurve.java:320 | `bits * dimensions <= 63` multiplies two `int`s, and the product wraps | `bits = 65536, dimensions = 65536`: the product wraps to 0 and the curve is built | refuse unless the true product is at most 63 | not executed | Config.BuildAsWrittenAcceptsWrappedProduct | Config.Build |
| src/main/java/org/davidmoten/hilbert/SmallHilbertCurve.java:320 | the guard does not require `bits >= 1` and `dimensions >= 1` | `bits = 0, dimensions = 5` is built; `transposeLong` then computes `% bits` with `bits = 0` (line 94) | refuse non-positive bits or dimensions | not executed | Config.BuildAsWrittenAcceptsZeroBits | Config.Build |
| src/main/java/org/davidmoten/hilbert/SmallHilbertCurve.java:195-197 | `visitBox` reads `box.a[0]` even when the box has no dimensions | on a one-dimensional curve, the perimeter of `[0]..[1]` drops its only dimension, and `visitBox` on the empty box throws out-of-bounds, so `toRange` and `query` fail | a box of no dimensions has the single empty point, so the perimeter is `[0]` and `[1]` | not executed; `Box.dropDimension` is not part of this model | Perimeter.VisitBoxAsWrittenFailsOnLine | Perimeter.VisitBox |
| src/main/java/org/davidmoten/hilbert/SmallHilbertCurve.java:110-129 | `query` maps each box through `toRange`, whose perimeter walk reaches `visitBox` on a box of no dimensions when the curve has one dimension | the curve of 1 bit and 1 dimension, `query([0], [1], 0)`: `toRange` of the box [0]..[1] throws out-of-bounds | return the single range from the least to the greatest index of the points [0] and [1] (`QueryDepthZero`) | not executed; `Box.dropDimension` is not part of this model | Query.QueryAsWrittenFailsOnUnitLine | Query.QuerySpec |
