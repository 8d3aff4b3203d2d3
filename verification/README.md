# Point collections and time intervals, in Dafny

A model of three parts of the geo-engine `datatypes` crate, with proofs of
what they promise.

- **`PointCollection`**: a columnar store of point and multi-point
  features. An offsets vector `feature_indices` delimits features in a flat
  `coordinates` buffer, so feature `i` is `coordinates[feature_indices[i] ..
  feature_indices[i + 1]]`. The model is the class
  `PointCollections.PointCollection`, with both vectors as `seq` fields that
  the methods reassign.
  - The meaning of the encoding is given by value-level functions:
    - `Runs` decodes it into the sequence of features;
    - `Offsets` and `Flatten` encode a sequence of features back.
    - The two are proved to be inverses between sequences of non-empty runs and valid data whose first offset is 0 (`DecodeEncode`, `EncodeDecode`).
  - Every filter is specified by `Retain`, which keeps the features whose
    mask entry is true, in order.
    - The copying filters build the encoding of `Retain(...)` with a loop.
    - The in-place filters are index loops. They overwrite
      `feature_indices[feature_index]` while `feature_indices[i + 1]` is
      still to be read, move each kept run down with `copy_within`, then
      truncate both vectors.
    - Both in-place filters are proved to leave the collection equal to what
      the copying filter of the same kind returns.
  - The in-place loops are specified step by step by `WalkState`. Its
    closed form, `Compacted`, says that the kept runs are packed at the
    front and everything past the two write cursors is untouched.
- **`TimeInterval`**: a half-open `[start, end)` interval of `i64`
  milliseconds. It is modelled as a datatype with functions and lemmas:
  - a checked constructor;
  - containment and intersection;
  - union of intersecting or contiguous intervals;
  - the partial order that places an interval before another only when it
    ends no later than the other starts.
- **`FeatureCollection`**: the capability contract. It is modelled as its
  error enum, the default `is_empty` and the contract's own test double.
  The point collection implements the rest of the contract (`len`,
  `is_simple`, `remove_last_feature`) as class members.

Files:
- `util.dfy`: `Result` and `Option`.
- `time_interval.dfy`: module `TimeIntervals`.
- `feature_collection.dfy`: module `FeatureCollections`.
- `point_collection.dfy`: module `PointCollections`.
- `point_collection_examples.dfy`: module `PointCollectionExamples`, the documented examples of the point collection, replayed through the contracts of its methods.

## Model

| member | source | states |
|---|---|---|
| TimeIntervals.New | src/primitives/time_interval.rs:42-48 | succeeds exactly when `start <= end`, and then keeps both bounds; otherwise fails with `EndBeforeStart(start, end)` |
| TimeIntervals.NewUnchecked | src/primitives/time_interval.rs:62-64 | equals the checked constructor's interval whenever that one succeeds, and is unchecked exactly when it fails |
| TimeIntervals.Contains | src/primitives/time_interval.rs:95-97 | the source's bound comparison, `other` within `self` bounds included; `ContainsMeansHoldsAll` states that for a non-empty `other` this is holding every instant of `other` |
| TimeIntervals.Intersects | src/primitives/time_interval.rs:138-140 | the source's strict comparison of the bounds; `IntersectsMeansSharedInstant` states that for non-empty intervals this is sharing an instant, and `TouchingDoesNotIntersect` that touching is not enough |
| TimeIntervals.Union | src/primitives/time_interval.rs:159-172 | succeeds exactly for intersecting or contiguous intervals, and then returns the smallest interval that contains both; otherwise fails with `UnmatchedIntervals(self, other)` |
| TimeIntervals.PartialCmp | src/primitives/time_interval.rs:233-243 | Equal exactly for equal intervals; otherwise Less exactly when `self` ends no later than `other` starts, and Greater exactly when it does not but starts no earlier than `other` ends, zero-length operands included; Less means every instant of `self` precedes every instant of `other`, and Greater the reverse; no ordering exactly for distinct intersecting intervals |
| TimeIntervals.ContainsReflexive | src/primitives/time_interval.rs:95-97 | every interval contains itself |
| TimeIntervals.ContainsAntisymmetric | src/primitives/time_interval.rs:95-97 | mutual containment is equality |
| TimeIntervals.ContainsMeansHoldsAll | src/primitives/time_interval.rs:66-97 | for a non-empty `b`, `a` contains `b` exactly when `a` holds every instant of `b` |
| TimeIntervals.IntersectsSymmetric | src/primitives/time_interval.rs:138-140 | intersection is symmetric |
| TimeIntervals.TouchingDoesNotIntersect | src/primitives/time_interval.rs:120-124 | intervals that only touch do not intersect, either way round |
| TimeIntervals.IntersectsMeansSharedInstant | src/primitives/time_interval.rs:99-140 | non-empty intervals intersect exactly when they share an instant |
| TimeIntervals.UnionCommutative | src/primitives/time_interval.rs:159-172 | union succeeds for `(a, b)` exactly when it does for `(b, a)`, with the same result |
| TimeIntervals.UnionHoldsExactlyOperands | src/primitives/time_interval.rs:159-172 | the union of checked intervals is checked and holds exactly the instants of its operands |
| TimeIntervals.PartialCmpEqualIff | src/primitives/time_interval.rs:233-235 | Equal is returned for, and only for, equal intervals (the same fact as the first clause of `PartialCmp`'s contract, stated as a lemma) |
| TimeIntervals.PartialCmpDuality | src/primitives/time_interval.rs:197-243 | on checked intervals, `a < b` exactly when `b > a`, and `a`, `b` are incomparable exactly when `b`, `a` are |
| TimeIntervals.PartialCmpLessTransitive | src/primitives/time_interval.rs:197-243 | Less is transitive on checked intervals |
| TimeIntervals.PartialCmpLessAsymmetric | src/primitives/time_interval.rs:197-243 | Less is asymmetric on checked intervals |
| TimeIntervals.IntersectingIncomparable | src/primitives/time_interval.rs:233-243 | distinct intersecting intervals are incomparable (one direction of the last clause of `PartialCmp`'s contract, stated as a lemma) |
| TimeIntervals.Examples | src/primitives/time_interval.rs:29-231 | the documented examples of `new`, `new_unchecked`, `contains`, `intersects`, `union` and `partial_cmp`, plus a zero-length interval ordered Less before a later one |
| FeatureCollections.IsEmptyByDefault | src/collections/feature_collection.rs:10-12 | the trait's default `is_empty`, a feature count of zero; `DummyIsEmptyIffNoItems` states what that means for an implementation |
| FeatureCollections.DummyIsEmptyIffNoItems | src/collections/feature_collection.rs:10-12 | with the default `is_empty`, a collection is empty exactly when it has no features |
| FeatureCollections.DummyExamples | src/collections/feature_collection.rs:47-51 | the contract's test: a three-element collection is not empty, an empty one is |
| PointCollections.AdjacentIncreasingIsStrict | src/collections/point_collection.rs:154-162 | offsets that increase pairwise (the `windows(2)` test) increase strictly overall |
| PointCollections.IsValidData | src/collections/point_collection.rs:141-165 | valid exactly when the offsets are non-empty, the last one is the coordinate count, and they are strictly increasing |
| PointCollections.ValidityExamples | src/collections/point_collection.rs:71-85 | the documented examples: `[0, 1, 2]` over two coordinates is valid and empty offsets are not; a repeated offset is not valid either |
| PointCollections.OffsetsWithinCoordinates | src/collections/point_collection.rs:141-165 | in valid data every offset lies within the coordinate buffer |
| PointCollections.Runs | src/collections/point_collection.rs:212-220 | one run per feature, each non-empty, of the length its offsets give |
| PointCollections.RunAt | src/collections/point_collection.rs:212-220 | feature `i` is the slice between offsets `i` and `i + 1` |
| PointCollections.Offsets | src/collections/point_collection.rs:381-396 | the encoding's offsets start at 0 and end at the flattened length |
| PointCollections.EncodeSnoc | src/collections/point_collection.rs:133-138 | appending a run appends its coordinates and one closing offset |
| PointCollections.EncodePrefix | src/collections/point_collection.rs:381-396 | a prefix of the runs encodes to a prefix of the encoding |
| PointCollections.RunInEncoding | src/collections/point_collection.rs:381-396 | each run sits in the flattened buffer exactly where its offsets say |
| PointCollections.DecodeEncode | src/collections/point_collection.rs:381-396 | non-empty runs encode to valid data that decodes back to the same runs |
| PointCollections.EncodeDecode | src/collections/point_collection.rs:141-165 | valid data whose first offset is 0 is exactly the encoding of its own features |
| PointCollections.RunsSnoc | src/collections/point_collection.rs:115-138 | appending a non-empty run to valid data keeps it valid and adds exactly that feature |
| PointCollections.RunsInit | src/collections/point_collection.rs:342-353 | dropping the last offset and cutting the coordinates back keeps valid data valid and drops exactly the last feature |
| PointCollections.FlattenLengthBound | src/collections/point_collection.rs:292-312 | non-empty runs hold at least one coordinate each, and exactly one each only when every run is a single point |
| PointCollections.SimpleIffSinglePoints | src/collections/point_collection.rs:292-312 | on valid data starting at offset 0, "as many features as coordinates" means "every feature is a single point" |
| PointCollections.SimpleNeedsZeroFirstOffset | src/collections/point_collection.rs:310-312 | without a first offset of 0 the two disagree: valid `[1, 2, 3]` has single-point features but fails the test |
| PointCollections.Retain | src/collections/point_collection.rs:376-402 | the kept runs are never more than the runs |
| PointCollections.RetainStep | src/collections/point_collection.rs:384-395 | extending the walk by one feature appends it to the kept runs exactly when its entry is true |
| PointCollections.RetainCount | src/collections/point_collection.rs:376-402 | as many runs are kept as the mask has true entries |
| PointCollections.RetainNonEmpty | src/collections/point_collection.rs:376-402 | the kept runs of non-empty runs are non-empty |
| PointCollections.RetainAll | src/collections/point_collection.rs:376-402 | an all-true mask keeps every run |
| PointCollections.RetainedSatisfy | src/collections/point_collection.rs:423-448 | every run the predicate filter keeps satisfies the predicate |
| PointCollections.RetainedMembers | src/collections/point_collection.rs:423-448 | a run is kept by the predicate filter exactly when it is one of the runs and the predicate accepts it |
| PointCollections.FilterIdempotent | src/collections/point_collection.rs:423-448 | filtering twice with the same predicate is filtering once |
| PointCollections.FilteredIsValid | src/collections/point_collection.rs:376-402 | the filtered encoding is valid, starts at 0, has one feature per true entry and decodes to exactly the kept runs |
| PointCollections.FilterAllTrueIsIdentity | src/collections/point_collection.rs:376-402 | an all-true mask reproduces valid data that starts at offset 0 |
| PointCollections.FilterStep | src/collections/point_collection.rs:384-395 | one iteration of the copying loop extends the output to the encoding of the kept runs so far |
| PointCollections.RunsLayout | src/collections/point_collection.rs:141-165 | valid data lays out each of its features between consecutive offsets |
| PointCollections.CopyWithin | src/collections/point_collection.rs:482 | `copy_within` keeps the length, puts the source range at the destination, and leaves everything outside the destination as it was, overlapping or not |
| PointCollections.WalkCompacts | src/collections/point_collection.rs:475-487 | before feature `i`, the walk state is the kept runs so far compacted to the front, with the cursor not past feature `i`'s original start |
| PointCollections.WalkLeavesRest | src/collections/point_collection.rs:475-487 | before feature `i`: at most `i` offsets written, the cursor not past feature `i`'s original start, and every offset from `i` on and every coordinate from that start on still original |
| PointCollections.WalkStep | src/collections/point_collection.rs:475-487 | feature `i` is still in place when visited; a kept one fits at the cursor and is moved there; a skipped one changes nothing |
| PointCollections.WalkDone | src/collections/point_collection.rs:488-493 | closing the last offset and truncating both vectors leaves exactly the encoding of the kept runs |
| PointCollections.PointCollection.constructor | src/collections/point_collection.rs:14-19 | offsets `[0]` and no coordinates: valid, no features, empty |
| PointCollections.PointCollection.FromDataUnchecked | src/collections/point_collection.rs:87-95 | the vectors are taken as they are |
| PointCollections.PointCollection.FromData | src/collections/point_collection.rs:54-65 | Ok exactly for valid data, holding exactly those vectors; `UnmatchedFeatureIndices` otherwise |
| PointCollections.PointCollection.IsValid | src/collections/point_collection.rs:141-165 | holds exactly when the offsets are non-empty, the last one is the number of coordinates, and they are strictly increasing over all pairs |
| PointCollections.PointCollection.MultiPoints | src/collections/point_collection.rs:212-220 | one feature per window of two offsets, as many as `len`; through `Runs`, each is non-empty and is the slice between its two offsets (`RunAt`) |
| PointCollections.PointCollection.Len | src/collections/point_collection.rs:283-285 | the number of features, not coordinates |
| PointCollections.PointCollection.IsEmpty | src/collections/feature_collection.rs:10-12 | empty exactly when there are no features |
| PointCollections.PointCollection.IsSimple | src/collections/point_collection.rs:310-312 | on valid data starting at offset 0, true exactly when every feature is a single point |
| PointCollections.PointCollection.AddPoint | src/collections/point_collection.rs:115-118 | one coordinate and one offset equal to the new coordinate count; valid data stays valid and gains exactly the one-point feature |
| PointCollections.PointCollection.AddMultipoint | src/collections/point_collection.rs:133-138 | no change for an empty slice; otherwise all its coordinates and one offset, and valid data gains exactly that feature |
| PointCollections.PointCollection.RemoveLastFeature | src/collections/point_collection.rs:342-353 | `DeleteFromEmpty`, with no change, exactly when there is no feature; otherwise one offset popped, the coordinates cut back, and valid data keeps all earlier features |
| PointCollections.PointCollection.Filter | src/collections/point_collection.rs:376-402 | `MaskDoesNotMatchFeatures` exactly when the mask length is not the feature count; otherwise a fresh valid collection starting at offset 0 whose features are exactly the kept ones, in order |
| PointCollections.PointCollection.FilterWithPredicate | src/collections/point_collection.rs:423-448 | a fresh valid collection starting at offset 0 whose features are exactly those the predicate accepts, in order (the helper `PredicateMask` records the predicate's answer for each feature, so the result is stated with `Retain`) |
| PointCollections.PointCollection.FilterInplace | src/collections/point_collection.rs:468-496 | the mask is checked before any change, and a mismatch changes nothing; otherwise the collection becomes exactly what `Filter` returns for the same mask |
| PointCollections.PointCollection.CompactByMask | src/collections/point_collection.rs:473-493 | the compaction loop and truncation leave both vectors encoding exactly the runs whose entry is true |
| PointCollections.PointCollection.FilterInplaceWithPredicate | src/collections/point_collection.rs:517-543 | the collection becomes exactly what `FilterWithPredicate` returns for the same predicate |
| PointCollections.PointCollection.CompactByPredicate | src/collections/point_collection.rs:520-542 | the compaction loop, asking the predicate about each feature's coordinates while they are still in place, leaves exactly the accepted runs encoded (a ghost `mask` records the predicate's answer for every run) |
| PointCollectionExamples.AddExample | src/collections/point_collection.rs:225-238 | two `add_point`s give offsets `[0, 1, 2]`, and a two-point `add_multipoint` then gives `[0, 1, 2, 4]` |
| PointCollectionExamples.SimpleExample | src/collections/point_collection.rs:288-307 | an empty collection, three points and a one-point multipoint are simple; adding a two-point multipoint makes it not simple |
| PointCollectionExamples.RemoveExample | src/collections/point_collection.rs:316-339 | `remove_last_feature` takes two points off one at a time, then a two-point multipoint as a whole, each time succeeding, and leaves the collection empty |
| PointCollectionExamples.FilterExample | src/collections/point_collection.rs:358-373 | `filter` of three points with `[true, false, true]` succeeds with two features, coordinates `(0, 0)` and `(2, 2)` |
| PointCollectionExamples.FilterInplaceExample | src/collections/point_collection.rs:450-465 | `filter_inplace` of three points with `[true, false, true]` succeeds and leaves two features, coordinates `(0, 0)` and `(2, 2)` |
| PointCollectionExamples.FilterWithPredicateExample | src/collections/point_collection.rs:405-420 | `filter_with_predicate` dropping the feature that starts at `(1, 1)` returns two features, coordinates `(0, 0)` and `(2, 2)` |
| PointCollectionExamples.FilterInplaceWithPredicateExample | src/collections/point_collection.rs:500-515 | `filter_inplace_with_predicate` dropping the feature that starts at `(1, 1)` leaves two features, coordinates `(0, 0)` and `(2, 2)` |

## Left out

- Coordinates are a datatype of two `real`s. Nothing in the modelled code computes on them, so float semantics and float equality are not modelled.
- The `geo::Point` and `geo::MultiPoint` conversions are left out (`geo_points_iter` and `geo_multi_points_iter`, point_collection.rs:186-220). They belong to a foreign library. The multi-point iterator is modelled as `Runs`, the sequence of coordinate runs.
- The accessors `feature_indices()` and `coordinates()` are the class's fields themselves.
- The serde derives, `Debug` and `Display` are left out. They are library-generated or string formatting.
- snafu error conversion is replaced by the `Result` datatype and plain error enums.
- `Filterable` and its error enum are declared in `crate::operations`, which is not part of this model. The error enum is restated locally as `FilterableError`.
- `FeatureCollection` is a Rust trait. Here it is its error datatype, its default `is_empty` as a predicate over a feature count, and its test double `Dummy`. The point collection implements the trait's members directly in its class; there is no trait declaration that the class extends.
- Predicates are `FnMut` closures in the source. Here they are pure functions `Run -> bool`, so a stateful predicate is not modelled.
- `usize` is `nat`. Index arithmetic cannot overflow in Rust here, and underflow only happens on invalid data, which the preconditions exclude.
- The copying and in-place filters require the collection to be valid. The `len`/`is_empty`/`is_simple` queries require only at least one offset, which rules out the `usize` underflow of `feature_indices.len() - 1`. On invalid data (reachable through `from_data_unchecked`) the filters can underflow or panic in the source, and that is not modelled. `RemoveLastFeature` requires only what keeps its cut a truncation.
- The in-place filters change the two vectors by reassigning whole `seq` values (`CopyWithin`, update, truncation). Aliasing between the vectors and memory reuse are not modelled.
- The loops of `filter_inplace` and `filter_inplace_with_predicate` are in their own methods, `CompactByMask` and `CompactByPredicate`. Each is called after the mask-length check, and states its result in terms of the layout of the features rather than of `is_valid`.
- `WalkState`: a step whose ranges would not fit is treated as a skip. `WalkStep` proves that on valid data no such step occurs.
- `is_valid` does not require the first offset to be 0. Data that starts elsewhere is valid, but `is_simple` can then disagree with "every feature is a single point" (`SimpleNeedsZeroFirstOffset`). `IsSimple` states the equivalence only for a first offset of 0. `new`/`default` and all four filters produce a first offset of 0, and `add_point`, `add_multipoint` and `remove_last_feature` keep it. `from_data` and `from_data_unchecked` need not: `from_data` accepts `[1, 2, 3]` over three coordinates, and `is_simple` is then false although both features are single points.
- `src/primitives/mod.rs` holds only module declarations and re-exports. It is not part of this model.
- `TimeInterval` bounds are an `i64` newtype. The model only compares bounds and takes minima and maxima, so no overflow can arise.
