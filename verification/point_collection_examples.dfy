/**
 * The documented examples of the point collection, replayed through the
 * contracts of its operations.
 */
module PointCollectionExamples {
  import opened Util
  import opened PointCollections

  /** Keeping the first and third of three runs keeps exactly those two, back to back. */
  lemma KeepFirstAndThird(a: Run, b: Run, c: Run)
    ensures Retain([a, b, c], [true, false, true]) == [a, c]
    ensures Flatten([a, c]) == a + c
  {
    assert [a, b, c][..2] == [a, b] && [a, b][..1] == [a] && [a][..0] == [];
    assert [true, false, true][..2] == [true, false] && [true, false][..1] == [true] && [true][..0] == [];
    assert Retain([a], [true]) == [a];
    assert Retain([a, b], [true, false]) == [a];
    assert [a, c][..1] == [a];
    assert Flatten([a]) == a;
  }

  /** A collection of the three one-point features `p0`, `p1`, `p2`, built by `add_point`. */
  method ThreePoints(p0: Coordinate, p1: Coordinate, p2: Coordinate) returns (pc: PointCollection)
    ensures fresh(pc) && pc.IsValid() && pc.MultiPoints() == [[p0], [p1], [p2]]
  {
    pc := new PointCollection();
    pc.AddPoint(p0);
    pc.AddPoint(p1);
    pc.AddPoint(p2);
  }

  /** `feature_indices` after two `add_point`s and an `add_multipoint`. */
  method AddExample() returns (indices: seq<nat>)
    ensures indices == [0, 1, 2, 4]
  {
    var pc := new PointCollection();
    pc.AddPoint(Coordinate(0.0, 0.0));
    pc.AddPoint(Coordinate(1.0, 1.0));
    assert pc.featureIndices == [0, 1, 2];
    pc.AddMultipoint([Coordinate(2.0, 2.0), Coordinate(3.0, 3.0)]);
    indices := pc.featureIndices;
  }

  /** `is_simple` holds for one-point features and fails once a two-point feature is added. */
  method SimpleExample() returns (simple: bool)
    ensures !simple
  {
    var pc := new PointCollection();
    assert pc.IsSimple();
    pc.AddPoint(Coordinate(0.0, 0.0));
    pc.AddPoint(Coordinate(1.0, 1.0));
    pc.AddPoint(Coordinate(2.0, 2.0));
    assert pc.IsSimple();
    pc.AddMultipoint([Coordinate(3.0, 3.0)]);
    assert pc.IsSimple();
    pc.AddMultipoint([Coordinate(4.0, 4.0), Coordinate(5.0, 5.0)]);
    simple := pc.IsSimple();
  }

  /** `remove_last_feature` takes off one feature at a time, a multipoint as a whole. */
  method RemoveExample() returns (empty: bool)
    ensures empty
  {
    var pc := new PointCollection();
    pc.AddPoint(Coordinate(0.0, 0.0));
    pc.AddPoint(Coordinate(1.0, 1.0));
    assert pc.Len() == 2;
    var r := pc.RemoveLastFeature();
    assert r.Ok? && pc.Len() == 1;
    r := pc.RemoveLastFeature();
    assert r.Ok? && pc.IsEmpty();
    pc.AddMultipoint([Coordinate(4.0, 4.0), Coordinate(5.0, 5.0)]);
    assert pc.Len() == 1;
    r := pc.RemoveLastFeature();
    assert r.Ok?;
    empty := pc.IsEmpty();
  }

  /** `filter` with `[true, false, true]` keeps the first and third of three points. */
  method FilterExample() returns (filtered: seq<Coordinate>)
    ensures filtered == [Coordinate(0.0, 0.0), Coordinate(2.0, 2.0)]
  {
    var p0, p1, p2 := Coordinate(0.0, 0.0), Coordinate(1.0, 1.0), Coordinate(2.0, 2.0);
    KeepFirstAndThird([p0], [p1], [p2]);
    var pc := ThreePoints(p0, p1, p2);
    var r := pc.Filter([true, false, true]);
    assert r.Ok? && r.value.Len() == 2;
    filtered := r.value.coordinates;
  }

  /** `filter_inplace` with `[true, false, true]` keeps the first and third of three points. */
  method FilterInplaceExample() returns (filtered: seq<Coordinate>)
    ensures filtered == [Coordinate(0.0, 0.0), Coordinate(2.0, 2.0)]
  {
    var p0, p1, p2 := Coordinate(0.0, 0.0), Coordinate(1.0, 1.0), Coordinate(2.0, 2.0);
    KeepFirstAndThird([p0], [p1], [p2]);
    var pc := ThreePoints(p0, p1, p2);
    var r := pc.FilterInplace([true, false, true]);
    assert r.Ok? && pc.Len() == 2;
    filtered := pc.coordinates;
  }

  /** A predicate that accepts the first and third of three runs and rejects the second masks them as `[true, false, true]`. */
  lemma MaskOfThree(a: Run, b: Run, c: Run, keep: Run -> bool)
    requires keep(a) && !keep(b) && keep(c)
    ensures PredicateMask([a, b, c], keep) == [true, false, true]
  {
  }

  /** `filter_with_predicate`, asked to drop the feature at `(1, 1)`, keeps the other two. */
  method FilterWithPredicateExample() returns (filtered: seq<Coordinate>)
    ensures filtered == [Coordinate(0.0, 0.0), Coordinate(2.0, 2.0)]
  {
    var p0, p1, p2 := Coordinate(0.0, 0.0), Coordinate(1.0, 1.0), Coordinate(2.0, 2.0);
    var keep := (points: Run) => |points| > 0 && points[0] != p1;
    KeepFirstAndThird([p0], [p1], [p2]);
    MaskOfThree([p0], [p1], [p2], keep);
    var pc := ThreePoints(p0, p1, p2);
    var copy := pc.FilterWithPredicate(keep);
    assert copy.Len() == 2;
    filtered := copy.coordinates;
  }

  /** `filter_inplace_with_predicate`, asked to drop the feature at `(1, 1)`, keeps the other two. */
  method FilterInplaceWithPredicateExample() returns (filtered: seq<Coordinate>)
    ensures filtered == [Coordinate(0.0, 0.0), Coordinate(2.0, 2.0)]
  {
    var p0, p1, p2 := Coordinate(0.0, 0.0), Coordinate(1.0, 1.0), Coordinate(2.0, 2.0);
    var keep := (points: Run) => |points| > 0 && points[0] != p1;
    KeepFirstAndThird([p0], [p1], [p2]);
    MaskOfThree([p0], [p1], [p2], keep);
    var pc := ThreePoints(p0, p1, p2);
    pc.FilterInplaceWithPredicate(keep);
    assert pc.Len() == 2;
    filtered := pc.coordinates;
  }
}
