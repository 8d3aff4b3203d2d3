/**
 * Closed-open time intervals `[start, end)` over signed 64-bit milliseconds,
 * with containment, intersection, union and the partial order that places an
 * interval before another only when it ends no later than the other starts.
 */
module TimeIntervals {
  import opened Util

  /** Rust's `i64`. The model only compares and takes minima and maxima, so no value leaves this range. */
  newtype i64 = x: int | -0x8000_0000_0000_0000 <= x < 0x8000_0000_0000_0000

  /** An interval `[start, end)` in milliseconds; equality is structural. */
  datatype TimeInterval = TimeInterval(start: i64, end: i64)

  datatype TimeIntervalError =
    | EndBeforeStart(start: i64, end: i64)
    | UnmatchedIntervals(i1: TimeInterval, i2: TimeInterval)

  /** `std::cmp::Ordering`. */
  datatype Ordering = Less | Equal | Greater

  /** The bound invariant that the checked constructor establishes. */
  predicate Checked(t: TimeInterval) {
    t.start <= t.end
  }

  /** The instant `x` lies in the half-open range of `t`. */
  predicate Holds(t: TimeInterval, x: i64) {
    t.start <= x < t.end
  }

  /** `TimeInterval::new`: succeeds exactly for ordered bounds, and keeps them. */
  function New(start: i64, end: i64): (r: Result<TimeInterval, TimeIntervalError>)
    ensures r.Ok? <==> start <= end
    ensures r.Ok? ==> Checked(r.value) && r.value.start == start && r.value.end == end
    ensures r.Err? ==> r.error == EndBeforeStart(start, end)
  {
    if start <= end then Ok(TimeInterval(start, end)) else Err(EndBeforeStart(start, end))
  }

  /** `TimeInterval::new_unchecked`: the same interval as `New` whenever `New` accepts the bounds. */
  function NewUnchecked(start: i64, end: i64): (t: TimeInterval)
    ensures New(start, end).Ok? ==> t == New(start, end).value
    ensures !Checked(t) <==> New(start, end).Err?
  {
    TimeInterval(start, end)
  }

  /** `contains`: `other` lies within `self`, bounds included. */
  predicate Contains(self: TimeInterval, other: TimeInterval) {
    self.start <= other.start && self.end >= other.end
  }

  /** `intersects`: the two ranges overlap in their interiors; touching is not enough. */
  predicate Intersects(self: TimeInterval, other: TimeInterval) {
    self.start < other.end && self.end > other.start
  }

  /** One interval ends exactly where the other starts. */
  predicate Contiguous(self: TimeInterval, other: TimeInterval) {
    self.start == other.end || self.end == other.start
  }

  function Min(a: i64, b: i64): (m: i64) { if a <= b then a else b }

  function Max(a: i64, b: i64): (m: i64) { if a >= b then a else b }

  /**
   * `union`: defined for intersecting or contiguous intervals, and then the
   * smallest interval that contains both operands.
   */
  function Union(self: TimeInterval, other: TimeInterval): (r: Result<TimeInterval, TimeIntervalError>)
    ensures r.Ok? <==> Intersects(self, other) || Contiguous(self, other)
    ensures r.Ok? ==> Contains(r.value, self) && Contains(r.value, other)
    ensures r.Ok? ==> forall t :: Contains(t, self) && Contains(t, other) ==> Contains(t, r.value)
    ensures r.Err? ==> r.error == UnmatchedIntervals(self, other)
  {
    if Intersects(self, other) || Contiguous(self, other) then
      Ok(TimeInterval(Min(self.start, other.start), Max(self.end, other.end)))
    else
      Err(UnmatchedIntervals(self, other))
  }

  /**
   * `partial_cmp`: Equal for equal intervals, Less when `self` ends no later
   * than `other` starts, Greater when it starts no earlier than `other` ends,
   * and no ordering at all otherwise. Less is checked first, so a zero-length
   * interval that touches the other on both sides counts as Less. For
   * non-empty operands, Less and Greater mean that every instant of one lies
   * before every instant of the other.
   */
  function PartialCmp(self: TimeInterval, other: TimeInterval): (r: Option<Ordering>)
    ensures r == Some(Equal) <==> self == other
    ensures r == Some(Less) <==> self != other && self.end <= other.start
    ensures r == Some(Greater) <==> self != other && self.end > other.start && self.start >= other.end
    ensures r == Some(Less) ==> forall x, y :: Holds(self, x) && Holds(other, y) ==> x < y
    ensures r == Some(Greater) ==> forall x, y :: Holds(self, x) && Holds(other, y) ==> x > y
    ensures r.None? <==> self != other && Intersects(self, other)
  {
    if self == other then Some(Equal)
    else if self.end <= other.start then Some(Less)
    else if self.start >= other.end then Some(Greater)
    else None
  }

  // ----- Properties of containment and intersection -----

  lemma ContainsReflexive(t: TimeInterval)
    ensures Contains(t, t)
  {
  }

  /** Mutual containment is equality. */
  lemma ContainsAntisymmetric(a: TimeInterval, b: TimeInterval)
    requires Contains(a, b) && Contains(b, a)
    ensures a == b
  {
  }

  /** For checked intervals, containment is containment of the instants they hold. */
  lemma ContainsMeansHoldsAll(a: TimeInterval, b: TimeInterval)
    requires b.start < b.end
    ensures Contains(a, b) <==> forall x :: Holds(b, x) ==> Holds(a, x)
  {
    if forall x :: Holds(b, x) ==> Holds(a, x) {
      assert Holds(b, b.start);
      assert Holds(b, b.end - 1);
    }
  }

  lemma IntersectsSymmetric(a: TimeInterval, b: TimeInterval)
    ensures Intersects(a, b) <==> Intersects(b, a)
  {
  }

  /** Intervals that only touch do not intersect. */
  lemma TouchingDoesNotIntersect(a: TimeInterval, b: TimeInterval)
    requires a.end == b.start
    ensures !Intersects(a, b) && !Intersects(b, a)
  {
  }

  /**
   * Intersection of non-empty intervals is a shared instant. (An empty interval
   * such as `[1, 1)` still intersects `[0, 2)` under `Intersects`.)
   */
  lemma IntersectsMeansSharedInstant(a: TimeInterval, b: TimeInterval)
    requires a.start < a.end && b.start < b.end
    ensures Intersects(a, b) <==> exists x :: Holds(a, x) && Holds(b, x)
  {
    if Intersects(a, b) {
      var x := Max(a.start, b.start);
      assert Holds(a, x) && Holds(b, x);
    }
  }

  // ----- Properties of union -----

  lemma UnionCommutative(a: TimeInterval, b: TimeInterval)
    ensures Union(a, b).Ok? <==> Union(b, a).Ok?
    ensures Union(a, b).Ok? ==> Union(a, b).value == Union(b, a).value
  {
  }

  /** The union of checked intervals is checked and holds exactly the instants of its operands. */
  lemma UnionHoldsExactlyOperands(a: TimeInterval, b: TimeInterval)
    requires Checked(a) && Checked(b) && Union(a, b).Ok?
    ensures Checked(Union(a, b).value)
    ensures forall x :: Holds(Union(a, b).value, x) <==> Holds(a, x) || Holds(b, x)
  {
  }

  // ----- Properties of the partial order -----

  /** Equal is returned for, and only for, structurally equal intervals. */
  lemma PartialCmpEqualIff(a: TimeInterval, b: TimeInterval)
    ensures PartialCmp(a, b) == Some(Equal) <==> a == b
    ensures PartialCmp(a, a) == Some(Equal)
  {
  }

  /** Duality required of `PartialOrd`: `a < b` exactly when `b > a`, for checked intervals. */
  lemma PartialCmpDuality(a: TimeInterval, b: TimeInterval)
    requires Checked(a) && Checked(b)
    ensures PartialCmp(a, b) == Some(Less) <==> PartialCmp(b, a) == Some(Greater)
    ensures PartialCmp(a, b).None? <==> PartialCmp(b, a).None?
  {
  }

  /** Less is transitive on checked intervals. */
  lemma PartialCmpLessTransitive(a: TimeInterval, b: TimeInterval, c: TimeInterval)
    requires Checked(a) && Checked(b) && Checked(c)
    requires PartialCmp(a, b) == Some(Less) && PartialCmp(b, c) == Some(Less)
    ensures PartialCmp(a, c) == Some(Less)
  {
  }

  /** Less is asymmetric on checked intervals. */
  lemma PartialCmpLessAsymmetric(a: TimeInterval, b: TimeInterval)
    requires Checked(a) && Checked(b)
    requires PartialCmp(a, b) == Some(Less)
    ensures PartialCmp(b, a) != Some(Less)
  {
  }

  /** Distinct intervals that intersect are incomparable. */
  lemma IntersectingIncomparable(a: TimeInterval, b: TimeInterval)
    requires a != b && Intersects(a, b)
    ensures PartialCmp(a, b).None?
  {
  }

  /** The documented examples of construction, containment, intersection, union and ordering. */
  lemma Examples()
    ensures New(0, 0).Ok? && New(0, 1).Ok? && New(1, 0) == Err(EndBeforeStart(1, 0))
    ensures NewUnchecked(0, 1) == New(0, 1).value
    ensures Contains(TimeInterval(0, 1), TimeInterval(0, 1))
    ensures Contains(TimeInterval(0, 3), TimeInterval(1, 2))
    ensures Contains(TimeInterval(0, 2), TimeInterval(0, 1))
    ensures Contains(TimeInterval(0, 2), TimeInterval(1, 2))
    ensures !Contains(TimeInterval(0, 1), TimeInterval(-1, 2))
    ensures Intersects(TimeInterval(0, 1), TimeInterval(0, 1))
    ensures Intersects(TimeInterval(0, 3), TimeInterval(1, 2))
    ensures Intersects(TimeInterval(0, 2), TimeInterval(1, 3))
    ensures Intersects(TimeInterval(0, 1), TimeInterval(0, 2))
    ensures Intersects(TimeInterval(0, 2), TimeInterval(-2, 1))
    ensures !Intersects(TimeInterval(0, 1), TimeInterval(-1, 0))
    ensures !Intersects(TimeInterval(0, 1), TimeInterval(1, 2))
    ensures !Intersects(TimeInterval(0, 1), TimeInterval(2, 3))
    ensures Union(TimeInterval(0, 2), TimeInterval(1, 3)) == Ok(TimeInterval(0, 3))
    ensures Union(TimeInterval(0, 2), TimeInterval(2, 4)) == Ok(TimeInterval(0, 4))
    ensures Union(TimeInterval(0, 2), TimeInterval(3, 5)).Err?
    ensures PartialCmp(TimeInterval(0, 1), TimeInterval(0, 1)) == Some(Equal)
    ensures PartialCmp(TimeInterval(0, 1), TimeInterval(1, 2)) == Some(Less)
    ensures PartialCmp(TimeInterval(1, 2), TimeInterval(0, 1)) == Some(Greater)
    ensures PartialCmp(TimeInterval(0, 2), TimeInterval(1, 3)).None?
    ensures PartialCmp(TimeInterval(0, 1), TimeInterval(0, 2)).None?
    ensures PartialCmp(TimeInterval(2, 2), TimeInterval(5, 8)) == Some(Less)
    ensures PartialCmp(TimeInterval(2, 2), TimeInterval(5, 5)) == Some(Less)
  {
  }
}
