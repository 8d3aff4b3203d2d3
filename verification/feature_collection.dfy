/**
 * The capability set shared by every feature collection: its error vocabulary
 * and the one operation it defines for all implementations, `is_empty`.
 * The remaining capabilities (`len`, `is_simple`, `remove_last_feature`) are
 * implementation-specific; the point collection provides them as members of
 * its class (see PointCollections).
 */
module FeatureCollections {

  /** Failures of the contract: checked construction and removal from an empty collection. */
  datatype FeatureCollectionError = UnmatchedFeatureIndices | DeleteFromEmpty

  /** The default `is_empty`, in terms of the implementation's `len` (a count of features). */
  predicate IsEmptyByDefault(len: nat) {
    len == 0
  }

  /** The contract's test double: a collection whose features are the items of a vector. */
  datatype Dummy = Dummy(items: seq<nat>) {

    function Len(): nat {
      |items|
    }

    predicate IsEmpty() {
      IsEmptyByDefault(Len())
    }
  }

  /** An implementation that keeps the default is empty exactly when it has no features. */
  lemma DummyIsEmptyIffNoItems(d: Dummy)
    ensures d.IsEmpty() <==> d.items == []
  {
  }

  /** The documented example: a three-element collection is not empty, an empty one is. */
  lemma DummyExamples()
    ensures Dummy([]).IsEmpty()
    ensures !Dummy([1, 2, 3]).IsEmpty()
  {
  }
}
