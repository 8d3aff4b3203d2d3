/**
 * The columnar point collection: a flat coordinate buffer grouped into
 * features by an offsets array. Feature `i` is the run
 * `coordinates[offsets[i] .. offsets[i + 1]]`.
 *
 * The first half of the module is the value-level meaning of that encoding:
 * `Runs` decodes (offsets, coordinates) into the sequence of features, and
 * `Offsets`/`Flatten` encode a sequence of features back. The filters are
 * specified by `Retain` on the decoded features. The class `PointCollection`
 * below is the mutable store itself.
 */
module PointCollections {
  import opened Util
  import opened FeatureCollections

  /**
   * A coordinate, an (x, y) pair. The source stores two 64-bit floats; the
   * collection never computes on them, so only their identity matters here.
   */
  datatype Coordinate = Coordinate(x: real, y: real)

  /** The one failure of the filter capability: a mask whose length is not the feature count. */
  datatype FilterableError = MaskDoesNotMatchFeatures

  /** The coordinates of one feature: a single point or a multi-point. */
  type Run = seq<Coordinate>

  // ===== Validity =====

  /** Every offset is smaller than the next: the `windows(2)` test of `is_valid`. */
  predicate AdjacentIncreasing(offsets: seq<nat>) {
    forall j :: 0 <= j < |offsets| - 1 ==> offsets[j] < offsets[j + 1]
  }

  /** Every offset is smaller than every later one. */
  predicate StrictlyIncreasing(offsets: seq<nat>) {
    forall j, k :: 0 <= j < k < |offsets| ==> offsets[j] < offsets[k]
  }

  lemma {:induction false} AdjacentIncreasingIsStrict(offsets: seq<nat>)
    requires AdjacentIncreasing(offsets)
    ensures StrictlyIncreasing(offsets)
  {
    if |offsets| > 1 {
      var init := offsets[..|offsets| - 1];
      assert AdjacentIncreasing(init) by {
        forall j | 0 <= j < |init| - 1 ensures init[j] < init[j + 1] {
          assert offsets[j] < offsets[j + 1];
        }
      }
      AdjacentIncreasingIsStrict(init);
      forall j, k | 0 <= j < k < |offsets| ensures offsets[j] < offsets[k] {
        if k < |offsets| - 1 {
          assert init[j] < init[k];
        } else if j < k - 1 {
          assert init[j] < init[k - 1];
          assert offsets[k - 1] < offsets[k];
        } else {
          assert offsets[k - 1] < offsets[k];
        }
      }
    }
  }

  /**
   * `is_valid`: the offsets are non-empty, the last one is the number of
   * coordinates, and they are strictly increasing (so every feature has at
   * least one coordinate).
   */
  function IsValidData(offsets: seq<nat>, coordinates: seq<Coordinate>): (valid: bool)
    ensures valid <==> |offsets| > 0 && offsets[|offsets| - 1] == |coordinates| && StrictlyIncreasing(offsets)
  {
    if |offsets| == 0 then false
    else if offsets[|offsets| - 1] != |coordinates| then false
    else if exists j :: 0 <= j < |offsets| - 1 && offsets[j] >= offsets[j + 1] then false
    else AdjacentIncreasingIsStrict(offsets); true
  }

  /** The documented examples: offsets `[0, 1, 2]` over two coordinates are valid, empty offsets are not. */
  lemma ValidityExamples(c: Coordinate, d: Coordinate)
    ensures IsValidData([0, 1, 2], [c, d])
    ensures !IsValidData([], [])
    ensures !IsValidData([0, 1, 1], [c])
  {
    assert AdjacentIncreasing([0, 1, 2]);
    AdjacentIncreasingIsStrict([0, 1, 2]);
    assert [0, 1, 1][1] >= [0, 1, 1][2];
  }

  /** In valid data every offset lies within the coordinate buffer. */
  lemma OffsetsWithinCoordinates(offsets: seq<nat>, coordinates: seq<Coordinate>)
    requires IsValidData(offsets, coordinates)
    ensures forall j :: 0 <= j < |offsets| ==> offsets[j] <= |coordinates|
  {
    forall j | 0 <= j < |offsets| ensures offsets[j] <= |coordinates| {
      if j < |offsets| - 1 {
        assert offsets[j] < offsets[|offsets| - 1];
      }
    }
  }

  // ===== Decoding: features as runs =====

  /**
   * The features of valid data, one run of coordinates per feature, in order:
   * what `geo_multi_points_iter` yields. There are one fewer runs than offsets
   * and none of them is empty.
   */
  function Runs(offsets: seq<nat>, coordinates: seq<Coordinate>): (runs: seq<Run>)
    requires IsValidData(offsets, coordinates)
    ensures |runs| == |offsets| - 1
    ensures forall i :: 0 <= i < |runs| ==> |runs[i]| == offsets[i + 1] - offsets[i] > 0
  {
    OffsetsWithinCoordinates(offsets, coordinates);
    seq(|offsets| - 1, i requires 0 <= i < |offsets| - 1 => coordinates[offsets[i]..offsets[i + 1]])
  }

  /** Feature `i` of valid data is the slice its offsets delimit. */
  lemma RunAt(offsets: seq<nat>, coordinates: seq<Coordinate>, i: nat)
    requires IsValidData(offsets, coordinates) && i < |offsets| - 1
    ensures offsets[i] < offsets[i + 1] <= |coordinates|
    ensures Runs(offsets, coordinates)[i] == coordinates[offsets[i]..offsets[i + 1]]
  {
    OffsetsWithinCoordinates(offsets, coordinates);
  }

  // ===== Encoding: runs as offsets and coordinates =====

  /** The coordinate buffer that holds these runs back to back. */
  function Flatten(runs: seq<Run>): (flat: seq<Coordinate>)
  {
    if runs == [] then [] else Flatten(runs[..|runs| - 1]) + runs[|runs| - 1]
  }

  /** The offsets array, starting at 0, that delimits these runs in `Flatten(runs)`. */
  function Offsets(runs: seq<Run>): (offsets: seq<nat>)
    ensures |offsets| == |runs| + 1
    ensures offsets[0] == 0 && offsets[|runs|] == |Flatten(runs)|
  {
    if runs == [] then [0] else Offsets(runs[..|runs| - 1]) + [|Flatten(runs)|]
  }

  /** Appending a run appends its coordinates and one offset. */
  lemma EncodeSnoc(runs: seq<Run>, run: Run)
    ensures Flatten(runs + [run]) == Flatten(runs) + run
    ensures Offsets(runs + [run]) == Offsets(runs) + [|Flatten(runs)| + |run|]
  {
    assert (runs + [run])[..|runs|] == runs;
  }

  /** A prefix of the runs encodes to a prefix of the encoding. */
  lemma {:induction false} EncodePrefix(runs: seq<Run>, k: nat)
    requires k <= |runs|
    ensures Offsets(runs)[..k + 1] == Offsets(runs[..k])
    ensures Flatten(runs[..k]) <= Flatten(runs)
  {
    if k < |runs| {
      var init := runs[..|runs| - 1];
      EncodePrefix(init, k);
      assert init[..k] == runs[..k];
    } else {
      assert runs[..k] == runs;
    }
  }

  /** Run `i` sits in `Flatten(runs)` exactly where `Offsets(runs)` says. */
  lemma RunInEncoding(runs: seq<Run>, i: nat)
    requires i < |runs|
    ensures Offsets(runs)[i] <= Offsets(runs)[i + 1] <= |Flatten(runs)|
    ensures Flatten(runs)[Offsets(runs)[i]..Offsets(runs)[i + 1]] == runs[i]
  {
    var pre, pre1 := runs[..i], runs[..i + 1];
    EncodePrefix(runs, i + 1);
    EncodePrefix(runs, i);
    assert pre1 == pre + [runs[i]];
    EncodeSnoc(pre, runs[i]);
    SliceOfPrefix(Offsets(runs), Flatten(runs), Offsets(pre), Flatten(pre), Offsets(pre1), Flatten(pre1), runs[i], i);
  }

  /** The run appended to a prefix of an encoding sits between that prefix's last two offsets. */
  lemma SliceOfPrefix(offsets: seq<nat>, flat: seq<Coordinate>, offsetsPre: seq<nat>, flatPre: seq<Coordinate>,
                      offsetsPre1: seq<nat>, flatPre1: seq<Coordinate>, run: Run, i: nat)
    requires |offsetsPre| == i + 1 && offsetsPre[i] == |flatPre|
    requires |offsetsPre1| == i + 2 && offsetsPre1[i + 1] == |flatPre1|
    requires i + 2 <= |offsets| && offsets[..i + 1] == offsetsPre && offsets[..i + 2] == offsetsPre1
    requires flatPre1 == flatPre + run && flatPre1 <= flat
    ensures offsets[i] <= offsets[i + 1] <= |flat|
    ensures flat[offsets[i]..offsets[i + 1]] == run
  {
    assert offsets[i] == offsetsPre[i] && offsets[i + 1] == offsetsPre1[i + 1];
    assert flat[offsets[i]..offsets[i + 1]] == flatPre1[|flatPre|..];
  }

  /** Every run holds at least one coordinate: what valid offsets require. */
  predicate NonEmptyRuns(runs: seq<Run>) {
    forall i :: 0 <= i < |runs| ==> |runs[i]| > 0
  }

  /** Non-empty runs encode to valid data that decodes back to the same runs. */
  lemma DecodeEncode(runs: seq<Run>)
    requires NonEmptyRuns(runs)
    ensures IsValidData(Offsets(runs), Flatten(runs))
    ensures Runs(Offsets(runs), Flatten(runs)) == runs
  {
    var offsets, flat := Offsets(runs), Flatten(runs);
    forall i | 0 <= i < |runs| ensures offsets[i] < offsets[i + 1] {
      RunInEncoding(runs, i);
    }
    assert AdjacentIncreasing(offsets);
    AdjacentIncreasingIsStrict(offsets);
    var decoded := Runs(offsets, flat);
    forall i | 0 <= i < |runs| ensures decoded[i] == runs[i] {
      RunInEncoding(runs, i);
      RunAt(offsets, flat, i);
    }
  }

  /** Appending a non-empty run to valid data keeps it valid and adds exactly that feature. */
  lemma RunsSnoc(offsets: seq<nat>, coordinates: seq<Coordinate>, run: Run)
    requires IsValidData(offsets, coordinates) && |run| > 0
    ensures IsValidData(offsets + [|coordinates| + |run|], coordinates + run)
    ensures Runs(offsets + [|coordinates| + |run|], coordinates + run) == Runs(offsets, coordinates) + [run]
  {
    var offsets', coordinates' := offsets + [|coordinates| + |run|], coordinates + run;
    SnocValid(offsets, coordinates, run);
    var before, after := Runs(offsets, coordinates), Runs(offsets', coordinates');
    forall i | 0 <= i < |after| ensures after[i] == (before + [run])[i] {
      SnocRunAt(offsets, coordinates, run, i);
    }
  }

  lemma SnocValid(offsets: seq<nat>, coordinates: seq<Coordinate>, run: Run)
    requires IsValidData(offsets, coordinates) && |run| > 0
    ensures IsValidData(offsets + [|coordinates| + |run|], coordinates + run)
  {
    var offsets' := offsets + [|coordinates| + |run|];
    assert AdjacentIncreasing(offsets');
    AdjacentIncreasingIsStrict(offsets');
  }

  lemma SnocRunAt(offsets: seq<nat>, coordinates: seq<Coordinate>, run: Run, i: nat)
    requires IsValidData(offsets, coordinates) && |run| > 0 && i < |offsets|
    requires IsValidData(offsets + [|coordinates| + |run|], coordinates + run)
    ensures Runs(offsets + [|coordinates| + |run|], coordinates + run)[i] == (Runs(offsets, coordinates) + [run])[i]
  {
    var offsets', coordinates' := offsets + [|coordinates| + |run|], coordinates + run;
    RunAt(offsets', coordinates', i);
    if i < |offsets| - 1 {
      RunAt(offsets, coordinates, i);
    }
  }

  /** Dropping the last feature of valid data keeps it valid and removes exactly that feature. */
  lemma RunsInit(offsets: seq<nat>, coordinates: seq<Coordinate>)
    requires IsValidData(offsets, coordinates) && |offsets| > 1
    ensures offsets[|offsets| - 2] <= |coordinates|
    ensures IsValidData(offsets[..|offsets| - 1], coordinates[..offsets[|offsets| - 2]])
    ensures Runs(offsets, coordinates)
         == Runs(offsets[..|offsets| - 1], coordinates[..offsets[|offsets| - 2]])
            + [coordinates[offsets[|offsets| - 2]..]]
    ensures Runs(offsets[..|offsets| - 1], coordinates[..offsets[|offsets| - 2]])
         == Runs(offsets, coordinates)[..|offsets| - 2]
  {
    var n := |offsets|;
    var offsets', coordinates' := offsets[..n - 1], coordinates[..offsets[n - 2]];
    RunAt(offsets, coordinates, n - 2);
    RunsSnoc(offsets', coordinates', coordinates[offsets[n - 2]..]);
    assert offsets' + [|coordinates'| + |coordinates[offsets[n - 2]..]|] == offsets;
    assert coordinates' + coordinates[offsets[n - 2]..] == coordinates;
    var init := Runs(offsets', coordinates');
    assert (init + [coordinates[offsets[n - 2]..]])[..n - 2] == init;
  }

  /** Valid data whose first offset is 0 is exactly the encoding of its features. */
  lemma {:induction false} EncodeDecode(offsets: seq<nat>, coordinates: seq<Coordinate>)
    requires IsValidData(offsets, coordinates) && offsets[0] == 0
    ensures Offsets(Runs(offsets, coordinates)) == offsets
    ensures Flatten(Runs(offsets, coordinates)) == coordinates
    decreases |offsets|
  {
    var n := |offsets|;
    if n == 1 {
      assert Runs(offsets, coordinates) == [];
      assert offsets == [0];
      assert coordinates == [];
    } else {
      var offsets', coordinates' := offsets[..n - 1], coordinates[..offsets[n - 2]];
      var last := coordinates[offsets[n - 2]..];
      RunsInit(offsets, coordinates);
      var init := Runs(offsets', coordinates');
      EncodeDecode(offsets', coordinates');
      EncodeSnoc(init, last);
      InitAndLast(offsets);
      SplitAt(coordinates, offsets[n - 2]);
    }
  }

  lemma InitAndLast(s: seq<nat>)
    requires |s| > 0
    ensures s[..|s| - 1] + [s[|s| - 1]] == s
  {
  }

  lemma SplitAt(s: seq<Coordinate>, k: nat)
    requires k <= |s|
    ensures s[..k] + s[k..] == s
  {
  }

  // ===== Simplicity =====

  /** A buffer of non-empty runs has at least one coordinate per run, and exactly one per run only if every run is a single point. */
  lemma {:induction false} FlattenLengthBound(runs: seq<Run>)
    requires NonEmptyRuns(runs)
    ensures |Flatten(runs)| >= |runs|
    ensures |Flatten(runs)| == |runs| <==> forall i :: 0 <= i < |runs| ==> |runs[i]| == 1
  {
    if runs != [] {
      var init := runs[..|runs| - 1];
      FlattenLengthBound(init);
      if |Flatten(runs)| == |runs| {
        forall i | 0 <= i < |runs| ensures |runs[i]| == 1 {
          if i < |runs| - 1 {
            assert init[i] == runs[i];
          }
        }
      }
      if forall i :: 0 <= i < |runs| ==> |runs[i]| == 1 {
        assert forall i :: 0 <= i < |init| ==> |init[i]| == 1 by {
          forall i | 0 <= i < |init| ensures |init[i]| == 1 {
            assert init[i] == runs[i];
          }
        }
      }
    }
  }

  /**
   * The `is_simple` test, one feature per coordinate, means "every feature is
   * a single point" on valid data whose first offset is 0.
   */
  lemma SimpleIffSinglePoints(offsets: seq<nat>, coordinates: seq<Coordinate>)
    requires IsValidData(offsets, coordinates) && offsets[0] == 0
    ensures |offsets| - 1 == |coordinates| <==>
            forall i :: 0 <= i < |offsets| - 1 ==> |Runs(offsets, coordinates)[i]| == 1
  {
    EncodeDecode(offsets, coordinates);
    FlattenLengthBound(Runs(offsets, coordinates));
  }

  /**
   * Without a first offset of 0 the two disagree: valid data `[1, 2, 3]` over
   * three coordinates has two single-point features but fails the `is_simple` test.
   */
  lemma SimpleNeedsZeroFirstOffset(c: Coordinate)
    ensures IsValidData([1, 2, 3], [c, c, c])
    ensures forall i :: 0 <= i < 2 ==> |Runs([1, 2, 3], [c, c, c])[i]| == 1
    ensures |[1, 2, 3]| - 1 != |[c, c, c]|
  {
    assert AdjacentIncreasing([1, 2, 3]);
    AdjacentIncreasingIsStrict([1, 2, 3]);
  }

  // ===== Filtering specification =====

  /** The runs whose mask entry is true, in their original order. */
  function Retain(runs: seq<Run>, mask: seq<bool>): (kept: seq<Run>)
    requires |mask| == |runs|
    ensures |kept| <= |runs|
  {
    if runs == [] then []
    else
      var init := Retain(runs[..|runs| - 1], mask[..|mask| - 1]);
      if mask[|mask| - 1] then init + [runs[|runs| - 1]] else init
  }

  /** The mask a predicate induces on the runs. */
  function PredicateMask(runs: seq<Run>, keep: Run -> bool): (mask: seq<bool>)
    ensures |mask| == |runs|
    ensures forall i :: 0 <= i < |runs| ==> mask[i] == keep(runs[i])
  {
    seq(|runs|, i requires 0 <= i < |runs| => keep(runs[i]))
  }

  /** The number of true entries of a mask. */
  function CountTrue(mask: seq<bool>): (n: nat) {
    if mask == [] then 0 else CountTrue(mask[..|mask| - 1]) + (if mask[|mask| - 1] then 1 else 0)
  }

  /** Retaining the first `i + 1` runs extends retaining the first `i` by run `i` when its entry is true. */
  lemma RetainStep(runs: seq<Run>, mask: seq<bool>, i: nat)
    requires |mask| == |runs| && i < |runs|
    ensures Retain(runs[..i + 1], mask[..i + 1])
         == Retain(runs[..i], mask[..i]) + (if mask[i] then [runs[i]] else [])
  {
    assert runs[..i + 1][..i] == runs[..i];
    assert mask[..i + 1][..i] == mask[..i];
  }

  /** Exactly the features whose entry is true are retained. */
  lemma {:induction false} RetainCount(runs: seq<Run>, mask: seq<bool>)
    requires |mask| == |runs|
    ensures |Retain(runs, mask)| == CountTrue(mask)
  {
    if runs != [] {
      RetainCount(runs[..|runs| - 1], mask[..|mask| - 1]);
    }
  }

  /** The retained runs of non-empty runs are non-empty. */
  lemma RetainNonEmpty(runs: seq<Run>, mask: seq<bool>)
    requires |mask| == |runs| && NonEmptyRuns(runs)
    ensures NonEmptyRuns(Retain(runs, mask))
  {
  }

  /** An all-true mask retains everything. */
  lemma {:induction false} RetainAll(runs: seq<Run>, mask: seq<bool>)
    requires |mask| == |runs| && forall i :: 0 <= i < |mask| ==> mask[i]
    ensures Retain(runs, mask) == runs
  {
    if runs != [] {
      RetainAll(runs[..|runs| - 1], mask[..|mask| - 1]);
    }
  }

  /** Every run a predicate retains satisfies the predicate. */
  lemma {:induction false} RetainedSatisfy(runs: seq<Run>, keep: Run -> bool)
    ensures forall k :: 0 <= k < |Retain(runs, PredicateMask(runs, keep))| ==>
              keep(Retain(runs, PredicateMask(runs, keep))[k])
  {
    if runs != [] {
      var init := runs[..|runs| - 1];
      RetainedSatisfy(init, keep);
      assert PredicateMask(runs, keep)[..|runs| - 1] == PredicateMask(init, keep);
    }
  }

  /** A run survives the predicate filter exactly when it is one of the runs and the predicate accepts it. */
  lemma {:induction false} RetainedMembers(runs: seq<Run>, keep: Run -> bool)
    ensures forall r :: r in Retain(runs, PredicateMask(runs, keep)) <==> r in runs && keep(r)
  {
    if runs != [] {
      var init, last := runs[..|runs| - 1], runs[|runs| - 1];
      RetainedMembers(init, keep);
      assert PredicateMask(runs, keep)[..|runs| - 1] == PredicateMask(init, keep);
      assert runs == init + [last];
    }
  }

  /** Filtering twice with the same predicate is filtering once. */
  lemma FilterIdempotent(runs: seq<Run>, keep: Run -> bool)
    ensures var once := Retain(runs, PredicateMask(runs, keep));
            Retain(once, PredicateMask(once, keep)) == once
  {
    var once := Retain(runs, PredicateMask(runs, keep));
    RetainedSatisfy(runs, keep);
    RetainAll(once, PredicateMask(once, keep));
  }

  /**
   * The filtered encoding of valid data is valid, starts at offset 0, has one
   * feature per true mask entry, and holds exactly the retained features.
   */
  lemma FilteredIsValid(runs: seq<Run>, mask: seq<bool>)
    requires |mask| == |runs| && NonEmptyRuns(runs)
    ensures var kept := Retain(runs, mask);
            && IsValidData(Offsets(kept), Flatten(kept))
            && Offsets(kept)[0] == 0
            && |Offsets(kept)| - 1 == CountTrue(mask)
            && Runs(Offsets(kept), Flatten(kept)) == kept
  {
    RetainNonEmpty(runs, mask);
    RetainCount(runs, mask);
    DecodeEncode(Retain(runs, mask));
  }

  /** With an all-true mask, filtering valid data that starts at offset 0 reproduces it. */
  lemma FilterAllTrueIsIdentity(offsets: seq<nat>, coordinates: seq<Coordinate>, mask: seq<bool>)
    requires IsValidData(offsets, coordinates) && offsets[0] == 0
    requires |mask| == |offsets| - 1 && forall i :: 0 <= i < |mask| ==> mask[i]
    ensures Offsets(Retain(Runs(offsets, coordinates), mask)) == offsets
    ensures Flatten(Retain(Runs(offsets, coordinates), mask)) == coordinates
  {
    RetainAll(Runs(offsets, coordinates), mask);
    EncodeDecode(offsets, coordinates);
  }

  /** One step of the copying filters: run `i` is appended to the output when its entry is true. */
  lemma FilterStep(runs: seq<Run>, mask: seq<bool>, i: nat, indices: seq<nat>, buffer: seq<Coordinate>)
    requires |mask| == |runs| && i < |runs|
    requires indices + [|buffer|] == Offsets(Retain(runs[..i], mask[..i]))
    requires buffer == Flatten(Retain(runs[..i], mask[..i]))
    ensures mask[i] ==> (indices + [|buffer|]) + [|buffer + runs[i]|] == Offsets(Retain(runs[..i + 1], mask[..i + 1]))
    ensures mask[i] ==> buffer + runs[i] == Flatten(Retain(runs[..i + 1], mask[..i + 1]))
    ensures !mask[i] ==> indices + [|buffer|] == Offsets(Retain(runs[..i + 1], mask[..i + 1]))
    ensures !mask[i] ==> buffer == Flatten(Retain(runs[..i + 1], mask[..i + 1]))
  {
    RetainStep(runs, mask, i);
    var kept := Retain(runs[..i], mask[..i]);
    if mask[i] {
      EncodeSnoc(kept, runs[i]);
      assert Offsets(kept + [runs[i]]) == (indices + [|buffer|]) + [|buffer + runs[i]|];
      assert Retain(runs[..i + 1], mask[..i + 1]) == kept + [runs[i]];
    } else {
      assert Retain(runs[..i + 1], mask[..i + 1]) == kept;
    }
  }

  // ===== The in-place walk =====

  /** Each run is the slice of the buffer between consecutive offsets. */
  ghost predicate Layout(offsets: seq<nat>, coordinates: seq<Coordinate>, runs: seq<Run>)
  {
    && |offsets| == |runs| + 1 && offsets[|runs|] == |coordinates|
    && forall i {:trigger runs[i]} :: 0 <= i < |runs| ==>
         offsets[i] <= offsets[i + 1] <= |coordinates| && runs[i] == coordinates[offsets[i]..offsets[i + 1]]
  }

  /** Valid data lays out its own features. */
  lemma RunsLayout(offsets: seq<nat>, coordinates: seq<Coordinate>)
    requires IsValidData(offsets, coordinates)
    ensures Layout(offsets, coordinates, Runs(offsets, coordinates))
  {
    var runs := Runs(offsets, coordinates);
    forall i {:trigger runs[i]} | 0 <= i < |runs|
      ensures offsets[i] <= offsets[i + 1] <= |coordinates| && runs[i] == coordinates[offsets[i]..offsets[i + 1]]
    {
      RunAt(offsets, coordinates, i);
    }
  }

  /** One instance of the layout: feature `i` occupies the slice between its offsets. */
  lemma LayoutAt(offsets: seq<nat>, coordinates: seq<Coordinate>, runs: seq<Run>, i: nat)
    requires Layout(offsets, coordinates, runs) && i < |runs|
    ensures offsets[i] <= offsets[i + 1] <= |coordinates| && runs[i] == coordinates[offsets[i]..offsets[i + 1]]
  {
    var run := runs[i];
  }

  /** The state of the in-place walk: the offset and coordinate vectors and the two write cursors. */
  datatype Walk = Walk(indices: seq<nat>, buffer: seq<Coordinate>, written: nat, cursor: nat)

  /**
   * The in-place walk over the first `i` features, step by step: keeping a
   * feature records the cursor as its offset and moves its coordinates down
   * to the cursor; skipping it changes nothing. (A step whose ranges would not
   * fit is skipped too; `WalkStep` shows that this never happens.)
   */
  ghost function WalkState(offsets0: seq<nat>, coordinates0: seq<Coordinate>, mask: seq<bool>, i: nat): (state: Walk)
    requires |offsets0| == |mask| + 1 && i <= |mask|
    decreases i
  {
    if i == 0 then Walk(offsets0, coordinates0, 0, 0)
    else
      var w := WalkState(offsets0, coordinates0, mask, i - 1);
      var start, end := offsets0[i - 1], offsets0[i];
      if mask[i - 1] && w.written < |w.indices| && start <= end <= |w.buffer| && w.cursor + (end - start) <= |w.buffer|
      then Walk(w.indices[w.written := w.cursor], CopyWithin(w.buffer, start, end, w.cursor),
                w.written + 1, w.cursor + (end - start))
      else w
  }

  /**
   * The walk state once `kept` has been compacted to the front: the offsets
   * of `kept` fill `indices[..|kept|]` and its coordinates the front of the
   * buffer; everything after the two cursors is still original.
   */
  ghost function Compacted(offsets0: seq<nat>, coordinates0: seq<Coordinate>, kept: seq<Run>): (state: Walk)
    requires |kept| < |offsets0| && |Flatten(kept)| <= |coordinates0|
  {
    Walk(Offsets(kept)[..|kept|] + offsets0[|kept|..], Flatten(kept) + coordinates0[|Flatten(kept)|..],
         |kept|, |Flatten(kept)|)
  }

  /** One keeping step on a compacted state compacts one more run, provided the run lies past the cursor. */
  lemma CompactedKeep(offsets0: seq<nat>, coordinates0: seq<Coordinate>, kept: seq<Run>, start: nat, end: nat)
    requires |kept| + 1 < |offsets0| && |Flatten(kept)| <= start <= end <= |coordinates0|
    ensures |Flatten(kept + [coordinates0[start..end]])| == |Flatten(kept)| + (end - start)
    ensures var w := Compacted(offsets0, coordinates0, kept);
            && w.written < |w.indices| && end <= |w.buffer| && w.cursor + (end - start) <= |w.buffer|
            && Walk(w.indices[w.written := w.cursor], CopyWithin(w.buffer, start, end, w.cursor),
                    w.written + 1, w.cursor + (end - start))
               == Compacted(offsets0, coordinates0, kept + [coordinates0[start..end]])
  {
    var run := coordinates0[start..end];
    var written, cursor := |kept|, |Flatten(kept)|;
    EncodeSnoc(kept, run);
    OverwriteAtCut(Offsets(kept)[..written], offsets0[written..], cursor);
    assert offsets0[written..][1..] == offsets0[written + 1..];
    assert Offsets(kept) == Offsets(kept)[..written] + [cursor];
    assert Offsets(kept + [run])[..written + 1] == Offsets(kept);
    CopyDown(Flatten(kept), coordinates0, start, end);
  }

  /**
   * What the walk has achieved before feature `i`: the features kept so far
   * are compacted to the front, and the coordinate cursor has not passed the
   * original start of feature `i`.
   */
  lemma {:induction false} WalkCompacts(offsets0: seq<nat>, coordinates0: seq<Coordinate>,
                                        runs: seq<Run>, mask: seq<bool>, i: nat)
    requires |mask| == |runs| && Layout(offsets0, coordinates0, runs) && i <= |runs|
    ensures var kept := Retain(runs[..i], mask[..i]);
            && |kept| <= i && |Flatten(kept)| <= offsets0[i] <= |coordinates0|
            && WalkState(offsets0, coordinates0, mask, i) == Compacted(offsets0, coordinates0, kept)
    decreases i
  {
    if i == 0 {
      assert runs[..0] == [] && mask[..0] == [];
      assert offsets0[0..] == offsets0 && coordinates0[0..] == coordinates0;
      if 0 < |runs| {
        LayoutAt(offsets0, coordinates0, runs, 0);
      }
    } else {
      WalkCompacts(offsets0, coordinates0, runs, mask, i - 1);
      RetainStep(runs, mask, i - 1);
      var kept := Retain(runs[..i - 1], mask[..i - 1]);
      LayoutAt(offsets0, coordinates0, runs, i - 1);
      var start, end := offsets0[i - 1], offsets0[i];
      if mask[i - 1] {
        WalkStepKeep(offsets0, coordinates0, mask, i, kept, start, end);
        assert Retain(runs[..i], mask[..i]) == kept + [coordinates0[start..end]];
      } else {
        WalkStepSkip(offsets0, coordinates0, mask, i);
        assert Retain(runs[..i], mask[..i]) == kept;
      }
    }
  }

  /** Keeping feature `i - 1`, whose coordinates lie past the cursor, extends the compacted prefix by them. */
  lemma WalkStepKeep(offsets0: seq<nat>, coordinates0: seq<Coordinate>, mask: seq<bool>, i: nat, kept: seq<Run>,
                     start: nat, end: nat)
    requires |offsets0| == |mask| + 1 && 0 < i <= |mask| && mask[i - 1]
    requires start == offsets0[i - 1] && end == offsets0[i]
    requires |kept| < i && |Flatten(kept)| <= start <= end <= |coordinates0|
    requires WalkState(offsets0, coordinates0, mask, i - 1) == Compacted(offsets0, coordinates0, kept)
    ensures |Flatten(kept + [coordinates0[start..end]])| <= end
    ensures WalkState(offsets0, coordinates0, mask, i) == Compacted(offsets0, coordinates0, kept + [coordinates0[start..end]])
  {
    CompactedKeep(offsets0, coordinates0, kept, start, end);
  }

  /** Skipping feature `i - 1` leaves the walk as it is. */
  lemma WalkStepSkip(offsets0: seq<nat>, coordinates0: seq<Coordinate>, mask: seq<bool>, i: nat)
    requires |offsets0| == |mask| + 1 && 0 < i <= |mask| && !mask[i - 1]
    ensures WalkState(offsets0, coordinates0, mask, i) == WalkState(offsets0, coordinates0, mask, i - 1)
  {
  }

  /** In a compacted state, the offsets from the written cursor on and the coordinates from the cursor on are original. */
  lemma CompactedAt(offsets0: seq<nat>, coordinates0: seq<Coordinate>, kept: seq<Run>, i: nat, start: nat, end: nat)
    requires |kept| <= i && i + 1 < |offsets0| && |Flatten(kept)| <= start <= end <= |coordinates0|
    ensures var w := Compacted(offsets0, coordinates0, kept);
            && w.indices[i] == offsets0[i] && w.indices[i + 1] == offsets0[i + 1]
            && w.buffer[start..end] == coordinates0[start..end]
  {
    var w := Compacted(offsets0, coordinates0, kept);
    assert w.indices[i] == offsets0[w.written..][i - w.written];
    assert w.indices[i + 1] == offsets0[w.written..][i + 1 - w.written];
    assert w.buffer[start..end] == coordinates0[w.cursor..][start - w.cursor..end - w.cursor];
  }

  /** Feature `i` is still in place: its offsets and its coordinates are the original ones. */
  lemma WalkAt(offsets0: seq<nat>, coordinates0: seq<Coordinate>, runs: seq<Run>, mask: seq<bool>, i: nat)
    requires |mask| == |runs| && Layout(offsets0, coordinates0, runs) && i < |runs|
    ensures var w := WalkState(offsets0, coordinates0, mask, i);
            && w.written < |w.indices| && i + 1 < |w.indices|
            && w.indices[i] == offsets0[i] && w.indices[i + 1] == offsets0[i + 1]
            && w.cursor <= offsets0[i] <= offsets0[i + 1] <= |w.buffer|
            && w.buffer[offsets0[i]..offsets0[i + 1]] == runs[i]
  {
    WalkCompacts(offsets0, coordinates0, runs, mask, i);
    LayoutAt(offsets0, coordinates0, runs, i);
    var start, end := offsets0[i], offsets0[i + 1];
    CompactedAt(offsets0, coordinates0, Retain(runs[..i], mask[..i]), i, start, end);
  }

  /**
   * Before feature `i` is visited, the walk has written at most `i` offsets,
   * its coordinate cursor has not passed the original start of feature `i`,
   * and every offset from `i` on and every coordinate from that start on is
   * still the original one.
   */
  lemma WalkLeavesRest(offsets0: seq<nat>, coordinates0: seq<Coordinate>, runs: seq<Run>, mask: seq<bool>, i: nat)
    requires |mask| == |runs| && Layout(offsets0, coordinates0, runs) && i <= |runs|
    ensures var w := WalkState(offsets0, coordinates0, mask, i);
            && w.written <= i && w.cursor <= offsets0[i] <= |coordinates0|
            && |w.indices| == |offsets0| && |w.buffer| == |coordinates0|
            && w.indices[i..] == offsets0[i..]
            && w.buffer[offsets0[i]..] == coordinates0[offsets0[i]..]
  {
    WalkCompacts(offsets0, coordinates0, runs, mask, i);
    var kept := Retain(runs[..i], mask[..i]);
    var w := Compacted(offsets0, coordinates0, kept);
    assert w.indices[i..] == offsets0[|kept|..][i - |kept|..];
    assert w.buffer[offsets0[i]..] == coordinates0[|Flatten(kept)|..][offsets0[i] - |Flatten(kept)|..];
  }

  /**
   * Step `i` of the walk: feature `i` is still in place when it is visited,
   * a kept feature fits at the cursor and is moved there, a skipped one
   * changes nothing.
   */
  lemma WalkStep(offsets0: seq<nat>, coordinates0: seq<Coordinate>, runs: seq<Run>, mask: seq<bool>, i: nat)
    requires |mask| == |runs| && Layout(offsets0, coordinates0, runs) && i < |runs|
    ensures var w := WalkState(offsets0, coordinates0, mask, i);
            && w.written < |w.indices| && i + 1 < |w.indices|
            && w.indices[i] == offsets0[i] && w.indices[i + 1] == offsets0[i + 1]
            && w.cursor <= offsets0[i] <= offsets0[i + 1] <= |w.buffer|
            && w.cursor + (offsets0[i + 1] - offsets0[i]) <= |w.buffer|
            && w.buffer[offsets0[i]..offsets0[i + 1]] == runs[i]
    ensures var w, w' := WalkState(offsets0, coordinates0, mask, i), WalkState(offsets0, coordinates0, mask, i + 1);
            && (mask[i] ==> && w'.indices == w.indices[w.written := w.cursor]
                            && w'.buffer == CopyWithin(w.buffer, offsets0[i], offsets0[i + 1], w.cursor)
                            && w'.written == w.written + 1
                            && w'.cursor == w.cursor + (offsets0[i + 1] - offsets0[i]))
            && (!mask[i] ==> w' == w)
  {
    WalkAt(offsets0, coordinates0, runs, mask, i);
  }

  /** After the walk, writing the cursor as the closing offset and truncating gives the filtered encoding. */
  lemma WalkDone(offsets0: seq<nat>, coordinates0: seq<Coordinate>, runs: seq<Run>, mask: seq<bool>)
    requires |mask| == |runs| && Layout(offsets0, coordinates0, runs)
    ensures var w := WalkState(offsets0, coordinates0, mask, |runs|);
            && w.written < |w.indices| && w.cursor <= |w.buffer|
            && w.indices[w.written := w.cursor][..w.written + 1] == Offsets(Retain(runs, mask))
            && w.buffer[..w.cursor] == Flatten(Retain(runs, mask))
  {
    WalkCompacts(offsets0, coordinates0, runs, mask, |runs|);
    assert runs[..|runs|] == runs && mask[..|mask|] == mask;
    var kept := Retain(runs, mask);
    var w := Compacted(offsets0, coordinates0, kept);
    assert Offsets(kept) == Offsets(kept)[..w.written] + [w.cursor];
    assert w.indices[w.written := w.cursor][..w.written + 1] == Offsets(kept)[..w.written] + [w.cursor];
  }

  /** Overwriting the first element after a prefix. */
  lemma OverwriteAtCut(prefix: seq<nat>, rest: seq<nat>, x: nat)
    requires |rest| > 0
    ensures (prefix + rest)[|prefix| := x] == prefix + [x] + rest[1..]
  {
  }

  /**
   * Copying a range that starts at or after the end of a compacted prefix
   * down to that end appends the range to the prefix; the original
   * coordinates after the copied range are left.
   */
  lemma CopyDown(flat: seq<Coordinate>, coordinates0: seq<Coordinate>, start: nat, end: nat)
    requires |flat| <= start <= end <= |coordinates0|
    ensures var buffer := flat + coordinates0[|flat|..];
            CopyWithin(buffer, start, end, |flat|)
            == flat + coordinates0[start..end] + coordinates0[|flat| + (end - start)..]
  {
    var buffer := flat + coordinates0[|flat|..];
    var n := end - start;
    assert buffer[..|flat|] == flat;
    assert buffer[start..end] == coordinates0[start..end];
    assert buffer[|flat| + n..] == coordinates0[|flat| + n..];
  }

  /** `slice::copy_within(start..end, dest)`: moves a range of the buffer, overlapping or not. */
  function CopyWithin(s: seq<Coordinate>, start: nat, end: nat, dest: nat): (r: seq<Coordinate>)
    requires start <= end <= |s| && dest + (end - start) <= |s|
    ensures |r| == |s|
    ensures r[dest..dest + (end - start)] == s[start..end]
    ensures forall k :: 0 <= k < |s| && (k < dest || dest + (end - start) <= k) ==> r[k] == s[k]
  {
    s[..dest] + s[start..end] + s[dest + (end - start)..]
  }

  // ===== The collection =====

  /**
   * A point collection: `featureIndices` delimits the features in the flat
   * `coordinates` buffer. Both are growable vectors that the methods below
   * reassign. Nothing forces the state to be valid (the unchecked constructor
   * accepts anything); each operation states what it needs.
   */
  class PointCollection {
    var featureIndices: seq<nat>
    var coordinates: seq<Coordinate>

    /** `new()` and `default()`: offsets `[0]` and no coordinates, a valid empty collection. */
    constructor ()
      ensures featureIndices == [0] && coordinates == []
      ensures IsValid() && Len() == 0 && IsEmpty() && MultiPoints() == []
    {
      featureIndices := [0];
      coordinates := [];
    }

    /** `from_data_unchecked`: takes the vectors as they are, valid or not. */
    constructor FromDataUnchecked(featureIndices: seq<nat>, coordinates: seq<Coordinate>)
      ensures this.featureIndices == featureIndices && this.coordinates == coordinates
    {
      this.featureIndices := featureIndices;
      this.coordinates := coordinates;
    }

    /** `from_data`: a collection of exactly these vectors when they are valid, `UnmatchedFeatureIndices` otherwise. */
    static method FromData(featureIndices: seq<nat>, coordinates: seq<Coordinate>)
      returns (r: Result<PointCollection, FeatureCollectionError>)
      ensures r.Ok? <==> IsValidData(featureIndices, coordinates)
      ensures r.Ok? ==> fresh(r.value) && r.value.IsValid()
      ensures r.Ok? ==> r.value.featureIndices == featureIndices && r.value.coordinates == coordinates
      ensures r.Err? ==> r.error == UnmatchedFeatureIndices
    {
      var instance := new PointCollection.FromDataUnchecked(featureIndices, coordinates);
      if instance.IsValid() {
        r := Ok(instance);
      } else {
        r := Err(UnmatchedFeatureIndices);
      }
    }

    /** `is_valid`: offsets present, the last one closing the buffer, strictly increasing. */
    predicate IsValid()
      reads this
      ensures IsValid() <==> |featureIndices| > 0 && featureIndices[|featureIndices| - 1] == |coordinates|
                             && StrictlyIncreasing(featureIndices)
    {
      IsValidData(featureIndices, coordinates)
    }

    /** `geo_multi_points_iter`: the features, one run of coordinates each, in order. */
    function MultiPoints(): (features: seq<Run>)
      reads this
      requires IsValid()
      ensures |features| == |featureIndices| - 1
    {
      Runs(featureIndices, coordinates)
    }

    /** `len`: the number of features, not of coordinates. */
    function Len(): (n: nat)
      reads this
      requires |featureIndices| > 0
      ensures IsValid() ==> n == |MultiPoints()|
    {
      |featureIndices| - 1
    }

    /** `is_empty`, the contract's default: no features at all. */
    function IsEmpty(): (empty: bool)
      reads this
      requires |featureIndices| > 0
      ensures IsValid() ==> (empty <==> MultiPoints() == [])
    {
      IsEmptyByDefault(Len())
    }

    /**
     * `is_simple`: as many features as coordinates. On valid data whose first
     * offset is 0 (what `new` and the filters build, and what the mutators
     * keep; `from_data` need not) that is "every feature is a single point".
     */
    function IsSimple(): (simple: bool)
      reads this
      requires |featureIndices| > 0
      ensures IsValid() && featureIndices[0] == 0 ==>
                (simple <==> forall f :: f in MultiPoints() ==> |f| == 1)
    {
      var simple := |featureIndices| - 1 == |coordinates|;
      if IsValid() && featureIndices[0] == 0 then
        SimpleIffSinglePoints(featureIndices, coordinates); simple
      else
        simple
    }

    /** `add_point`: one more coordinate and one more offset, closing a one-point feature. */
    method AddPoint(coordinate: Coordinate)
      modifies this
      ensures coordinates == old(coordinates) + [coordinate]
      ensures featureIndices == old(featureIndices) + [|coordinates|]
      ensures old(IsValid()) ==> IsValid() && MultiPoints() == old(MultiPoints()) + [[coordinate]]
    {
      if IsValid() {
        RunsSnoc(featureIndices, coordinates, [coordinate]);
      }
      coordinates := coordinates + [coordinate];
      featureIndices := featureIndices + [|coordinates|];
    }

    /** `add_multipoint`: nothing for an empty slice, otherwise all its coordinates and one offset. */
    method AddMultipoint(points: seq<Coordinate>)
      modifies this
      ensures points == [] ==> featureIndices == old(featureIndices) && coordinates == old(coordinates)
      ensures points != [] ==> coordinates == old(coordinates) + points
      ensures points != [] ==> featureIndices == old(featureIndices) + [|coordinates|]
      ensures old(IsValid()) ==> IsValid()
      ensures old(IsValid()) && points != [] ==> MultiPoints() == old(MultiPoints()) + [points]
    {
      if points != [] {
        if IsValid() {
          RunsSnoc(featureIndices, coordinates, points);
        }
        coordinates := coordinates + points;
        featureIndices := featureIndices + [|coordinates|];
      }
    }

    /**
     * `remove_last_feature`: `DeleteFromEmpty` without a feature, leaving the
     * state as it was; otherwise the last offset is popped and the coordinates
     * are cut back to the new last offset, keeping the earlier features.
     * The requirement is what keeps the cut a truncation (the source panics otherwise).
     */
    method RemoveLastFeature() returns (r: Result<(), FeatureCollectionError>)
      requires |featureIndices| > 1 ==> featureIndices[|featureIndices| - 2] <= |coordinates|
      modifies this
      ensures r.Err? <==> old(|featureIndices|) <= 1
      ensures r.Err? ==> r.error == DeleteFromEmpty
      ensures r.Err? ==> featureIndices == old(featureIndices) && coordinates == old(coordinates)
      ensures r.Ok? ==> featureIndices == old(featureIndices)[..old(|featureIndices|) - 1]
      ensures r.Ok? ==> coordinates == old(coordinates)[..featureIndices[|featureIndices| - 1]]
      ensures old(IsValid()) ==> IsValid()
      ensures old(IsValid()) && r.Ok? ==> MultiPoints() == old(MultiPoints())[..old(Len()) - 1]
    {
      if |featureIndices| <= 1 {
        return Err(DeleteFromEmpty);
      }
      if IsValid() {
        RunsInit(featureIndices, coordinates);
      }
      featureIndices := featureIndices[..|featureIndices| - 1];
      coordinates := coordinates[..featureIndices[|featureIndices| - 1]];
      r := Ok(());
    }

    /**
     * `filter`: `MaskDoesNotMatchFeatures` unless there is one mask entry per
     * feature; otherwise a new valid collection, starting at offset 0, holding
     * exactly the features whose entry is true, in their original order.
     */
    method Filter(mask: seq<bool>) returns (r: Result<PointCollection, FilterableError>)
      requires IsValid()
      ensures r.Err? <==> |mask| != Len()
      ensures r.Err? ==> r.error == MaskDoesNotMatchFeatures
      ensures r.Ok? ==> fresh(r.value)
      ensures r.Ok? ==> r.value.featureIndices == Offsets(Retain(MultiPoints(), mask))
      ensures r.Ok? ==> r.value.coordinates == Flatten(Retain(MultiPoints(), mask))
      ensures r.Ok? ==> r.value.IsValid() && r.value.featureIndices[0] == 0
      ensures r.Ok? ==> r.value.Len() == CountTrue(mask) && r.value.MultiPoints() == Retain(MultiPoints(), mask)
    {
      if |mask| != |featureIndices| - 1 {
        return Err(MaskDoesNotMatchFeatures);
      }
      ghost var runs := MultiPoints();
      var filteredFeatureIndices: seq<nat> := [];
      var filteredCoordinates: seq<Coordinate> := [];
      for i := 0 to |mask|
        invariant filteredFeatureIndices + [|filteredCoordinates|] == Offsets(Retain(runs[..i], mask[..i]))
        invariant filteredCoordinates == Flatten(Retain(runs[..i], mask[..i]))
      {
        var start, end := featureIndices[i], featureIndices[i + 1];
        RunAt(featureIndices, coordinates, i);
        FilterStep(runs, mask, i, filteredFeatureIndices, filteredCoordinates);
        if mask[i] {
          filteredFeatureIndices := filteredFeatureIndices + [|filteredCoordinates|];
          filteredCoordinates := filteredCoordinates + coordinates[start..end];
        }
      }
      filteredFeatureIndices := filteredFeatureIndices + [|filteredCoordinates|];
      assert runs[..|mask|] == runs && mask[..|mask|] == mask;
      FilteredIsValid(runs, mask);
      var filtered := new PointCollection.FromDataUnchecked(filteredFeatureIndices, filteredCoordinates);
      return Ok(filtered);
    }

    /**
     * `filter_with_predicate`: a new valid collection, starting at offset 0,
     * holding exactly the features the predicate accepts, in their original order.
     */
    method FilterWithPredicate(keep: Run -> bool) returns (filtered: PointCollection)
      requires IsValid()
      ensures fresh(filtered)
      ensures filtered.featureIndices == Offsets(Retain(MultiPoints(), PredicateMask(MultiPoints(), keep)))
      ensures filtered.coordinates == Flatten(Retain(MultiPoints(), PredicateMask(MultiPoints(), keep)))
      ensures filtered.IsValid() && filtered.featureIndices[0] == 0
      ensures filtered.MultiPoints() == Retain(MultiPoints(), PredicateMask(MultiPoints(), keep))
    {
      ghost var runs := MultiPoints();
      ghost var mask := PredicateMask(runs, keep);
      var filteredFeatureIndices: seq<nat> := [];
      var filteredCoordinates: seq<Coordinate> := [];
      for i := 0 to |featureIndices| - 1
        invariant filteredFeatureIndices + [|filteredCoordinates|] == Offsets(Retain(runs[..i], mask[..i]))
        invariant filteredCoordinates == Flatten(Retain(runs[..i], mask[..i]))
      {
        var start, end := featureIndices[i], featureIndices[i + 1];
        RunAt(featureIndices, coordinates, i);
        FilterStep(runs, mask, i, filteredFeatureIndices, filteredCoordinates);
        var points := coordinates[start..end];
        if keep(points) {
          filteredFeatureIndices := filteredFeatureIndices + [|filteredCoordinates|];
          filteredCoordinates := filteredCoordinates + points;
        }
      }
      filteredFeatureIndices := filteredFeatureIndices + [|filteredCoordinates|];
      assert runs[..|runs|] == runs && mask[..|mask|] == mask;
      FilteredIsValid(runs, mask);
      filtered := new PointCollection.FromDataUnchecked(filteredFeatureIndices, filteredCoordinates);
    }

    /**
     * `filter_inplace`: the mask length is checked before anything changes,
     * and a mismatch leaves the collection as it was. Otherwise the retained
     * features are compacted to the front of both vectors, which are then
     * truncated: the collection ends up exactly as `Filter` would build it.
     */
    method FilterInplace(mask: seq<bool>) returns (r: Result<(), FilterableError>)
      requires IsValid()
      modifies this
      ensures r.Err? <==> |mask| != old(Len())
      ensures r.Err? ==> r.error == MaskDoesNotMatchFeatures
      ensures r.Err? ==> featureIndices == old(featureIndices) && coordinates == old(coordinates)
      ensures r.Ok? ==> featureIndices == Offsets(Retain(old(MultiPoints()), mask))
      ensures r.Ok? ==> coordinates == Flatten(Retain(old(MultiPoints()), mask))
      ensures IsValid()
      ensures r.Ok? ==> featureIndices[0] == 0 && MultiPoints() == Retain(old(MultiPoints()), mask)
    {
      if |mask| != |featureIndices| - 1 {
        return Err(MaskDoesNotMatchFeatures);
      }
      ghost var runs := MultiPoints();
      RunsLayout(featureIndices, coordinates);
      CompactByMask(mask, runs);
      FilteredIsValid(runs, mask);
      r := Ok(());
    }

    /**
     * The compaction loop of `filter_inplace` and its closing truncation.
     * Feature `i` is kept when `mask[i]` holds: its offset is overwritten
     * with the write cursor and its coordinates are moved down to it. The
     * vectors end up encoding exactly the kept features.
     */
    method CompactByMask(mask: seq<bool>, ghost runs: seq<Run>)
      requires |mask| == |runs| && Layout(featureIndices, coordinates, runs)
      modifies this
      ensures featureIndices == Offsets(Retain(runs, mask))
      ensures coordinates == Flatten(Retain(runs, mask))
    {
      ghost var offsets0, coordinates0 := featureIndices, coordinates;
      var featureIndex: nat, coordinateStart: nat := 0, 0;
      for i := 0 to |mask|
        invariant featureIndices == WalkState(offsets0, coordinates0, mask, i).indices
        invariant coordinates == WalkState(offsets0, coordinates0, mask, i).buffer
        invariant featureIndex == WalkState(offsets0, coordinates0, mask, i).written
        invariant coordinateStart == WalkState(offsets0, coordinates0, mask, i).cursor
      {
        WalkStep(offsets0, coordinates0, runs, mask, i);
        var start, end := featureIndices[i], featureIndices[i + 1];
        if mask[i] {
          featureIndices := featureIndices[featureIndex := coordinateStart];
          var numberOfCoordinates := end - start;
          coordinates := CopyWithin(coordinates, start, end, coordinateStart);
          featureIndex := featureIndex + 1;
          coordinateStart := coordinateStart + numberOfCoordinates;
        }
      }
      WalkDone(offsets0, coordinates0, runs, mask);
      featureIndices := featureIndices[featureIndex := coordinateStart];
      // `resize_with` to lengths that are never larger: truncations
      featureIndices, coordinates := featureIndices[..featureIndex + 1], coordinates[..coordinateStart];
    }

    /**
     * `filter_inplace_with_predicate`: the collection keeps exactly the
     * features the predicate accepts, in their original order, compacted to
     * the front; it ends up as `FilterWithPredicate` would build it.
     */
    method FilterInplaceWithPredicate(keep: Run -> bool)
      requires IsValid()
      modifies this
      ensures featureIndices == Offsets(Retain(old(MultiPoints()), PredicateMask(old(MultiPoints()), keep)))
      ensures coordinates == Flatten(Retain(old(MultiPoints()), PredicateMask(old(MultiPoints()), keep)))
      ensures IsValid() && featureIndices[0] == 0
      ensures MultiPoints() == Retain(old(MultiPoints()), PredicateMask(old(MultiPoints()), keep))
    {
      ghost var runs := MultiPoints();
      RunsLayout(featureIndices, coordinates);
      CompactByPredicate(keep, runs, PredicateMask(runs, keep));
      FilteredIsValid(runs, PredicateMask(runs, keep));
    }

    /**
     * The compaction loop of `filter_inplace_with_predicate`: as in
     * `CompactByMask`, with the predicate asked about each feature's
     * coordinates, which are still in place when it is asked.
     */
    method CompactByPredicate(keep: Run -> bool, ghost runs: seq<Run>, ghost mask: seq<bool>)
      requires Layout(featureIndices, coordinates, runs)
      requires |mask| == |runs| && forall j :: 0 <= j < |runs| ==> mask[j] == keep(runs[j])
      modifies this
      ensures featureIndices == Offsets(Retain(runs, mask))
      ensures coordinates == Flatten(Retain(runs, mask))
    {
      ghost var offsets0, coordinates0 := featureIndices, coordinates;
      var featureIndex: nat, coordinateStart: nat := 0, 0;
      for i := 0 to |featureIndices| - 1
        invariant featureIndices == WalkState(offsets0, coordinates0, mask, i).indices
        invariant coordinates == WalkState(offsets0, coordinates0, mask, i).buffer
        invariant featureIndex == WalkState(offsets0, coordinates0, mask, i).written
        invariant coordinateStart == WalkState(offsets0, coordinates0, mask, i).cursor
      {
        WalkStep(offsets0, coordinates0, runs, mask, i);
        var start, end := featureIndices[i], featureIndices[i + 1];
        var run := coordinates[start..end];
        assert mask[i] == keep(run);
        if keep(run) {
          featureIndices := featureIndices[featureIndex := coordinateStart];
          var numberOfCoordinates := end - start;
          coordinates := CopyWithin(coordinates, start, end, coordinateStart);
          featureIndex := featureIndex + 1;
          coordinateStart := coordinateStart + numberOfCoordinates;
        }
      }
      WalkDone(offsets0, coordinates0, runs, mask);
      featureIndices := featureIndices[featureIndex := coordinateStart];
      // `resize_with` to lengths that are never larger: truncations
      featureIndices, coordinates := featureIndices[..featureIndex + 1], coordinates[..coordinateStart];
    }
  }
}
