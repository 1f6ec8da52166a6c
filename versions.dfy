/**
 * The ordering of PEP 440 versions restricted to their release segment
 * ("Version scheme", "Final releases"): components are compared numerically
 * from the left, and a missing trailing component counts as zero, so that
 * 40.8 and 40.8.0 are the same version.
 */
module Versions {

  /** The release segment of a version: its dot-separated non-negative integers. */
  type Release = seq<nat>

  datatype Ordering = Less | Equal | Greater

  /** The `i`-th release component, reading components past the end as zero. */
  function Segment(v: Release, i: nat): nat
  {
    if i < |v| then v[i] else 0
  }

  /** The first component, zero for the empty release. */
  function Head(v: Release): nat
  {
    if v == [] then 0 else v[0]
  }

  /** The components after the first. */
  function Rest(v: Release): Release
  {
    if v == [] then [] else v[1..]
  }

  /** Zero-padded comparison of two releases, one component at a time. */
  function Compare(a: Release, b: Release): Ordering
    decreases |a| + |b|
  {
    if a == [] && b == [] then Equal
    else if Head(a) < Head(b) then Less
    else if Head(a) > Head(b) then Greater
    else Compare(Rest(a), Rest(b))
  }

  /** `a >= b` between versions. */
  predicate AtLeast(a: Release, b: Release)
  {
    Compare(a, b) != Less
  }

  /** `a` and `b` agree on every component below position `k`. */
  ghost predicate AgreeBelow(a: Release, b: Release, k: nat)
  {
    forall i: nat :: i < k ==> Segment(a, i) == Segment(b, i)
  }

  lemma SegmentOfRest(v: Release, i: nat)
    ensures Segment(v, 0) == Head(v)
    ensures Segment(Rest(v), i) == Segment(v, i + 1)
  {
  }

  lemma AgreeBelowRest(a: Release, b: Release, k: nat)
    requires Head(a) == Head(b)
    ensures AgreeBelow(a, b, k + 1) <==> AgreeBelow(Rest(a), Rest(b), k)
  {
    forall i: nat ensures Segment(Rest(a), i) == Segment(a, i + 1) && Segment(Rest(b), i) == Segment(b, i + 1) {
      SegmentOfRest(a, i);
      SegmentOfRest(b, i);
    }
    if AgreeBelow(Rest(a), Rest(b), k) {
      forall i: nat | i < k + 1 ensures Segment(a, i) == Segment(b, i) {
        if i > 0 {
          assert Segment(Rest(a), i - 1) == Segment(Rest(b), i - 1);
        }
      }
    }
  }

  /** Two releases compare equal exactly when they agree at every zero-padded position. */
  lemma {:induction false} CompareEqualIff(a: Release, b: Release)
    ensures Compare(a, b) == Equal <==> forall i: nat :: Segment(a, i) == Segment(b, i)
    decreases |a| + |b|
  {
    SegmentOfRest(a, 0);
    SegmentOfRest(b, 0);
    if a != [] || b != [] {
      if Head(a) == Head(b) {
        CompareEqualIff(Rest(a), Rest(b));
        forall i: nat ensures Segment(a, i) == Segment(b, i) <==> (i == 0 || Segment(Rest(a), i - 1) == Segment(Rest(b), i - 1)) {
          if i > 0 {
            SegmentOfRest(a, i - 1);
            SegmentOfRest(b, i - 1);
          }
        }
        if forall i: nat :: Segment(a, i) == Segment(b, i) {
          forall i: nat ensures Segment(Rest(a), i) == Segment(Rest(b), i) {
            assert Segment(a, i + 1) == Segment(b, i + 1);
          }
        }
      }
    }
  }

  /** `a` is below `b` exactly when, at the first position where they differ, `a`'s component is smaller. */
  lemma {:induction false} CompareLessIff(a: Release, b: Release)
    ensures Compare(a, b) == Less <==> exists k: nat :: AgreeBelow(a, b, k) && Segment(a, k) < Segment(b, k)
    decreases |a| + |b|
  {
    SegmentOfRest(a, 0);
    SegmentOfRest(b, 0);
    if a == [] && b == [] {
    } else if Head(a) < Head(b) {
      assert AgreeBelow(a, b, 0);
    } else if Head(a) > Head(b) {
      assert Segment(a, 0) > Segment(b, 0);
      forall k: nat | AgreeBelow(a, b, k)
        ensures Segment(a, k) >= Segment(b, k)
      {
      }
    } else {
      CompareLessIff(Rest(a), Rest(b));
      forall k: nat | AgreeBelow(Rest(a), Rest(b), k) && Segment(Rest(a), k) < Segment(Rest(b), k)
        ensures AgreeBelow(a, b, k + 1) && Segment(a, k + 1) < Segment(b, k + 1)
      {
        AgreeBelowRest(a, b, k);
        SegmentOfRest(a, k);
        SegmentOfRest(b, k);
      }
      forall k: nat | AgreeBelow(a, b, k) && Segment(a, k) < Segment(b, k)
        ensures k >= 1 && AgreeBelow(Rest(a), Rest(b), k - 1) && Segment(Rest(a), k - 1) < Segment(Rest(b), k - 1)
      {
        assert k != 0;
        AgreeBelowRest(a, b, k - 1);
        SegmentOfRest(a, k - 1);
        SegmentOfRest(b, k - 1);
      }
    }
  }

  /**
   * Compare is the PEP 440 release ordering: two releases are equal exactly
   * when they agree at every (zero-padded) position, and `a` is smaller
   * exactly when at the first position where they differ `a`'s component is
   * the smaller one.
   */
  lemma CompareIsZeroPaddedLexicographic(a: Release, b: Release)
    ensures Compare(a, b) == Equal <==> forall i: nat :: Segment(a, i) == Segment(b, i)
    ensures Compare(a, b) == Less <==> exists k: nat :: AgreeBelow(a, b, k) && Segment(a, k) < Segment(b, k)
  {
    CompareEqualIff(a, b);
    CompareLessIff(a, b);
  }

  /** Two releases that agree at every zero-padded position compare alike against any other pair that does. */
  lemma SameSegmentsSameCompare(a: Release, a2: Release, b: Release, b2: Release)
    requires forall i: nat :: Segment(a, i) == Segment(a2, i)
    requires forall i: nat :: Segment(b, i) == Segment(b2, i)
    ensures Compare(a, b) == Compare(a2, b2)
  {
    CompareIsZeroPaddedLexicographic(a, b);
    CompareIsZeroPaddedLexicographic(a2, b2);
    forall k: nat ensures AgreeBelow(a, b, k) == AgreeBelow(a2, b2, k) {
    }
  }

  /** A release whose last component, if any, is not zero. */
  predicate NoTrailingZero(v: Release)
  {
    v == [] || v[|v| - 1] != 0
  }

  /** The release with its trailing zero components removed: the key `packaging` orders by. */
  function TrimZeros(v: Release): Release
    decreases |v|
  {
    if v != [] && v[|v| - 1] == 0 then TrimZeros(v[..|v| - 1]) else v
  }

  /** Python's ordering of integer tuples: component by component, a proper prefix first. */
  function TupleCompare(a: Release, b: Release): Ordering
    decreases |a|
  {
    if a == [] && b == [] then Equal
    else if a == [] then Less
    else if b == [] then Greater
    else if a[0] < b[0] then Less
    else if a[0] > b[0] then Greater
    else TupleCompare(a[1..], b[1..])
  }

  lemma {:induction false} TrimZerosKeepsSegments(v: Release)
    ensures NoTrailingZero(TrimZeros(v))
    ensures forall i: nat :: Segment(TrimZeros(v), i) == Segment(v, i)
    decreases |v|
  {
    if v != [] && v[|v| - 1] == 0 {
      var w := v[..|v| - 1];
      TrimZerosKeepsSegments(w);
      forall i: nat ensures Segment(w, i) == Segment(v, i) {
      }
    }
  }

  lemma {:induction false} CompareEmptyWithNonZero(b: Release)
    requires b != [] && NoTrailingZero(b)
    ensures Compare([], b) == Less && Compare(b, []) == Greater
    decreases |b|
  {
    if b[0] == 0 {
      assert |b| >= 2;
      CompareEmptyWithNonZero(b[1..]);
    }
  }

  lemma {:induction false} TupleCompareAgrees(a: Release, b: Release)
    requires NoTrailingZero(a) && NoTrailingZero(b)
    ensures TupleCompare(a, b) == Compare(a, b)
    decreases |a|
  {
    if a == [] && b == [] {
    } else if a == [] {
      CompareEmptyWithNonZero(b);
    } else if b == [] {
      CompareEmptyWithNonZero(a);
    } else if a[0] == b[0] {
      assert NoTrailingZero(a[1..]) && NoTrailingZero(b[1..]);
      TupleCompareAgrees(a[1..], b[1..]);
    }
  }

  /**
   * `packaging` orders versions by the release tuple with its trailing zeros
   * trimmed, compared as a Python tuple; that is the same order as Compare.
   */
  lemma CompareIsTrimmedTupleOrder(a: Release, b: Release)
    ensures Compare(a, b) == TupleCompare(TrimZeros(a), TrimZeros(b))
  {
    TrimZerosKeepsSegments(a);
    TrimZerosKeepsSegments(b);
    SameSegmentsSameCompare(a, TrimZeros(a), b, TrimZeros(b));
    TupleCompareAgrees(TrimZeros(a), TrimZeros(b));
  }

  /** `>=` between versions is transitive. */
  lemma {:induction false} AtLeastTransitive(a: Release, b: Release, c: Release)
    requires AtLeast(a, b) && AtLeast(b, c)
    ensures AtLeast(a, c)
    decreases |a| + |b| + |c|
  {
    if !(a == [] && b == [] && c == []) && Head(a) == Head(b) == Head(c) {
      AtLeastTransitive(Rest(a), Rest(b), Rest(c));
    }
  }

  /** No release is below the empty release: every component is at least zero. */
  lemma {:induction false} NothingBelowEmpty(v: Release)
    ensures Compare(v, []) != Less
    decreases |v|
  {
    if v != [] && Head(v) == 0 {
      NothingBelowEmpty(Rest(v));
    }
  }
}
