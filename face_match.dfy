/**
 * The face check of the mark-attendance handler: the L1 distance between the
 * captured descriptor and the stored reference, compared with a fixed threshold.
 * Descriptors are sequences of reals.
 */
module FaceMatch {
  type Descriptor = seq<real>

  /** A distance at or above this value means "Face not recognized". */
  const MatchThreshold: real := 0.6

  function Abs(x: real): (a: real)
    ensures a >= 0.0 && (a == x || a == -x)
  {
    if x < 0.0 then -x else x
  }

  /**
   * The left fold `captured.reduce((sum, val, i) => sum + |val - reference[i]|, 0)`.
   * It runs over the captured descriptor's indices only, so it is defined when the
   * reference has at least that many entries.
   */
  function Distance(captured: Descriptor, reference: Descriptor): (d: real)
    requires |captured| <= |reference|
    ensures d >= 0.0
    ensures d == 0.0 <==> forall i :: 0 <= i < |captured| ==> captured[i] == reference[i]
    decreases |captured|
  {
    if |captured| == 0 then 0.0
    else
      var n := |captured| - 1;
      var d := Distance(captured[..n], reference) + Abs(captured[n] - reference[n]);
      assert forall i :: 0 <= i < n ==> captured[..n][i] == captured[i];
      d
  }

  /**
   * The handler's test `distance >= 0.6`. When the captured descriptor is longer
   * than the reference, the fold reads entries the reference does not have, the
   * sum is not a number, and the comparison is false: the face is not rejected.
   */
  predicate Rejected(captured: Descriptor, reference: Descriptor): (r: bool)
    ensures |captured| > |reference| ==> !r
    ensures r ==> exists i :: 0 <= i < |captured| && captured[i] != reference[i]
  {
    |captured| <= |reference| && Distance(captured, reference) >= MatchThreshold
  }

  /** Reference entries past the captured descriptor's length play no part. */
  lemma {:induction false} DistanceReadsPrefix(captured: Descriptor, reference: Descriptor)
    requires |captured| <= |reference|
    ensures Distance(captured, reference) == Distance(captured, reference[..|captured|])
    decreases |captured|
  {
    if |captured| > 0 {
      var n := |captured| - 1;
      DistanceReadsPrefix(captured[..n], reference);
      DistanceReadsPrefix(captured[..n], reference[..|captured|]);
      assert reference[..|captured|][..n] == reference[..n];
    }
  }

  /** For descriptors of equal length the distance does not depend on which one was captured. */
  lemma {:induction false} DistanceSymmetric(a: Descriptor, b: Descriptor)
    requires |a| == |b|
    ensures Distance(a, b) == Distance(b, a)
    decreases |a|
  {
    if |a| > 0 {
      var n := |a| - 1;
      DistanceReadsPrefix(a[..n], b);
      DistanceReadsPrefix(b[..n], a);
      DistanceSymmetric(a[..n], b[..n]);
      assert b[..n][..n] == b[..n] && a[..n][..n] == a[..n];
    }
  }

  /** A captured descriptor identical to the reference is never rejected. */
  lemma IdenticalAccepted(d: Descriptor)
    ensures !Rejected(d, d)
  {
  }

  /** A captured descriptor that agrees with the reference on its own indices is never rejected,
      so in particular an empty captured descriptor always passes. */
  lemma AgreeingPrefixAccepted(captured: Descriptor, reference: Descriptor)
    requires |captured| <= |reference|
    requires forall i :: 0 <= i < |captured| ==> captured[i] == reference[i]
    ensures !Rejected(captured, reference)
  {
  }

  /** A captured descriptor longer than the reference is never rejected, whatever its entries. */
  lemma LongerCapturedAccepted(captured: Descriptor, reference: Descriptor)
    requires |captured| > |reference|
    ensures !Rejected(captured, reference)
  {
  }

  /** Two worked examples: [0,0,0] against itself passes, [1,1,1] against [0,0,0] is rejected. */
  lemma WorkedExamples()
    ensures Distance([0.0, 0.0, 0.0], [0.0, 0.0, 0.0]) == 0.0 && !Rejected([0.0, 0.0, 0.0], [0.0, 0.0, 0.0])
    ensures Distance([1.0, 1.0, 1.0], [0.0, 0.0, 0.0]) == 3.0 && Rejected([1.0, 1.0, 1.0], [0.0, 0.0, 0.0])
  {
    var z := [0.0, 0.0, 0.0];
    var o := [1.0, 1.0, 1.0];
    assert o[..2] == [1.0, 1.0] && o[..2][..1] == [1.0] && o[..2][..1][..0] == [];
  }
}
