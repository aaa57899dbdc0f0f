/** The two decision ladders at the end of `analyze_parentage`: the
    confidence level stored with the results and the conclusion announced
    to the user, both read off the consistent and inconsistent counts, and
    the consistency rate. */
module Classification {

  datatype Confidence = VeryHigh | High | Moderate | Low

  datatype Conclusion = Confirmed | Likely | Excluded | Inconclusive

  /** The confidence ladder: the first rung whose thresholds are met. */
  function ConfidenceLevel(inconsistent: nat, consistent: nat): Confidence
  {
    if inconsistent == 0 && consistent >= 20 then VeryHigh
    else if inconsistent <= 1 && consistent >= 15 then High
    else if inconsistent <= 2 && consistent >= 10 then Moderate
    else Low
  }

  /** The conclusion ladder: the first rung whose thresholds are met. */
  function ConclusionFor(inconsistent: nat, consistent: nat): Conclusion
  {
    if inconsistent == 0 && consistent >= 15 then Confirmed
    else if inconsistent <= 2 && consistent >= 10 then Likely
    else if inconsistent > consistent then Excluded
    else Inconclusive
  }

  /** `consistency_rate`: the percentage of testable markers that are
      consistent, and 0 when no marker could be tested. */
  function ConsistencyRate(consistent: nat, testable: nat): (r: real)
    ensures testable == 0 ==> r == 0.0
    ensures consistent <= testable ==> 0.0 <= r <= 100.0
    ensures testable > 0 ==> (r == 100.0 <==> consistent == testable)
    ensures testable > 0 ==> (r == 0.0 <==> consistent == 0)
  {
    if testable > 0 then RateRange(consistent, testable); RatePercent(consistent, testable) else 0.0
  }

  function RatePercent(consistent: nat, testable: nat): (r: real)
    requires testable > 0
    ensures r * testable as real == consistent as real * 100.0
  {
    (consistent as real / testable as real) * 100.0
  }

  /** What the defining equation of the rate says about its range. */
  lemma RateRange(consistent: nat, testable: nat)
    requires testable > 0
    ensures var r := RatePercent(consistent, testable);
      0.0 <= r && (consistent <= testable ==> r <= 100.0) &&
      (r == 100.0 <==> consistent == testable) && (r == 0.0 <==> consistent == 0)
  {
    var r := RatePercent(consistent, testable);
    var t, c := testable as real, consistent as real;
    assert r * t == c * 100.0;
    assert t > 0.0;
  }

  /** Confidence levels from the strongest to the weakest. */
  function Rank(c: Confidence): nat
  {
    match c
    case VeryHigh => 3
    case High => 2
    case Moderate => 1
    case Low => 0
  }

  // ---------------------------------------------------------------------
  // Properties of the ladders.

  /** The boundary of the top rung: twenty clean markers are needed. */
  lemma VeryHighBoundary()
    ensures ConfidenceLevel(0, 20) == VeryHigh
    ensures ConfidenceLevel(0, 19) == High
  {
  }

  /** The confidence is above Low exactly when the conclusion is Confirmed
      or Likely, and both happen exactly when there are at most two
      exclusions and at least ten consistent markers. */
  lemma LaddersAgree(inconsistent: nat, consistent: nat)
    ensures ConfidenceLevel(inconsistent, consistent) != Low
      <==> ConclusionFor(inconsistent, consistent) in {Confirmed, Likely}
    ensures ConfidenceLevel(inconsistent, consistent) != Low
      <==> inconsistent <= 2 && consistent >= 10
  {
  }

  /** An exclusion is announced only when exclusions outnumber consistent
      markers, and then the confidence is Low. */
  lemma ExcludedMeansMajorityInconsistent(inconsistent: nat, consistent: nat)
    requires ConclusionFor(inconsistent, consistent) == Excluded
    ensures inconsistent > consistent
    ensures ConfidenceLevel(inconsistent, consistent) == Low
  {
  }

  /** A confirmed parentage has a High or Very High confidence. */
  lemma ConfirmedIsConfident(inconsistent: nat, consistent: nat)
    requires ConclusionFor(inconsistent, consistent) == Confirmed
    ensures ConfidenceLevel(inconsistent, consistent) in {VeryHigh, High}
  {
  }

  /** One more consistent marker never lowers the confidence, and one more
      exclusion never raises it. */
  lemma ConfidenceMonotone(i: nat, c: nat, i': nat, c': nat)
    requires i' <= i && c <= c'
    ensures Rank(ConfidenceLevel(i, c)) <= Rank(ConfidenceLevel(i', c'))
  {
  }

  /** 18 consistent markers and no exclusion: parentage confirmed with High
      confidence. 8 consistent against 12 exclusions: parentage excluded. */
  lemma WorkedCases()
    ensures ConclusionFor(0, 18) == Confirmed && ConfidenceLevel(0, 18) == High
    ensures ConclusionFor(12, 8) == Excluded && ConfidenceLevel(12, 8) == Low
    ensures ConclusionFor(3, 3) == Inconclusive
  {
  }
}
