/**
 Adaptive assessment: scores a student's responses against an answer key and
 places the score in one of three feedback bands.

 Responses and key are paired position by position and the pairing stops at
 the shorter of the two, so surplus responses are ignored and missing ones
 count as wrong. The score is the number of matching pairs divided by the
 length of the key, times 100; an empty key makes that division fail. Scores
 above 80 are "mastered", scores above 50 and up to 80 a "good attempt", and
 scores up to 50 "need practice".
 */
module Assessment {

  datatype Band = Mastered | GoodAttempt | NeedsPractice

  /** The score (an exact percentage) and its feedback band. */
  datatype Report = Report(score: real, band: Band)

  /** An assessment either yields a report or fails on division by zero. */
  datatype Outcome = Scored(report: Report) | DivisionByZero

  /** Scores strictly above this are "mastered". */
  const MasteredAbove: real := 80.0

  /** Scores strictly above this (and not mastered) are a "good attempt". */
  const GoodAttemptAbove: real := 50.0

  function Min(a: nat, b: nat): nat {
    if a <= b then a else b
  }

  /** The number of positions below `n` where the response equals the key. */
  function MatchesBelow<T(==)>(responses: seq<T>, key: seq<T>, n: nat): (count: nat)
    requires n <= |responses| && n <= |key|
    ensures count <= n
  {
    if n == 0 then 0
    else MatchesBelow(responses, key, n - 1) + (if responses[n - 1] == key[n - 1] then 1 else 0)
  }

  /** The number of matching pairs when responses and key are zipped together. */
  function MatchCount<T(==)>(responses: seq<T>, key: seq<T>): (count: nat)
    ensures count <= |responses| && count <= |key|
  {
    MatchesBelow(responses, key, Min(|responses|, |key|))
  }

  /** The zipped positions at which the response equals the key. */
  ghost function MatchPositions<T>(responses: seq<T>, key: seq<T>, n: nat): set<nat> {
    set i: nat | i < n && i < |responses| && i < |key| && responses[i] == key[i]
  }

  /** The running count is the number of matching positions. */
  lemma {:induction false} MatchesBelowCountsPositions<T>(responses: seq<T>, key: seq<T>, n: nat)
    requires n <= |responses| && n <= |key|
    ensures MatchesBelow(responses, key, n) == |MatchPositions(responses, key, n)|
  {
    if n > 0 {
      MatchesBelowCountsPositions(responses, key, n - 1);
      var before := MatchPositions(responses, key, n - 1);
      if responses[n - 1] == key[n - 1] {
        assert MatchPositions(responses, key, n) == before + {n - 1};
      } else {
        assert MatchPositions(responses, key, n) == before;
      }
    }
  }

  /** The match count is the number of positions, within the shorter list, where response and key agree. */
  lemma MatchCountCountsPositions<T>(responses: seq<T>, key: seq<T>)
    ensures MatchCount(responses, key) == |MatchPositions(responses, key, Min(|responses|, |key|))|
  {
    MatchesBelowCountsPositions(responses, key, Min(|responses|, |key|));
  }

  lemma {:induction false} MatchesBelowAllIff<T>(responses: seq<T>, key: seq<T>, n: nat)
    requires n <= |responses| && n <= |key|
    ensures MatchesBelow(responses, key, n) == n <==> forall i :: 0 <= i < n ==> responses[i] == key[i]
  {
    if n > 0 {
      MatchesBelowAllIff(responses, key, n - 1);
    }
  }

  lemma {:induction false} MatchesBelowNoneIff<T>(responses: seq<T>, key: seq<T>, n: nat)
    requires n <= |responses| && n <= |key|
    ensures MatchesBelow(responses, key, n) == 0 <==> forall i :: 0 <= i < n ==> responses[i] != key[i]
  {
    if n > 0 {
      MatchesBelowNoneIff(responses, key, n - 1);
    }
  }

  /** Every key entry is matched exactly when the responses cover the key and agree with it everywhere. */
  lemma FullMatchIff<T>(responses: seq<T>, key: seq<T>)
    ensures MatchCount(responses, key) == |key|
      <==> |key| <= |responses| && forall i :: 0 <= i < |key| ==> responses[i] == key[i]
  {
    var n := Min(|responses|, |key|);
    MatchesBelowAllIff(responses, key, n);
  }

  /** Nothing is matched exactly when no zipped pair agrees. */
  lemma NoMatchIff<T>(responses: seq<T>, key: seq<T>)
    ensures MatchCount(responses, key) == 0
      <==> forall i :: 0 <= i < Min(|responses|, |key|) ==> responses[i] != key[i]
  {
    MatchesBelowNoneIff(responses, key, Min(|responses|, |key|));
  }

  lemma {:induction false} MatchesBelowIgnoresSuffix<T>(responses: seq<T>, extra: seq<T>, key: seq<T>, n: nat)
    requires n <= |responses| && n <= |key|
    ensures MatchesBelow(responses + extra, key, n) == MatchesBelow(responses, key, n)
  {
    if n > 0 {
      MatchesBelowIgnoresSuffix(responses, extra, key, n - 1);
      assert (responses + extra)[n - 1] == responses[n - 1];
    }
  }

  /** Responses beyond the length of the key do not change the count. */
  lemma SurplusResponsesIgnored<T>(responses: seq<T>, extra: seq<T>, key: seq<T>)
    requires |key| <= |responses|
    ensures MatchCount(responses + extra, key) == MatchCount(responses, key)
  {
    MatchesBelowIgnoresSuffix(responses, extra, key, |key|);
  }

  lemma {:induction false} MatchesBelowCorrected<T>(responses: seq<T>, key: seq<T>, i: nat, n: nat)
    requires i < |responses| && i < |key|
    requires n <= |responses| && n <= |key|
    ensures MatchesBelow(responses[i := key[i]], key, n)
      == MatchesBelow(responses, key, n) + (if i < n && responses[i] != key[i] then 1 else 0)
  {
    if n > 0 {
      MatchesBelowCorrected(responses, key, i, n - 1);
    }
  }

  /** Correcting one wrong answer within the zipped range raises the count by exactly one; correcting a right one changes nothing. */
  lemma CorrectingAnswer<T>(responses: seq<T>, key: seq<T>, i: nat)
    requires i < |responses| && i < |key|
    ensures MatchCount(responses[i := key[i]], key)
      == MatchCount(responses, key) + (if responses[i] != key[i] then 1 else 0)
  {
    MatchesBelowCorrected(responses, key, i, Min(|responses|, |key|));
  }

  /** The summing loop over the zipped pairs. */
  method CountMatches<T(==)>(responses: seq<T>, key: seq<T>) returns (count: nat)
    ensures count == |MatchPositions(responses, key, Min(|responses|, |key|))|
    ensures count == MatchCount(responses, key)
  {
    count := 0;
    var n := Min(|responses|, |key|);
    for i := 0 to n
      invariant count == MatchesBelow(responses, key, i)
    {
      if responses[i] == key[i] {
        count := count + 1;
      }
    }
    MatchCountCountsPositions(responses, key);
  }

  /** `correct` out of `total` as an exact percentage. */
  function Percentage(correct: nat, total: nat): (p: real)
    requires total > 0
    ensures p * total as real == correct as real * 100.0
    ensures 0.0 <= p
    ensures correct <= total ==> p <= 100.0
  {
    (correct as real / total as real) * 100.0
  }

  /** The feedback band of a percentage score. */
  function BandOf(score: real): Band {
    if score > MasteredAbove then Mastered
    else if score > GoodAttemptAbove then GoodAttempt
    else NeedsPractice
  }

  /** The band decided on whole numbers: `correct` of `total` compared without division. */
  function BandOfCount(correct: nat, total: nat): Band {
    if 5 * correct > 4 * total then Mastered
    else if 2 * correct > total then GoodAttempt
    else NeedsPractice
  }

  /** Multiplying both sides by a positive factor keeps a strict comparison. */
  lemma ScaleComparison(a: real, b: real, t: real)
    requires t > 0.0
    ensures a > b <==> a * t > b * t
  {
    assert a * t - b * t == (a - b) * t;
  }

  /** Two reals with equal products by a non-zero factor are equal. */
  lemma CancelFactor(a: real, b: real, t: real)
    requires t != 0.0
    requires a * t == b * t
    ensures a == b
  {
    assert (a - b) * t == 0.0;
  }

  /** A percentage `p` of `correct` out of `total` exceeds `100 * num / den` exactly when `den * correct > num * total`. */
  lemma AboveShareIff(p: real, correct: nat, total: nat, num: nat, den: nat)
    requires total > 0 && den > 0
    requires p * total as real == correct as real * 100.0
    ensures p * den as real > 100.0 * num as real <==> den * correct > num * total
  {
    var t, c, d, m := total as real, correct as real, den as real, num as real;
    ScaleComparison(p * d, 100.0 * m, t);
    assert p * d * t == c * 100.0 * d;
    assert (den * correct) as real == d * c;
    assert (num * total) as real == m * t;
  }

  /** Banding the exact percentage agrees with the division-free comparison. */
  lemma BandOfPercentage(correct: nat, total: nat)
    requires total > 0
    ensures BandOf(Percentage(correct, total)) == BandOfCount(correct, total)
  {
    var p := Percentage(correct, total);
    AboveShareIff(p, correct, total, 4, 5);
    AboveShareIff(p, correct, total, 1, 2);
  }

  /** Position of a band from worst to best. */
  function Rank(band: Band): nat {
    match band
    case NeedsPractice => 0
    case GoodAttempt => 1
    case Mastered => 2
  }

  /** A higher score never falls in a lower band. */
  lemma BandMonotone(low: real, high: real)
    requires low <= high
    ensures Rank(BandOf(low)) <= Rank(BandOf(high))
  {
  }

  /**
   Scores `responses` against `key`: fails exactly when the key is empty;
   otherwise the score is the share of matching zipped pairs in the key, as a
   percentage in [0, 100], and the band is the one that share falls in.
   */
  function Assess<T(==)>(responses: seq<T>, key: seq<T>): (outcome: Outcome)
    ensures outcome.DivisionByZero? <==> |key| == 0
    ensures outcome.Scored? ==> 0.0 <= outcome.report.score <= 100.0
    ensures outcome.Scored? ==>
      outcome.report.score * |key| as real == |MatchPositions(responses, key, |key|)| as real * 100.0
    ensures outcome.Scored? ==>
      outcome.report.band == BandOfCount(|MatchPositions(responses, key, |key|)|, |key|)
  {
    if |key| == 0 then DivisionByZero
    else
      var correct := MatchCount(responses, key);
      MatchCountCountsPositions(responses, key);
      assert MatchPositions(responses, key, |key|) == MatchPositions(responses, key, Min(|responses|, |key|));
      var score := Percentage(correct, |key|);
      BandOfPercentage(correct, |key|);
      Scored(Report(score, BandOf(score)))
  }

  /** Responses identical to a non-empty key score 100 and are mastered. */
  lemma PerfectResponsesMastered<T>(key: seq<T>)
    requires |key| > 0
    ensures Assess(key, key) == Scored(Report(100.0, Mastered))
  {
    FullMatchIff(key, key);
  }

  /** Responses that match no zipped entry of a non-empty key score 0 and need practice. */
  lemma NoMatchesNeedPractice<T>(responses: seq<T>, key: seq<T>)
    requires |key| > 0
    requires forall i :: 0 <= i < |key| && i < |responses| ==> responses[i] != key[i]
    ensures Assess(responses, key) == Scored(Report(0.0, NeedsPractice))
  {
    NoMatchIff(responses, key);
  }

  /** The percentage is `score` whenever `score` of every 100 matches `correct` of `total`. */
  lemma PercentageIs(correct: nat, total: nat, score: real)
    requires total > 0
    requires correct as real * 100.0 == score * total as real
    ensures Percentage(correct, total) == score
  {
    CancelFactor(Percentage(correct, total), score, total as real);
  }

  /** A score of exactly 80 is a good attempt, not mastery. */
  lemma EightyIsGoodAttempt<T>(responses: seq<T>, key: seq<T>)
    requires |key| > 0
    requires 5 * MatchCount(responses, key) == 4 * |key|
    ensures Assess(responses, key) == Scored(Report(80.0, GoodAttempt))
  {
    var c := MatchCount(responses, key);
    assert (5 * c) as real == (4 * |key|) as real;
    PercentageIs(c, |key|, 80.0);
  }

  /** A score of exactly 50 needs practice, not a good attempt. */
  lemma FiftyNeedsPractice<T>(responses: seq<T>, key: seq<T>)
    requires |key| > 0
    requires 2 * MatchCount(responses, key) == |key|
    ensures Assess(responses, key) == Scored(Report(50.0, NeedsPractice))
  {
    var c := MatchCount(responses, key);
    assert (2 * c) as real == |key| as real;
    PercentageIs(c, |key|, 50.0);
  }

  /** Correcting an answer never moves the result to a lower band. */
  lemma CorrectingNeverLowersBand<T>(responses: seq<T>, key: seq<T>, i: nat)
    requires i < |responses| && i < |key|
    ensures Rank(Assess(responses[i := key[i]], key).report.band) >= Rank(Assess(responses, key).report.band)
  {
    CorrectingAnswer(responses, key, i);
    BandOfPercentage(MatchCount(responses, key), |key|);
    BandOfPercentage(MatchCount(responses[i := key[i]], key), |key|);
  }
}
