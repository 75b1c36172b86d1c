# SmartEdu: topic recommendation and adaptive assessment

A Dafny model of the two decision routines of the `SmartEdu` class
(`smartedu.py`):

- **Personalized learning path** (`generate_personalized_path`). The routine
  looks up the student's per-topic score map. An unknown student gets the
  empty map. It then keeps, in catalog order, the topics of the fixed catalog
  `Algebra, History, Biology, Chemistry, Physics, English` whose score is
  strictly below 75. A topic missing from the map counts as score 0. This is
  modelled in module `Recommendation` (`recommendation.dfy`).
- **Adaptive assessment** (`adaptive_assessment`). The routine pairs the
  responses with the answer key through `zip`, so the pairing stops at the
  shorter list, and counts the equal pairs. The score is that count divided
  by the length of the key, times 100. The routine then picks one of three
  feedback bands: above 80 is "mastered", above 50 is a "good attempt", and
  anything else "needs practice". An empty key makes the division raise. This
  is modelled in module `Assessment` (`assessment.dfy`).

Modelling choices:

- Scores are exact `real` numbers. Python's floating-point division is not
  modelled.
- The feedback band is an enumeration (`Band`). The feedback text is not
  modelled.
- The division by zero on an empty key is the `DivisionByZero` outcome of
  `Assessment.Assess`. `Assessment.Percentage` itself requires a positive
  total.
- Responses and keys are sequences over any type with equality.
- `Recommendation.Recommend` filters any topic list. `PersonalizedPath`
  applies it to the fixed catalog, as the source does.
- The code fixes the topic list and the threshold: the catalog literal and
  the constant 75. The model keeps both as constants (`Catalog`,
  `MasteryThreshold`).
- The code pairs responses and key through `zip`, which truncates silently.
  The model does the same: surplus responses are ignored and missing
  responses count as wrong (`SurplusResponsesIgnored`,
  `MatchCountCountsPositions`).

## Model

| member | source | states |
|---|---|---|
| Recommendation.ScoreOf | smartedu.py:53 | the score of a topic is its recorded value, and 0 when the record does not mention it; its use is stated by `Recommend`, `EmptyRecordRecommendsAll` and `PersonalizedPath` |
| Recommendation.RecordOf | smartedu.py:50 | the record of a student is their entry in the table, and the empty record for an unknown student; its use is stated by `PersonalizedPath` (an unknown student gets the whole catalog) |
| Recommendation.Recommend | smartedu.py:53 | a topic is in the result exactly when it is in the input list and its score (0 when absent from the record) is strictly below 75; the result is never longer than the input |
| Recommendation.KeptPositions | smartedu.py:53 | the kept topics sit at strictly increasing positions of the input, and a position is kept exactly when its topic scores below 75 |
| Recommendation.RecommendIsSubsequence | smartedu.py:53 | the recommendation is an order-preserving subsequence of the topic list |
| Recommendation.RecommendKeepsDistinct | smartedu.py:49-53 | a duplicate-free topic list gives a duplicate-free recommendation |
| Recommendation.RecommendAllIff | smartedu.py:53 | the whole topic list comes back, in order, exactly when every topic scores below 75 |
| Recommendation.EmptyRecordRecommendsAll | smartedu.py:50-53 | an empty record (an unknown student) recommends every topic in order |
| Recommendation.RecommendNoneIff | smartedu.py:53 | nothing is recommended exactly when every topic scores 75 or more |
| Recommendation.CollectRecommended | smartedu.py:53 | the in-order walk of the comprehension, appending each topic below 75, produces the recommendation |
| Recommendation.CatalogDistinct | smartedu.py:49 | the six catalog topics are pairwise different |
| Recommendation.PersonalizedPath | smartedu.py:41-54 | the path holds exactly the catalog topics below 75 in the student's record, is an order-preserving subsequence of the six-topic catalog without duplicates, and is the whole catalog for an unknown student |
| Assessment.MatchCount | smartedu.py:65 | the number of matching pairs is at most the length of the responses and at most the length of the key |
| Assessment.MatchCountCountsPositions | smartedu.py:65 | the count equals the number of positions below the shorter length where response and key are equal |
| Assessment.FullMatchIff | smartedu.py:65 | every key entry is matched exactly when the responses are at least as long as the key and agree with it at every key position |
| Assessment.NoMatchIff | smartedu.py:65 | the count is 0 exactly when no zipped pair is equal |
| Assessment.SurplusResponsesIgnored | smartedu.py:65 | responses beyond the length of the key do not change the count |
| Assessment.CorrectingAnswer | smartedu.py:65 | replacing a wrong response inside the zipped range by the key's answer raises the count by one; replacing a right one changes nothing |
| Assessment.CountMatches | smartedu.py:65 | the summing loop over the zipped pairs returns the number of matching positions |
| Assessment.Percentage | smartedu.py:66 | the percentage times the total equals the count times 100, and it lies in [0, 100] when the count does not exceed the total |
| Assessment.BandOf | smartedu.py:70-75 | the three-way band of a score with the strict thresholds above 80 and above 50; characterized by `BandOfPercentage` (agreement with the division-free `BandOfCount`), `BandMonotone`, `EightyIsGoodAttempt` and `FiftyNeedsPractice` |
| Assessment.BandOfPercentage | smartedu.py:70-75 | banding the exact percentage with the thresholds above 80 and above 50 agrees with the whole-number comparisons 5·count > 4·total and 2·count > total |
| Assessment.Assess | smartedu.py:56-77 | the assessment fails with division by zero exactly when the key is empty; otherwise the score lies in [0, 100], times the key length equals 100 times the number of matching zipped positions, and the band is the one that share falls in |
| Assessment.PerfectResponsesMastered | smartedu.py:65-71 | responses identical to a non-empty key score 100 and are mastered |
| Assessment.NoMatchesNeedPractice | smartedu.py:65-75 | responses matching no zipped entry of a non-empty key score 0 and need practice |
| Assessment.EightyIsGoodAttempt | smartedu.py:66-73 | a score of exactly 80 is a good attempt, not mastery |
| Assessment.FiftyNeedsPractice | smartedu.py:66-75 | a score of exactly 50 needs practice, not a good attempt |
| Assessment.BandMonotone | smartedu.py:70-75 | a higher score never falls in a lower band |
| Assessment.CorrectingNeverLowersBand | smartedu.py:65-75 | correcting one response never moves the result to a lower band |

## Left out

- `__init__`, `preprocess_data` and `train_model` (smartedu.py:9-39): data-frame column handling, the train/test split and the logistic-regression fit and predict are calls into pandas and scikit-learn, whose code is not part of this model.
- The `print` calls of `train_model` (smartedu.py:38-39): output only.
- Floating-point arithmetic of the score (smartedu.py:66): the score is an exact rational value, so IEEE rounding is not modelled.
- The feedback text (smartedu.py:69-75), including the formatting of the score in the "Total Score" line: the band is modelled as an enumeration instead.
- Scores in a performance record are modelled as reals; Python values of other types that compare with 75 are not modelled.
- Assessment.MatchCount: element equality is Dafny's reflexive, same-type equality. Python's `==` at smartedu.py:65 is not: `nan == nan` is false (so `[nan]` against `[nan]` scores 0 there, not the 100 of `PerfectResponsesMastered`), and `1 == 1.0 == True` holds across types. NaN and cross-type comparison are not modelled.
- Recommendation.RecordOf: the performance table is modelled as a map from student to a map from topic to score. A pandas DataFrame table, where `.get(student_id, {})` returns a column and a missing cell is NaN (and `nan < 75` is false, so that topic is not recommended), is not modelled; the model treats a topic as present or absent, and absent as score 0.
