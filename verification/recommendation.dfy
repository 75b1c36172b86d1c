/**
 Personalized learning path: which topics of the fixed catalog a student
 should revisit, given that student's per-topic performance record.

 A topic is recommended when its recorded score is strictly below the mastery
 threshold of 75; a topic the record does not mention counts as score 0, and a
 student the performance table does not mention has an empty record. The
 recommendation keeps the catalog's order.
 */
module Recommendation {

  type Topic = string

  /** Per-topic scores of one student; scores are exact reals. */
  type PerformanceRecord = map<Topic, real>

  /** The fixed, ordered topic catalog. */
  const Catalog: seq<Topic> := ["Algebra", "History", "Biology", "Chemistry", "Physics", "English"]

  /** A topic scoring strictly below this value needs more work. */
  const MasteryThreshold: real := 75.0

  /** The recorded score of `topic`, or 0 when the record does not mention it. */
  function ScoreOf(record: PerformanceRecord, topic: Topic): real {
    if topic in record then record[topic] else 0.0
  }

  /** The record of `student`, or the empty record when the table does not mention them. */
  function RecordOf<Id>(performance: map<Id, PerformanceRecord>, student: Id): PerformanceRecord {
    if student in performance then performance[student] else map[]
  }

  predicate NeedsWork(record: PerformanceRecord, topic: Topic) {
    ScoreOf(record, topic) < MasteryThreshold
  }

  predicate Distinct<T(==)>(s: seq<T>) {
    forall i, j :: 0 <= i < j < |s| ==> s[i] != s[j]
  }

  /** `sub` is `s` restricted to the strictly increasing `positions`. */
  ghost predicate SubsequenceAt<T>(sub: seq<T>, s: seq<T>, positions: seq<nat>) {
    && |positions| == |sub|
    && (forall k :: 0 <= k < |positions| ==> positions[k] < |s| && s[positions[k]] == sub[k])
    && (forall k, l :: 0 <= k < l < |positions| ==> positions[k] < positions[l])
  }

  /** `sub` is obtained from `s` by deleting elements, keeping the order of the rest. */
  ghost predicate IsSubsequence<T>(sub: seq<T>, s: seq<T>) {
    exists positions :: SubsequenceAt(sub, s, positions)
  }

  /** The topics of `topics` that need work under `record`, in their original order. */
  function Recommend(record: PerformanceRecord, topics: seq<Topic>): (r: seq<Topic>)
    ensures |r| <= |topics|
    ensures forall t :: t in r <==> t in topics && NeedsWork(record, t)
  {
    if |topics| == 0 then []
    else
      var init, last := topics[..|topics| - 1], topics[|topics| - 1];
      assert topics == init + [last];
      var kept := Recommend(record, init);
      if NeedsWork(record, last) then kept + [last] else kept
  }

  /**
   The positions of `topics` that `Recommend` keeps: they pick out exactly the
   result, in increasing order, and a position is among them exactly when its
   topic needs work.
   */
  function KeptPositions(record: PerformanceRecord, topics: seq<Topic>): (positions: seq<nat>)
    ensures SubsequenceAt(Recommend(record, topics), topics, positions)
    ensures forall j :: 0 <= j < |topics| ==> (j in positions <==> NeedsWork(record, topics[j]))
  {
    if |topics| == 0 then []
    else
      var n := |topics| - 1;
      var kept := KeptPositions(record, topics[..n]);
      var positions := if NeedsWork(record, topics[n]) then kept + [n] else kept;
      ExtendPositions(record, topics, kept, positions);
      positions
  }

  /** One step of `KeptPositions`: the positions kept in all but the last topic extend to the whole list. */
  lemma ExtendPositions(record: PerformanceRecord, topics: seq<Topic>, kept: seq<nat>, positions: seq<nat>)
    requires |topics| > 0
    requires SubsequenceAt(Recommend(record, topics[..|topics| - 1]), topics[..|topics| - 1], kept)
    requires forall j :: 0 <= j < |topics| - 1 ==> (j in kept <==> NeedsWork(record, topics[j]))
    requires positions == if NeedsWork(record, topics[|topics| - 1]) then kept + [|topics| - 1] else kept
    ensures SubsequenceAt(Recommend(record, topics), topics, positions)
    ensures forall j :: 0 <= j < |topics| ==> (j in positions <==> NeedsWork(record, topics[j]))
  {
    var n := |topics| - 1;
    ExtendSubsequence(record, topics, kept, positions);
    assert forall k :: 0 <= k < |kept| ==> kept[k] < n;
    ExtendMembership(record, topics, kept, positions);
  }

  lemma ExtendMembership(record: PerformanceRecord, topics: seq<Topic>, kept: seq<nat>, positions: seq<nat>)
    requires |topics| > 0
    requires forall k :: 0 <= k < |kept| ==> kept[k] < |topics| - 1
    requires forall j :: 0 <= j < |topics| - 1 ==> (j in kept <==> NeedsWork(record, topics[j]))
    requires positions == if NeedsWork(record, topics[|topics| - 1]) then kept + [|topics| - 1] else kept
    ensures forall j :: 0 <= j < |topics| ==> (j in positions <==> NeedsWork(record, topics[j]))
  {
    var n := |topics| - 1;
    forall j | 0 <= j < |topics|
      ensures j in positions <==> NeedsWork(record, topics[j])
    {
      if j < n {
        assert j in positions <==> j in kept;
      } else {
        assert n !in kept;
      }
    }
  }

  lemma ExtendSubsequence(record: PerformanceRecord, topics: seq<Topic>, kept: seq<nat>, positions: seq<nat>)
    requires |topics| > 0
    requires SubsequenceAt(Recommend(record, topics[..|topics| - 1]), topics[..|topics| - 1], kept)
    requires positions == if NeedsWork(record, topics[|topics| - 1]) then kept + [|topics| - 1] else kept
    ensures SubsequenceAt(Recommend(record, topics), topics, positions)
  {
    var n := |topics| - 1;
    var init := topics[..n];
    var r := Recommend(record, topics);
    if NeedsWork(record, topics[n]) {
      assert r == Recommend(record, init) + [topics[n]];
    } else {
      assert r == Recommend(record, init);
    }
    forall k | 0 <= k < |positions|
      ensures positions[k] < |topics| && topics[positions[k]] == r[k]
    {
      if k < |kept| {
        assert positions[k] == kept[k] && topics[kept[k]] == init[kept[k]];
      }
    }
    forall k, l | 0 <= k < l < |positions|
      ensures positions[k] < positions[l]
    {
      if l == |kept| {
        assert kept[k] < |init|;
      }
    }
  }

  /** Keeping elements at increasing positions of a duplicate-free sequence yields no duplicates. */
  lemma SubsequenceOfDistinct<T>(sub: seq<T>, s: seq<T>, positions: seq<nat>)
    requires SubsequenceAt(sub, s, positions)
    requires Distinct(s)
    ensures Distinct(sub)
  {
    forall i, j | 0 <= i < j < |sub|
      ensures sub[i] != sub[j]
    {
      assert positions[i] < positions[j];
      assert sub[i] == s[positions[i]] && sub[j] == s[positions[j]];
    }
  }

  /** The recommendation is an order-preserving subsequence of the topics it filters. */
  lemma RecommendIsSubsequence(record: PerformanceRecord, topics: seq<Topic>)
    ensures IsSubsequence(Recommend(record, topics), topics)
  {
    var positions := KeptPositions(record, topics);
  }

  /** Filtering a duplicate-free topic list yields a duplicate-free recommendation. */
  lemma RecommendKeepsDistinct(record: PerformanceRecord, topics: seq<Topic>)
    requires Distinct(topics)
    ensures Distinct(Recommend(record, topics))
  {
    SubsequenceOfDistinct(Recommend(record, topics), topics, KeptPositions(record, topics));
  }

  /** Every topic is returned, in order, exactly when every topic needs work. */
  lemma {:induction false} RecommendAllIff(record: PerformanceRecord, topics: seq<Topic>)
    ensures Recommend(record, topics) == topics <==> forall t :: t in topics ==> NeedsWork(record, t)
  {
    if |topics| > 0 && forall t :: t in topics ==> NeedsWork(record, t) {
      var init, last := topics[..|topics| - 1], topics[|topics| - 1];
      assert topics == init + [last];
      assert forall t :: t in init ==> NeedsWork(record, t);
      RecommendAllIff(record, init);
      assert NeedsWork(record, last);
      assert Recommend(record, topics) == Recommend(record, init) + [last];
    }
  }

  /** An empty record recommends every topic, in order. */
  lemma EmptyRecordRecommendsAll(topics: seq<Topic>)
    ensures Recommend(map[], topics) == topics
  {
    RecommendAllIff(map[], topics);
  }

  /** Nothing is recommended exactly when no topic needs work. */
  lemma RecommendNoneIff(record: PerformanceRecord, topics: seq<Topic>)
    ensures Recommend(record, topics) == [] <==> forall t :: t in topics ==> !NeedsWork(record, t)
  {
    var r := Recommend(record, topics);
    if r != [] {
      assert r[0] in r;
    }
  }

  /** The list comprehension: walks the topics in order, appending each one that needs work. */
  method CollectRecommended(record: PerformanceRecord, topics: seq<Topic>) returns (r: seq<Topic>)
    ensures r == Recommend(record, topics)
  {
    r := [];
    for i := 0 to |topics|
      invariant r == Recommend(record, topics[..i])
    {
      assert topics[..i + 1][..i] == topics[..i];
      if NeedsWork(record, topics[i]) {
        r := r + [topics[i]];
      }
    }
    assert topics[..|topics|] == topics;
  }

  /** The catalog topics are pairwise different: their initial letters already differ. */
  lemma CatalogDistinct()
    ensures Distinct(Catalog)
  {
    forall i, j | 0 <= i < j < |Catalog|
      ensures Catalog[i] != Catalog[j]
    {
      assert Catalog[i][0] != Catalog[j][0];
    }
  }

  /**
   The learning path of `student`: the catalog topics whose score in the
   student's record is below the threshold, in catalog order, without
   duplicates; an unknown student gets the whole catalog.
   */
  function PersonalizedPath<Id>(performance: map<Id, PerformanceRecord>, student: Id): (path: seq<Topic>)
    ensures forall t :: t in path <==> t in Catalog && ScoreOf(RecordOf(performance, student), t) < MasteryThreshold
    ensures IsSubsequence(path, Catalog)
    ensures Distinct(path)
    ensures student !in performance ==> path == Catalog
  {
    var record := RecordOf(performance, student);
    RecommendIsSubsequence(record, Catalog);
    CatalogDistinct();
    RecommendKeepsDistinct(record, Catalog);
    EmptyRecordRecommendsAll(Catalog);
    Recommend(record, Catalog)
  }
}
