/** Ranking of a batch of scored resumes (the `useEffect` of ResultsDashboard.jsx):
    candidates with a positive skill match come first, sorted by total score from
    high to low with ties kept in input order; the zero-match candidates follow
    in input order. */
module Ranking {
  import opened Scoring
  import opened StableSort

  // ---------------------------------------------------------------------------
  // The two partitions

  /** `allScored.filter(res => res.skillMatchScore > 0)` */
  function Positives(s: seq<ScoredResume>): (r: seq<ScoredResume>)
    ensures Subsequence(r, s)
    ensures forall x :: x in r <==> x in s && x.skillMatchScore > 0
  {
    if s == [] then []
    else
      var rest := Positives(s[1..]);
      if s[0].skillMatchScore > 0 then
        assert ([s[0]] + rest)[1..] == rest;
        [s[0]] + rest
      else rest
  }

  /** `allScored.filter(res => res.skillMatchScore === 0)` */
  function Zeros(s: seq<ScoredResume>): (r: seq<ScoredResume>)
    ensures Subsequence(r, s)
    ensures forall x :: x in r <==> x in s && x.skillMatchScore == 0
  {
    if s == [] then []
    else
      var rest := Zeros(s[1..]);
      if s[0].skillMatchScore == 0 then
        assert ([s[0]] + rest)[1..] == rest;
        [s[0]] + rest
      else rest
  }

  /** Each positive-match candidate is kept as many times as it occurs. */
  lemma {:induction false} PositivesCount(s: seq<ScoredResume>, x: ScoredResume)
    ensures multiset(Positives(s))[x] == if x.skillMatchScore > 0 then multiset(s)[x] else 0
  {
    if s != [] {
      PositivesCount(s[1..], x);
      assert s == [s[0]] + s[1..];
    }
  }

  /** Each zero-match candidate is kept as many times as it occurs. */
  lemma {:induction false} ZerosCount(s: seq<ScoredResume>, x: ScoredResume)
    ensures multiset(Zeros(s))[x] == if x.skillMatchScore == 0 then multiset(s)[x] else 0
  {
    if s != [] {
      ZerosCount(s[1..], x);
      assert s == [s[0]] + s[1..];
    }
  }

  /** Every candidate lands in exactly one partition: no score is dropped,
      since a skill score is never negative. */
  lemma PartitionIsPermutation(s: seq<ScoredResume>)
    ensures multiset(Positives(s)) + multiset(Zeros(s)) == multiset(s)
  {
    forall x ensures (multiset(Positives(s)) + multiset(Zeros(s)))[x] == multiset(s)[x] {
      PositivesCount(s, x);
      ZerosCount(s, x);
    }
  }

  /** The sort key: `(a, b) => b.totalScore - a.totalScore` orders by
      descending total score. */
  function TotalScoreOf(r: ScoredResume): int {
    r.totalScore
  }

  /** The order the results page shows. */
  function Ranked(allScored: seq<ScoredResume>): (r: seq<ScoredResume>)
    ensures |r| == |allScored|
  {
    PartitionIsPermutation(allScored);
    var p, z := Positives(allScored), Zeros(allScored);
    assert multiset(p + z) == multiset(allScored);
    assert |p + z| == |multiset(p + z)| == |multiset(allScored)|;
    SortDesc(Positives(allScored), TotalScoreOf) + Zeros(allScored)
  }

  /** The ranking: `[...validSkillMatches, ...zeroSkillMatches]` with the first
      part sorted in place. */
  method Rank(allScored: seq<ScoredResume>) returns (finalResults: seq<ScoredResume>)
    ensures finalResults == Ranked(allScored)
  {
    var validSkillMatches := Positives(allScored);
    var zeroSkillMatches := Zeros(allScored);
    var a := new ScoredResume[|validSkillMatches|](i requires 0 <= i < |validSkillMatches| => validSkillMatches[i]);
    assert a[..] == validSkillMatches;
    SortInPlace(a, TotalScoreOf);
    finalResults := a[..] + zeroSkillMatches;
  }

  /** Ranking loses and adds no candidate. */
  lemma RankedIsPermutation(allScored: seq<ScoredResume>)
    ensures multiset(Ranked(allScored)) == multiset(allScored)
  {
    PartitionIsPermutation(allScored);
    SortDescPermutation(Positives(allScored), TotalScoreOf);
  }

  /** Every candidate with a positive skill match comes before every candidate
      with none: position `k` holds a positive match exactly when it lies in
      the first `|Positives(allScored)|` places. */
  lemma RankedPositivesFirst(allScored: seq<ScoredResume>, k: int)
    requires 0 <= k < |Ranked(allScored)|
    ensures Ranked(allScored)[k].skillMatchScore > 0 <==> k < |Positives(allScored)|
  {
    var p := SortDesc(Positives(allScored), TotalScoreOf);
    var r := Ranked(allScored);
    if k < |p| {
      SortDescPermutation(Positives(allScored), TotalScoreOf);
      assert r[k] == p[k] && p[k] in multiset(p);
      assert r[k] in Positives(allScored);
    } else {
      assert r[k] == Zeros(allScored)[k - |p|];
      assert r[k] in Zeros(allScored);
    }
  }

  /** The positive part is in descending order of total score, candidates
      with equal totals keep their input order, and the zero part is the
      zero-match candidates in input order. */
  lemma RankedOrder(allScored: seq<ScoredResume>, t: int)
    ensures |Ranked(allScored)| >= |Positives(allScored)|
    ensures SortedDesc(Ranked(allScored)[..|Positives(allScored)|], TotalScoreOf)
    ensures Group(Ranked(allScored)[..|Positives(allScored)|], TotalScoreOf, t) == Group(Positives(allScored), TotalScoreOf, t)
    ensures Ranked(allScored)[|Positives(allScored)|..] == Zeros(allScored)
  {
    var p := SortDesc(Positives(allScored), TotalScoreOf);
    assert Ranked(allScored)[..|p|] == p;
    assert Ranked(allScored)[|p|..] == Zeros(allScored);
    SortDescSorted(Positives(allScored), TotalScoreOf);
    SortDescStable(Positives(allScored), TotalScoreOf, t);
  }

  /** The ranking is the only order with the positive matches first, sorted
      by descending total with ties in input order, then the zero matches in
      input order: whatever stable sort the engine uses gives this result. */
  lemma RankedUnique(allScored: seq<ScoredResume>, sorted: seq<ScoredResume>)
    requires SortedDesc(sorted, TotalScoreOf)
    requires forall t :: Group(sorted, TotalScoreOf, t) == Group(Positives(allScored), TotalScoreOf, t)
    ensures sorted + Zeros(allScored) == Ranked(allScored)
  {
    SortDescUnique(Positives(allScored), sorted, TotalScoreOf);
  }

  /** `bulkResults.map(... => scoreResume(resumeText, selectedJob, yearsOfExperience))` */
  function ScoreAll(bulkResults: seq<BulkEntry>): (r: seq<ScoredResume>)
    requires forall k :: 0 <= k < |bulkResults| ==> |bulkResults[k].selectedJob.skills| > 0
    ensures |r| == |bulkResults|
    ensures forall k :: 0 <= k < |r| ==>
              r[k] == ScoreResume(bulkResults[k].resumeText, bulkResults[k].selectedJob, bulkResults[k].yearsOfExperience)
  {
    seq(|bulkResults|, k requires 0 <= k < |bulkResults| =>
      ScoreResume(bulkResults[k].resumeText, bulkResults[k].selectedJob, bulkResults[k].yearsOfExperience))
  }

  /** The results page: score every entry of the batch, then rank. */
  method ScoreAndRank(bulkResults: seq<BulkEntry>) returns (finalResults: seq<ScoredResume>)
    requires forall k :: 0 <= k < |bulkResults| ==> |bulkResults[k].selectedJob.skills| > 0
    ensures finalResults == Ranked(ScoreAll(bulkResults))
    ensures |finalResults| == |bulkResults|
  {
    var allScored := ScoreAll(bulkResults);
    finalResults := Rank(allScored);
    RankedIsPermutation(allScored);
    assert |multiset(finalResults)| == |multiset(allScored)|;
  }
}
