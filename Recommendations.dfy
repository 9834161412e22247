/**
 * The rule-based job recommendation engine: a match score between a
 * student's skill ids and a job's required skill ids, the filtered and ranked
 * recommendation list, the upsert of stored recommendations, and the skill-gap
 * analysis against a career path.
 */
module Recommendations {
  import opened Wrappers
  import opened Sets
  import Percent
  import Ranking

  /** An active job: its id, the ids of its required skills (as listed, possibly
      with repeats) and its posting time as a timestamp. */
  datatype Job = Job(id: int, requiredSkillIds: seq<int>, postedAt: int)

  /** The triple calculate_match_score returns. */
  datatype MatchScore = MatchScore(score: real, matched: nat, required: nat)

  /** The student holds at least one of the job's required skills. */
  predicate Shares(userSkillIds: seq<int>, jobSkillIds: seq<int>)
  {
    Elems(userSkillIds) * Elems(jobSkillIds) != {}
  }

  /** The share of the job's distinct required skills that the student holds.
      All zero for a job without required skills. */
  function CalculateMatchScore(userSkillIds: seq<int>, jobSkillIds: seq<int>): (r: MatchScore)
    ensures jobSkillIds == [] ==> r == MatchScore(0.0, 0, 0)
    ensures r.required == |Elems(jobSkillIds)|
    ensures r.matched == |Elems(userSkillIds) * Elems(jobSkillIds)|
    ensures r.matched <= r.required && 0.0 <= r.score <= 1.0
    ensures r.score * r.required as real == r.matched as real
    ensures r.score > 0.0 <==> Shares(userSkillIds, jobSkillIds)
  {
    var users := Elems(userSkillIds);
    var jobs := Elems(jobSkillIds);
    SubsetCard(users * jobs, jobs);
    if jobs == {} then MatchScore(0.0, 0, 0)
    else
      MatchScore(Percent.Ratio(|users * jobs|, |jobs|), |users * jobs|, |jobs|)
  }

  /** Only the distinct ids matter: repeating an id in either list does not
      change the score. */
  lemma MatchScoreIgnoresRepeats(u1: seq<int>, u2: seq<int>, j1: seq<int>, j2: seq<int>)
    requires Elems(u1) == Elems(u2) && Elems(j1) == Elems(j2)
    ensures CalculateMatchScore(u1, j1) == CalculateMatchScore(u2, j2)
  {
  }

  /** One entry of the recommendation list. */
  datatype Recommendation = Recommendation(
    job: Job,
    matchScore: real,
    matchPercent: int,
    matchedCount: nat,
    totalRequired: nat,
    missingCount: int,
    missingSkillIds: set<int>)

  /** The entry built for a job the student shares a skill with. */
  function Entry(userSkillIds: seq<int>, job: Job): (r: Recommendation)
    requires Shares(userSkillIds, job.requiredSkillIds)
    ensures r.job == job && r.matchScore > 0.0
    ensures var m := CalculateMatchScore(userSkillIds, job.requiredSkillIds);
            r.matchScore == m.score && r.matchedCount == m.matched && r.totalRequired == m.required
    ensures r.missingSkillIds !! Elems(userSkillIds)
    ensures r.missingSkillIds + Elems(userSkillIds) == Elems(job.requiredSkillIds) + Elems(userSkillIds)
    ensures r.missingCount == |r.missingSkillIds| == r.totalRequired - r.matchedCount
    ensures r.matchPercent == Percent.TruncatedPercent(r.matchedCount, r.totalRequired)
    ensures 0 <= r.matchPercent <= 100
    ensures r.matchPercent == 100 <==> Elems(job.requiredSkillIds) <= Elems(userSkillIds)
  {
    var m := CalculateMatchScore(userSkillIds, job.requiredSkillIds);
    var missing := Elems(job.requiredSkillIds) - Elems(userSkillIds);
    SplitCard(Elems(job.requiredSkillIds), Elems(userSkillIds));
    Percent.RatioPercentIsTruncated(m.matched, m.required);
    SubsetCard(Elems(job.requiredSkillIds) * Elems(userSkillIds), Elems(job.requiredSkillIds));
    assert m.score == m.matched as real / m.required as real;
    Recommendation(job, m.score, Percent.RatioPercent(m.matched, m.required),
                   m.matched, m.required, m.required - m.matched, missing)
  }

  /** The entries kept by the loop over the jobs, in job order. */
  function Kept(userSkillIds: seq<int>, jobs: seq<Job>): seq<Recommendation>
  {
    if jobs == [] then []
    else
      var last := jobs[|jobs| - 1];
      Kept(userSkillIds, jobs[..|jobs| - 1])
        + (if CalculateMatchScore(userSkillIds, last.requiredSkillIds).score > 0.0
           then [Entry(userSkillIds, last)] else [])
  }

  /** A job is kept exactly when the student holds one of its skills, and each
      kept entry is the one built for its job. */
  lemma {:induction false} KeptExactly(userSkillIds: seq<int>, jobs: seq<Job>)
    ensures forall r | r in Kept(userSkillIds, jobs) ::
      r.job in jobs && Shares(userSkillIds, r.job.requiredSkillIds) && r == Entry(userSkillIds, r.job)
    ensures forall j | j in jobs && Shares(userSkillIds, j.requiredSkillIds) ::
      Entry(userSkillIds, j) in Kept(userSkillIds, jobs)
  {
    if jobs != [] {
      var init := jobs[..|jobs| - 1];
      KeptExactly(userSkillIds, init);
      assert jobs == init + [jobs[|jobs| - 1]];
      forall j | j in jobs && Shares(userSkillIds, j.requiredSkillIds)
        ensures Entry(userSkillIds, j) in Kept(userSkillIds, jobs)
      {
        if j != jobs[|jobs| - 1] {
          assert j in init;
        }
      }
    }
  }

  /** Sort key: score descending, then posting time newest first. */
  function RecKey(r: Recommendation): Ranking.Key
  {
    Ranking.Key(r.matchScore, r.job.postedAt)
  }

  /** The kept entries, stably sorted by RecKey, cut to the limit. */
  function Recommend(userSkillIds: seq<int>, jobs: seq<Job>, limit: nat): seq<Recommendation>
  {
    var sorted := Ranking.StableSort(Kept(userSkillIds, jobs), RecKey);
    sorted[..if limit < |sorted| then limit else |sorted|]
  }

  /** One more job of the query: its entry is appended when it is kept. */
  lemma KeptSnoc(userSkillIds: seq<int>, jobs: seq<Job>, i: nat)
    requires i < |jobs|
    ensures Kept(userSkillIds, jobs[..i + 1]) == Kept(userSkillIds, jobs[..i])
      + (if CalculateMatchScore(userSkillIds, jobs[i].requiredSkillIds).score > 0.0
         then [Entry(userSkillIds, jobs[i])] else [])
  {
    assert jobs[..i + 1][..i] == jobs[..i];
  }

  /** get_job_recommendations over the active jobs, in their query order. */
  method GetJobRecommendations(userSkillIds: seq<int>, activeJobs: seq<Job>, limit: nat)
    returns (recs: seq<Recommendation>)
    ensures recs == Recommend(userSkillIds, activeJobs, limit)
  {
    var recommendations: seq<Recommendation> := [];
    for i := 0 to |activeJobs|
      invariant recommendations == Kept(userSkillIds, activeJobs[..i])
    {
      var job := activeJobs[i];
      var m := CalculateMatchScore(userSkillIds, job.requiredSkillIds);
      KeptSnoc(userSkillIds, activeJobs, i);
      if m.score > 0.0 {
        recommendations := recommendations + [Entry(userSkillIds, job)];
      }
    }
    assert activeJobs[..|activeJobs|] == activeJobs;
    var sorted := Ranking.StableSort(recommendations, RecKey);
    recs := sorted[..if limit < |sorted| then limit else |sorted|];
  }

  /** The result holds at most limit entries, is ranked, and holds the best
      kept entries: nothing left out ranks ahead of anything returned. When the
      limit is not reached, it holds every kept entry. Entries with equal keys
      keep their job order. */
  lemma RecommendIsTopRanked(userSkillIds: seq<int>, jobs: seq<Job>, limit: nat, k: Ranking.Key)
    ensures var kept := Kept(userSkillIds, jobs);
            var sorted := Ranking.StableSort(kept, RecKey);
            var recs := Recommend(userSkillIds, jobs, limit);
            && |recs| <= limit
            && Ranking.Ranked(recs, RecKey)
            && recs <= sorted
            && multiset(sorted) == multiset(kept)
            && (forall i, j :: 0 <= i < |recs| <= j < |sorted| ==>
                  !Ranking.Ahead(RecKey(sorted[j]), RecKey(recs[i])))
            && (|kept| <= limit ==> multiset(recs) == multiset(kept))
            && Ranking.WithKey(sorted, RecKey, k) == Ranking.WithKey(kept, RecKey, k)
  {
    var kept := Kept(userSkillIds, jobs);
    var sorted := Ranking.StableSort(kept, RecKey);
    var n := if limit < |sorted| then limit else |sorted|;
    assert Recommend(userSkillIds, jobs, limit) == sorted[..n];
    Ranking.StableSortRanked(kept, RecKey);
    Ranking.RankedPrefix(sorted, RecKey, n);
    Ranking.StableSortStable(kept, RecKey, k);
    if |kept| <= limit {
      assert sorted[..n] == sorted;
    }
  }

  /** A row of the JobRecommendation table, keyed elsewhere by (user, job). */
  datatype StoredRecommendation = StoredRecommendation(
    matchScore: real, matchedCount: nat, totalRequired: nat, recommendedAt: int)

  type Rows = map<(int, int), StoredRecommendation>

  /** update_or_create on (user, job): the score fields come from the entry;
      recommended_at is set on creation only. */
  function Upsert(rows: Rows, user: int, rec: Recommendation, now: int): (r: Rows)
    ensures r.Keys == rows.Keys + {(user, rec.job.id)}
    ensures var row := r[(user, rec.job.id)];
            && row.matchScore == rec.matchScore
            && row.matchedCount == rec.matchedCount
            && row.totalRequired == rec.totalRequired
            && row.recommendedAt == if (user, rec.job.id) in rows then rows[(user, rec.job.id)].recommendedAt else now
    ensures forall key | key in rows && key != (user, rec.job.id) :: r[key] == rows[key]
  {
    var key := (user, rec.job.id);
    var at := if key in rows then rows[key].recommendedAt else now;
    rows[key := StoredRecommendation(rec.matchScore, rec.matchedCount, rec.totalRequired, at)]
  }

  /** The upserts of recs, in order. */
  function UpsertAll(rows: Rows, user: int, recs: seq<Recommendation>, now: int): Rows
  {
    if recs == [] then rows
    else Upsert(UpsertAll(rows, user, recs[..|recs| - 1], now), user, recs[|recs| - 1], now)
  }

  /** The last entry of recs for the given job id. */
  function LastForJob(recs: seq<Recommendation>, jobId: int): (r: Option<Recommendation>)
    ensures r.Some? ==> r.value in recs && r.value.job.id == jobId
    ensures r.None? <==> forall i | 0 <= i < |recs| :: recs[i].job.id != jobId
  {
    if recs == [] then None
    else if recs[|recs| - 1].job.id == jobId then Some(recs[|recs| - 1])
    else LastForJob(recs[..|recs| - 1], jobId)
  }

  /** What the upserts leave under each key: one row per (user, job) of recs,
      scored from the job's last entry and dated when it was first stored;
      every other row untouched. */
  lemma {:induction false} UpsertAllRows(rows: Rows, user: int, recs: seq<Recommendation>, now: int, key: (int, int))
    ensures var after := UpsertAll(rows, user, recs, now);
            var last := LastForJob(recs, key.1);
            && (key in after <==> key in rows || (key.0 == user && last.Some?))
            && (key.0 == user && last.Some? ==>
                  after[key] == StoredRecommendation(
                    last.value.matchScore, last.value.matchedCount, last.value.totalRequired,
                    if key in rows then rows[key].recommendedAt else now))
            && (!(key.0 == user && last.Some?) && key in rows ==> after[key] == rows[key])
  {
    if recs != [] {
      UpsertAllRows(rows, user, recs[..|recs| - 1], now, key);
    }
  }

  /** Running the upserts twice with the same entries gives the same table. */
  lemma UpsertAllIdempotent(rows: Rows, user: int, recs: seq<Recommendation>, now: int, later: int)
    ensures UpsertAll(UpsertAll(rows, user, recs, now), user, recs, later) == UpsertAll(rows, user, recs, now)
  {
    var once := UpsertAll(rows, user, recs, now);
    var twice := UpsertAll(once, user, recs, later);
    forall key | true
      ensures key in twice <==> key in once
      ensures key in twice ==> twice[key] == once[key]
    {
      UpsertAllRows(rows, user, recs, now, key);
      UpsertAllRows(once, user, recs, later, key);
    }
  }

  /** A stored row carries the scores of a recommendation. */
  predicate SameScores(row: StoredRecommendation, rec: Recommendation)
  {
    row.matchScore == rec.matchScore && row.matchedCount == rec.matchedCount
    && row.totalRequired == rec.totalRequired
  }

  /** The JobRecommendation table. */
  class RecommendationStore {
    var rows: Rows

    constructor()
      ensures rows == map[]
    {
      rows := map[];
    }

    /** generate_recommendations_for_user: nothing for a student without
        skills; otherwise the top 50 recommendations are upserted and the
        stored rows returned in recommendation order. */
    method GenerateForUser(user: int, userSkillIds: seq<int>, activeJobs: seq<Job>, now: int)
      returns (stored: seq<StoredRecommendation>)
      modifies this
      ensures userSkillIds == [] ==> stored == [] && rows == old(rows)
      ensures userSkillIds != [] ==>
        var recs := Recommend(userSkillIds, activeJobs, 50);
        && rows == UpsertAll(old(rows), user, recs, now)
        && |stored| == |recs|
        && forall i | 0 <= i < |recs| :: SameScores(stored[i], recs[i])
    {
      if userSkillIds == [] {
        return [];
      }
      var recs := GetJobRecommendations(userSkillIds, activeJobs, 50);
      var table;
      table, stored := StoreAll(rows, user, recs, now);
      rows := table;
    }
  }

  /** The loop of update_or_create calls, one per recommendation in order,
      collecting the stored rows. */
  method StoreAll(rows: Rows, user: int, recs: seq<Recommendation>, now: int)
    returns (table: Rows, stored: seq<StoredRecommendation>)
    ensures table == UpsertAll(rows, user, recs, now)
    ensures |stored| == |recs| && forall i | 0 <= i < |recs| :: SameScores(stored[i], recs[i])
  {
    table := rows;
    stored := [];
    for i := 0 to |recs|
      invariant table == UpsertAll(rows, user, recs[..i], now)
      invariant |stored| == i
      invariant forall j | 0 <= j < i :: SameScores(stored[j], recs[j])
    {
      assert recs[..i + 1][..i] == recs[..i];
      table := Upsert(table, user, recs[i], now);
      var row := table[(user, recs[i].job.id)];
      stored := stored + [row];
    }
    assert recs[..|recs|] == recs;
  }

  /** The result of get_skill_gap_analysis, without the ORM query sets. */
  datatype GapAnalysis = GapAnalysis(
    missingSkillIds: set<int>, completionPercent: int, totalRequired: nat, skillsAcquired: int)

  /** The required skills the student lacks, and how far along the path the
      student is. */
  function SkillGapAnalysis(userSkillIds: set<int>, requiredSkillIds: set<int>): (r: GapAnalysis)
    ensures r.missingSkillIds <= requiredSkillIds && r.missingSkillIds !! userSkillIds
    ensures requiredSkillIds - r.missingSkillIds <= userSkillIds
    ensures r.totalRequired == |requiredSkillIds|
    ensures r.skillsAcquired == |requiredSkillIds * userSkillIds|
    ensures r.skillsAcquired + |r.missingSkillIds| == r.totalRequired
    ensures 0 <= r.completionPercent <= 100
    ensures r.completionPercent == 100 <==> requiredSkillIds <= userSkillIds
  {
    var missing := requiredSkillIds - userSkillIds;
    SplitCard(requiredSkillIds, userSkillIds);
    SubsetCard(requiredSkillIds * userSkillIds, requiredSkillIds);
    var acquired := |requiredSkillIds| - |missing|;
    var percent :=
      if requiredSkillIds != {} then
        Percent.RatioPercentIsTruncated(acquired, |requiredSkillIds|);
        Percent.RatioPercent(acquired, |requiredSkillIds|)
      else 100;
    GapAnalysis(missing, percent, |requiredSkillIds|, acquired)
  }
}
