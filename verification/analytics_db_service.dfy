/**
 * The in-memory analytics store of src/services/AnalyticsDbService.ts: one
 * list of normalized records, saved by insert-or-merge on `id`, read back by
 * first match on `id` or by filters that keep store order, and summarized
 * by the statistics and leaderboards of the Aggregation module.
 */
module AnalyticsDb {
  import opened JsValues
  import opened XApiService
  import opened Aggregation

  // ================================================================ records

  /** No two records share an `id`. */
  ghost predicate UniqueIds(records: seq<GameAnalytics>) {
    forall i, j | 0 <= i < j < |records| :: records[i].id != records[j].id
  }

  /** `records.findIndex(a => a.id === id)`: the first match, or -1. */
  function FindIndex(records: seq<GameAnalytics>, id: string): (i: int)
    ensures -1 <= i < |records|
    ensures i >= 0 ==> records[i].id == id && forall j | 0 <= j < i :: records[j].id != id
    ensures i < 0 ==> forall j | 0 <= j < |records| :: records[j].id != id
  {
    if |records| == 0 then -1
    else if records[0].id == id then 0
    else
      var k := FindIndex(records[1..], id);
      if k < 0 then -1 else k + 1
  }

  /** The first record with the id is the one `findIndex` returns. */
  lemma FindIndexAt(records: seq<GameAnalytics>, id: string, i: int)
    requires 0 <= i < |records| && records[i].id == id
    requires forall j | 0 <= j < i :: records[j].id != id
    ensures FindIndex(records, id) == i
  {
  }

  /**
   * `{...older, ...newer, updatedAt}`: every property comes from `newer`
   * except the optional ones `newer` lacks altogether, which keep `older`'s,
   * and `updatedAt`, which is the save time.
   */
  function Merge(older: GameAnalytics, newer: GameAnalytics, updatedAt: int): (r: GameAnalytics)
    ensures r.id == newer.id && r.createdAt == newer.createdAt && r.updatedAt == updatedAt
  {
    GameAnalytics(
      newer.id, newer.userId, newer.userName, newer.gameId, newer.gameName,
      newer.schoolId.Over(older.schoolId), newer.schoolName.Over(older.schoolName),
      newer.gradeLevel.Over(older.gradeLevel), newer.subject.Over(older.subject),
      newer.startTime, newer.endTime.Over(older.endTime), newer.totalTimeSpent.Over(older.totalTimeSpent),
      newer.score.Over(older.score), newer.maxScore.Over(older.maxScore),
      newer.percentageScore.Over(older.percentageScore), newer.completed.Over(older.completed),
      newer.progress.Over(older.progress), newer.passed.Over(older.passed),
      newer.interactions.Over(older.interactions),
      newer.createdAt, updatedAt)
  }

  /** `merged` holds `newer`'s property unless `newer` lacks it, and then `older`'s. */
  predicate Layered<T(==)>(merged: Prop<T>, older: Prop<T>, newer: Prop<T>) {
    if newer.Absent? then merged == older else merged == newer
  }

  /**
   * What a merge keeps: the required properties and `createdAt` of the
   * newer record, every optional property the newer record has (even one
   * holding `undefined`), the older value of every one it lacks, and the
   * save time as `updatedAt`.
   */
  lemma MergeLayers(older: GameAnalytics, newer: GameAnalytics, updatedAt: int)
    ensures var m := Merge(older, newer, updatedAt);
      && m.id == newer.id && m.userId == newer.userId && m.userName == newer.userName
      && m.gameId == newer.gameId && m.gameName == newer.gameName && m.startTime == newer.startTime
      && m.createdAt == newer.createdAt && m.updatedAt == updatedAt
      && Layered(m.schoolId, older.schoolId, newer.schoolId)
      && Layered(m.schoolName, older.schoolName, newer.schoolName)
      && Layered(m.gradeLevel, older.gradeLevel, newer.gradeLevel)
      && Layered(m.subject, older.subject, newer.subject)
      && Layered(m.endTime, older.endTime, newer.endTime)
      && Layered(m.totalTimeSpent, older.totalTimeSpent, newer.totalTimeSpent)
      && Layered(m.score, older.score, newer.score)
      && Layered(m.maxScore, older.maxScore, newer.maxScore)
      && Layered(m.percentageScore, older.percentageScore, newer.percentageScore)
      && Layered(m.completed, older.completed, newer.completed)
      && Layered(m.progress, older.progress, newer.progress)
      && Layered(m.passed, older.passed, newer.passed)
      && Layered(m.interactions, older.interactions, newer.interactions)
  {
  }

  /** Saving the same record twice gives what saving it once gives (at the later time). */
  lemma MergeIdempotent(older: GameAnalytics, newer: GameAnalytics, t1: int, t2: int)
    ensures Merge(Merge(older, newer, t1), newer, t2) == Merge(older, newer, t2)
  {
  }

  /** A record whose optional properties are all present replaces the stored one outright. */
  lemma MergeOfComplete(older: GameAnalytics, newer: GameAnalytics, updatedAt: int)
    requires !newer.schoolId.Absent? && !newer.schoolName.Absent? && !newer.gradeLevel.Absent?
    requires !newer.subject.Absent? && !newer.endTime.Absent? && !newer.totalTimeSpent.Absent?
    requires !newer.score.Absent? && !newer.maxScore.Absent? && !newer.percentageScore.Absent?
    requires !newer.completed.Absent? && !newer.progress.Absent? && !newer.passed.Absent?
    requires !newer.interactions.Absent?
    ensures Merge(older, newer, updatedAt) == newer.(updatedAt := updatedAt)
  {
  }

  // ================================================================ filters

  /** `records.filter(keep)`: the records that pass, in store order. */
  function Filter(records: seq<GameAnalytics>, keep: GameAnalytics -> bool): (r: seq<GameAnalytics>)
    ensures |r| <= |records|
    ensures forall a :: a in r <==> a in records && keep(a)
    ensures |r| == 0 <==> forall a | a in records :: !keep(a)
  {
    if |records| == 0 then []
    else
      var last := records[|records| - 1];
      Filter(records[..|records| - 1], keep) + (if keep(last) then [last] else [])
  }

  /** Filtering keeps store order: it distributes over concatenation. */
  lemma {:induction false} FilterAppend(s: seq<GameAnalytics>, t: seq<GameAnalytics>, keep: GameAnalytics -> bool)
    ensures Filter(s + t, keep) == Filter(s, keep) + Filter(t, keep)
    decreases |t|
  {
    if |t| > 0 {
      var t' := t[..|t| - 1];
      var last := t[|t| - 1];
      assert (s + t)[..|s + t| - 1] == s + t';
      assert (s + t)[|s + t| - 1] == last;
      FilterAppend(s, t', keep);
      assert Filter(s + t, keep) == Filter(s + t', keep) + (if keep(last) then [last] else []);
      assert Filter(t, keep) == Filter(t', keep) + (if keep(last) then [last] else []);
    } else {
      assert s + t == s;
    }
  }

  /** A one-record store answers a query with that record exactly when it passes. */
  lemma SingleRecordFilter(record: GameAnalytics, keep: GameAnalytics -> bool)
    ensures Filter([record], keep) == if keep(record) then [record] else []
  {
    assert [record][..0] == [];
  }

  /** Filtering twice by the same test changes nothing. */
  lemma {:induction false} FilterIdempotent(records: seq<GameAnalytics>, keep: GameAnalytics -> bool)
    ensures Filter(Filter(records, keep), keep) == Filter(records, keep)
  {
    if |records| > 0 {
      var init := records[..|records| - 1];
      var last := records[|records| - 1];
      FilterIdempotent(init, keep);
      FilterAppend(Filter(init, keep), if keep(last) then [last] else [], keep);
      if keep(last) {
        assert [last][..0] == [];
      }
    }
  }

  // ================================================================ the store

  class AnalyticsDbService {
    /** `private analytics: GameAnalytics[]`, in insertion order. */
    var analytics: seq<GameAnalytics>

    /** Saving inserts only ids not yet stored, so ids stay unique. */
    ghost predicate Valid()
      reads this
    {
      UniqueIds(analytics)
    }

    constructor()
      ensures analytics == [] && Valid()
    {
      analytics := [];
    }

    /**
     * `saveAnalytics`: a record with a new id is appended and returned as
     * given; one whose id is stored replaces that record with the merge of
     * the two, stamped with the save time, and the merge is returned. Either
     * way the saved record is what a lookup of its id now finds.
     */
    method SaveAnalytics(record: GameAnalytics, now: int) returns (saved: GameAnalytics)
      requires Valid()
      modifies this
      ensures Valid()
      ensures var i := FindIndex(old(analytics), record.id);
        && (i < 0 ==> analytics == old(analytics) + [record] && saved == record)
        && (i >= 0 ==> saved == Merge(old(analytics)[i], record, now) && analytics == old(analytics)[i := saved])
      ensures GetAnalyticsById(record.id) == Some(saved)
    {
      var existingIndex := FindIndex(analytics, record.id);
      if existingIndex >= 0 {
        saved := Merge(analytics[existingIndex], record, now);
        analytics := analytics[existingIndex := saved];
        FindIndexAt(analytics, record.id, existingIndex);
      } else {
        analytics := analytics + [record];
        saved := record;
        FindIndexAt(analytics, record.id, |analytics| - 1);
      }
    }

    /** `getAnalyticsById`: the record with that id, or null when there is none. */
    function GetAnalyticsById(id: string): (found: Option<GameAnalytics>)
      reads this
      ensures found.Some? ==> found.value in analytics && found.value.id == id
      ensures found.None? <==> forall a | a in analytics :: a.id != id
      ensures Valid() && found.Some? ==> forall a | a in analytics && a.id == id :: a == found.value
    {
      var i := FindIndex(analytics, id);
      if i < 0 then None else Some(analytics[i])
    }

    // The `getAnalyticsBy*` queries below state membership in their ensures.
    // Their order (store order) and multiplicity (each stored record at most
    // once) come from `Filter`'s definition, and `FilterAppend` splits them
    // over an appended store.

    /** `getAnalyticsByUser`: the records of that user, in store order. */
    function GetAnalyticsByUser(userId: string): (r: seq<GameAnalytics>)
      reads this
      ensures forall a :: a in r <==> a in analytics && a.userId == userId
    {
      Filter(analytics, (a: GameAnalytics) => a.userId == userId)
    }

    /** `getAnalyticsByGame`: the records of that game, in store order. */
    function GetAnalyticsByGame(gameId: string): (r: seq<GameAnalytics>)
      reads this
      ensures forall a :: a in r <==> a in analytics && a.gameId == gameId
    {
      Filter(analytics, (a: GameAnalytics) => a.gameId == gameId)
    }

    /** `getAnalyticsBySchool`: the records whose school id is set to `schoolId`. */
    function GetAnalyticsBySchool(schoolId: string): (r: seq<GameAnalytics>)
      reads this
      ensures forall a :: a in r <==> a in analytics && a.schoolId == Defined(schoolId)
    {
      Filter(analytics, (a: GameAnalytics) => a.schoolId == Defined(schoolId))
    }

    /** `getAnalyticsByGrade`: the records whose grade level is set to `gradeLevel`. */
    function GetAnalyticsByGrade(gradeLevel: string): (r: seq<GameAnalytics>)
      reads this
      ensures forall a :: a in r <==> a in analytics && a.gradeLevel == Defined(gradeLevel)
    {
      Filter(analytics, (a: GameAnalytics) => a.gradeLevel == Defined(gradeLevel))
    }

    /** `getAnalyticsBySubject`: the records whose subject is set to `subject`. */
    function GetAnalyticsBySubject(subject: string): (r: seq<GameAnalytics>)
      reads this
      ensures forall a :: a in r <==> a in analytics && a.subject == Defined(subject)
    {
      Filter(analytics, (a: GameAnalytics) => a.subject == Defined(subject))
    }

    /**
     * `getAnalyticsByDateRange`: the records created within both bounds,
     * inclusive. A bound that does not parse as a date (None) is NaN, and no
     * comparison with NaN holds, so it selects nothing.
     */
    function GetAnalyticsByDateRange(start: Option<int>, end: Option<int>): (r: seq<GameAnalytics>)
      reads this
      ensures forall a :: a in r <==> a in analytics && start.Some? && end.Some? && start.value <= a.createdAt <= end.value
      ensures start.None? || end.None? ==> r == []
    {
      Filter(analytics, (a: GameAnalytics) => start.Some? && end.Some? && start.value <= a.createdAt <= end.value)
    }

    /** `getAggregateStats` over the stored records. */
    function GetAggregateStats(): (stats: AggregateStats)
      reads this
      ensures stats.totalSessions == |analytics|
      ensures analytics == [] ==> stats.averageTimeSpent == "00:00:00"
      ensures 0.0 <= stats.completionRate <= 100.0 && 0.0 <= stats.passRate <= 100.0
    {
      AggregateStatsOf(analytics)
    }

    /**
     * `getUserRankings`: one pass over the store builds the per-user map,
     * then the averages are sorted and cut to `limit`.
     */
    method GetUserRankings(limit: int) returns (rankings: seq<UserRanking>)
      ensures rankings == UserRankingsOf(analytics, limit)
      ensures SortedDesc(rankings, UserScore)
      ensures forall i | 0 <= i < |rankings| :: UserEntryAgrees(analytics, rankings[i])
      ensures limit >= 0 ==> |rankings| <= limit
    {
      var userMap: map<string, Tally> := map[];
      var users: seq<string> := [];
      for i := 0 to |analytics|
        invariant Table(userMap, users) == TableOf(analytics[..i], ByUser)
      {
        var a := analytics[i];
        assert analytics[..i + 1][..i] == analytics[..i];
        if TruthyNumber(a.percentageScore.Get()) {
          if a.userId !in userMap {
            userMap := userMap[a.userId := Tally(a.userId, a.userName, [], {}, 0)];
            users := users + [a.userId];
          }
          var user := userMap[a.userId];
          userMap := userMap[a.userId := user.(scores := user.scores + [a.percentageScore.value],
                                               sessions := user.sessions + 1)];
        }
      }
      assert analytics[..|analytics|] == analytics;
      TableKeys(analytics, ByUser);
      var sorted := SortDesc(UserEntries(Table(userMap, users)), UserScore);
      rankings := sorted[..SliceEnd(|sorted|, limit)];
      UserRankingsCorrect(analytics, limit);
    }

    /**
     * `getSchoolRankings`: one pass over the store builds the per-school
     * map, then the averages are sorted and cut to `limit`.
     */
    method GetSchoolRankings(limit: int) returns (rankings: seq<SchoolRanking>)
      ensures rankings == SchoolRankingsOf(analytics, limit)
      ensures SortedDesc(rankings, SchoolScore)
      ensures forall i | 0 <= i < |rankings| :: SchoolEntryAgrees(analytics, rankings[i])
      ensures limit >= 0 ==> |rankings| <= limit
    {
      var schoolMap: map<string, Tally> := map[];
      var schools: seq<string> := [];
      for i := 0 to |analytics|
        invariant Table(schoolMap, schools) == TableOf(analytics[..i], BySchool)
      {
        var a := analytics[i];
        assert analytics[..i + 1][..i] == analytics[..i];
        if TruthyString(a.schoolId.Get()) && TruthyNumber(a.percentageScore.Get()) {
          var id := a.schoolId.value;
          if id !in schoolMap {
            schoolMap := schoolMap[id := Tally(id, OrElse(a.schoolName.Get(), "Unknown School"), [], {}, 0)];
            schools := schools + [id];
          }
          var school := schoolMap[id];
          schoolMap := schoolMap[id := school.(scores := school.scores + [a.percentageScore.value],
                                               users := school.users + {a.userId},
                                               sessions := school.sessions + 1)];
        }
      }
      assert analytics[..|analytics|] == analytics;
      TableKeys(analytics, BySchool);
      var sorted := SortDesc(SchoolEntries(Table(schoolMap, schools)), SchoolScore);
      rankings := sorted[..SliceEnd(|sorted|, limit)];
      SchoolRankingsCorrect(analytics, limit);
    }
  }

  /** A record appended to the store joins the end of every filter that accepts it. */
  lemma SavedRecordJoinsFilter(records: seq<GameAnalytics>, record: GameAnalytics, keep: GameAnalytics -> bool)
    ensures Filter(records + [record], keep) == Filter(records, keep) + (if keep(record) then [record] else [])
  {
    assert (records + [record])[..|records|] == records;
  }
}
