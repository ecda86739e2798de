/**
 * The ingestion facade of src/api/analyticsApi.ts: it normalizes incoming
 * xAPI statements and SCORM blocks, saves them into the one shared store,
 * and hands queries and leaderboards to that store.
 */
module Api {
  import opened JsValues
  import opened XApiService
  import opened Aggregation
  import opened AnalyticsDb

  /** The module's shared state: the one `dbService` every function uses. */
  class AnalyticsApi {
    const db: AnalyticsDbService

    constructor()
      ensures fresh(db) && db.analytics == [] && db.Valid()
    {
      db := new AnalyticsDbService();
    }

    /**
     * `processXAPIStatement`: normalize the statement (filling in a missing
     * id or timestamp), save the record, and return what the store returns
     * - the record itself for a new id, or its merge with the stored one.
     * The store then finds the returned record under the statement's id.
     */
    method ProcessXAPIStatement(statement: Statement, freshId: string, now: Instant)
      returns (saved: GameAnalytics, filled: Statement)
      requires db.Valid()
      modifies db
      ensures db.Valid()
      ensures filled == statement.(id := filled.id, timestamp := filled.timestamp)
      ensures filled.id == Some(if TruthyString(statement.id) then statement.id.value else freshId)
      ensures var record := XAPIRecord(filled, freshId, now);
        var i := FindIndex(old(db.analytics), record.id);
        && (i < 0 ==> db.analytics == old(db.analytics) + [record] && saved == record)
        && (i >= 0 ==> db.analytics == old(db.analytics)[i := saved] && saved == Merge(old(db.analytics)[i], record, now.millis))
      ensures saved.id == filled.id.value
      ensures db.GetAnalyticsById(filled.id.value) == Some(saved)
    {
      var analytics;
      filled, analytics := XApiService.ProcessXAPIStatement(statement, freshId, now);
      saved := db.SaveAnalytics(analytics, now.millis);
    }

    /**
     * `processSCORMData`: normalize the SCORM block under a freshly
     * generated id and save it; when that id is new to the store, the
     * store grows by exactly that record.
     */
    method ProcessSCORMData(data: ScormData, gameId: string, gameName: string, freshId: string, now: Instant)
      returns (saved: GameAnalytics)
      requires db.Valid()
      modifies db
      ensures db.Valid()
      ensures var record := ConvertSCORMToAnalytics(data, gameId, gameName, freshId, now);
        var i := FindIndex(old(db.analytics), freshId);
        && (i < 0 ==> db.analytics == old(db.analytics) + [record] && saved == record)
        && (i >= 0 ==> db.analytics == old(db.analytics)[i := saved] && saved == Merge(old(db.analytics)[i], record, now.millis))
      ensures (forall a | a in old(db.analytics) :: a.id != freshId) ==> |db.analytics| == |old(db.analytics)| + 1
      ensures db.GetAnalyticsById(freshId) == Some(saved)
    {
      var analytics := ConvertSCORMToAnalytics(data, gameId, gameName, freshId, now);
      ScormIdentity(data, gameId, gameName, freshId, now);
      saved := db.SaveAnalytics(analytics, now.millis);
    }

    /** `getAnalyticsByUser`: the store's records of that user. */
    function GetAnalyticsByUser(userId: string): (r: seq<GameAnalytics>)
      reads db
      ensures forall a :: a in r <==> a in db.analytics && a.userId == userId
    {
      db.GetAnalyticsByUser(userId)
    }

    /** `getAnalyticsByGame`: the store's records of that game. */
    function GetAnalyticsByGame(gameId: string): (r: seq<GameAnalytics>)
      reads db
      ensures forall a :: a in r <==> a in db.analytics && a.gameId == gameId
    {
      db.GetAnalyticsByGame(gameId)
    }

    /** `getAnalyticsBySchool`: the store's records of that school. */
    function GetAnalyticsBySchool(schoolId: string): (r: seq<GameAnalytics>)
      reads db
      ensures forall a :: a in r <==> a in db.analytics && a.schoolId == Defined(schoolId)
    {
      db.GetAnalyticsBySchool(schoolId)
    }

    /** `getAggregateStats`: the store's summary. */
    function GetAggregateStats(): (stats: AggregateStats)
      reads db
      ensures stats.totalSessions == |db.analytics|
      ensures 0.0 <= stats.completionRate <= 100.0 && 0.0 <= stats.passRate <= 100.0
    {
      db.GetAggregateStats()
    }

    /** `getUserRankings(limit = 10)`: the store's user leaderboard. */
    method GetUserRankings(limit: int := 10) returns (rankings: seq<UserRanking>)
      ensures rankings == UserRankingsOf(db.analytics, limit)
      ensures limit >= 0 ==> |rankings| <= limit
    {
      rankings := db.GetUserRankings(limit);
    }

    /** `getSchoolRankings(limit = 10)`: the store's school leaderboard. */
    method GetSchoolRankings(limit: int := 10) returns (rankings: seq<SchoolRanking>)
      ensures rankings == SchoolRankingsOf(db.analytics, limit)
      ensures limit >= 0 ==> |rankings| <= limit
    {
      rankings := db.GetSchoolRankings(limit);
    }
  }

  /**
   * End to end: from an empty store, ingesting one statement leaves exactly
   * its normalized record in the store, and that record is what the user
   * and game queries return.
   */
  method IngestIntoEmptyStore(statement: Statement, freshId: string, now: Instant)
    returns (saved: GameAnalytics, byUser: seq<GameAnalytics>, byGame: seq<GameAnalytics>)
    ensures byUser == [saved] && byGame == [saved]
    ensures saved.userId == UserIdOf(statement.actor) && saved.gameId == statement.activity.id
  {
    var api := new AnalyticsApi();
    var filled;
    saved, filled := api.ProcessXAPIStatement(statement, freshId, now);
    assert api.db.analytics == [saved] && saved == XAPIRecord(filled, freshId, now);
    XAPIKeepsBase(filled, freshId, now);
    assert filled.actor == statement.actor && filled.activity == statement.activity;
    byUser := api.GetAnalyticsByUser(saved.userId);
    byGame := api.GetAnalyticsByGame(saved.gameId);
    SingleRecordFilter(saved, (a: GameAnalytics) => a.userId == saved.userId);
    SingleRecordFilter(saved, (a: GameAnalytics) => a.gameId == saved.gameId);
  }
}
