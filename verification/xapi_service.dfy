/**
 * The normalizers of src/services/xAPIService.ts: the canonical `GameAnalytics`
 * record, the xAPI statement and SCORM 1.2 runtime shapes they read, and the
 * two conversions onto the record. The clock and the UUID generator are
 * parameters: `now` is the instant every `new Date()` of one call reads, and
 * `freshId` the value `uuidv4()` returns.
 */
module XApiService {
  import opened JsValues
  import opened Strings

  /** A reading of the clock: `toISOString()` and `getTime()` of one `new Date()`. */
  datatype Instant = Instant(iso: string, millis: int)

  // ------------------------------------------------------------ the record

  /** One step of a session (`GameAnalytics.interactions[k]`). */
  datatype Interaction = Interaction(
    id: string,
    interactionType: string,
    description: Prop<string>,
    studentResponse: Prop<string>,
    correctResponse: Prop<string>,
    result: Prop<string>,
    timestamp: string)

  /**
   * The canonical analytics record of one learning session. Optional
   * properties are `Prop`s; `createdAt`/`updatedAt` are kept as the
   * milliseconds their ISO strings denote.
   */
  datatype GameAnalytics = GameAnalytics(
    id: string,
    userId: string,
    userName: string,
    gameId: string,
    gameName: string,
    schoolId: Prop<string>,
    schoolName: Prop<string>,
    gradeLevel: Prop<string>,
    subject: Prop<string>,
    startTime: string,
    endTime: Prop<string>,
    totalTimeSpent: Prop<string>,
    score: Prop<real>,
    maxScore: Prop<real>,
    percentageScore: Prop<real>,
    completed: Prop<bool>,
    progress: Prop<real>,
    passed: Prop<bool>,
    interactions: Prop<seq<Interaction>>,
    createdAt: int,
    updatedAt: int)

  /** The object literal both converters start from: every optional property missing. */
  function NewRecord(id: string, userId: string, userName: string, gameId: string, gameName: string,
                     startTime: string, now: Instant): GameAnalytics
  {
    GameAnalytics(id, userId, userName, gameId, gameName, Absent, Absent, Absent, Absent,
                  startTime, Absent, Absent, Absent, Absent, Absent, Absent, Absent, Absent, Absent,
                  now.millis, now.millis)
  }

  // ------------------------------------------------------------ xAPI input

  datatype Account = Account(homePage: string, name: string)
  datatype Agent = Agent(objectType: string, name: string, mbox: Option<string>, account: Option<Account>)
  datatype Verb = Verb(id: string, display: map<string, string>)
  /** `activity.definition`; `name` is a language map such as `{"en-US": "..."}`. */
  datatype ActivityDefinition = ActivityDefinition(name: Option<map<string, string>>)
  datatype Activity = Activity(id: string, definition: Option<ActivityDefinition>)
  datatype Score = Score(scaled: Option<real>, raw: Option<real>, min: Option<real>, max: Option<real>)
  datatype StatementResult = StatementResult(score: Option<Score>, success: Option<bool>, completion: Option<bool>)
  datatype ContextActivity = ContextActivity(id: string)
  datatype ContextActivities = ContextActivities(grouping: Option<seq<ContextActivity>>)
  datatype Context = Context(contextActivities: Option<ContextActivities>)

  /** The parts of an xAPI statement the converter reads. */
  datatype Statement = Statement(
    id: Option<string>,
    actor: Agent,
    verb: Verb,
    activity: Activity,
    result: Option<StatementResult>,
    context: Option<Context>,
    timestamp: Option<string>)

  // ------------------------------------------------------------ xAPI mapping

  const MailtoPrefix: string := "mailto:"
  const UnknownGame: string := "Unknown Game"

  /** `actor.account?.name || actor.mbox?.replace('mailto:', '') || ''`. */
  function UserIdOf(actor: Agent): (userId: string) {
    if actor.account.Some? && actor.account.value.name != "" then actor.account.value.name
    else if actor.mbox.Some? && RemoveFirst(actor.mbox.value, MailtoPrefix) != "" then
      RemoveFirst(actor.mbox.value, MailtoPrefix)
    else ""
  }

  /** `activity.definition?.name?.['en-US']`. */
  function EnglishName(activity: Activity): Option<string> {
    if activity.definition.Some? && activity.definition.value.name.Some?
       && "en-US" in activity.definition.value.name.value
    then Some(activity.definition.value.name.value["en-US"])
    else None
  }

  /** `definition?.name?.['en-US'] || 'Unknown Game'`. */
  function GameNameOf(activity: Activity): (name: string) {
    OrElse(EnglishName(activity), UnknownGame)
  }

  /** The record before the result and context are looked at. */
  function XAPIBase(statement: Statement, fallbackId: string, now: Instant): GameAnalytics {
    NewRecord(OrElse(statement.id, fallbackId), UserIdOf(statement.actor), statement.actor.name,
              statement.activity.id, GameNameOf(statement.activity),
              OrElse(statement.timestamp, now.iso), now)
  }

  /** `scaled ? scaled * 100 : undefined`. */
  function ScaledPercentage(scaled: Option<real>): Prop<real> {
    if TruthyNumber(scaled) then Defined(scaled.value * 100.0) else Undefined
  }

  /** The score block: copied only when `result.score` is there. */
  function WithScore(rec: GameAnalytics, result: Option<StatementResult>): GameAnalytics {
    if result.Some? && result.value.score.Some? then
      var s := result.value.score.value;
      rec.(score := Assigned(s.raw), maxScore := Assigned(s.max), percentageScore := ScaledPercentage(s.scaled))
    else rec
  }

  /** `completed` and `passed`: copied only when not `undefined`. */
  function WithOutcome(rec: GameAnalytics, result: Option<StatementResult>): GameAnalytics {
    var r1 := if result.Some? && result.value.completion.Some?
              then rec.(completed := Defined(result.value.completion.value)) else rec;
    if result.Some? && result.value.success.Some?
    then r1.(passed := Defined(result.value.success.value)) else r1
  }

  /** `statement.context?.contextActivities?.grouping`. */
  function GroupingOf(statement: Statement): Option<seq<ContextActivity>> {
    if statement.context.Some? && statement.context.value.contextActivities.Some?
    then statement.context.value.contextActivities.value.grouping
    else None
  }

  /** Which dimension a grouping id feeds, by the first substring test that matches. */
  datatype GroupKind = SchoolGroup | GradeGroup | SubjectGroup | OtherGroup

  function Classify(id: string): GroupKind {
    if Contains(id, "school") then SchoolGroup
    else if Contains(id, "grade") then GradeGroup
    else if Contains(id, "subject") then SubjectGroup
    else OtherGroup
  }

  /** One pass of the `for (const group of grouping)` body. */
  function ApplyGroup(rec: GameAnalytics, group: ContextActivity): GameAnalytics {
    match Classify(group.id)
    case SchoolGroup => rec.(schoolId := Defined(group.id), schoolName := Defined(LastSegment(group.id, ':')))
    case GradeGroup => rec.(gradeLevel := Defined(LastSegment(group.id, ':')))
    case SubjectGroup => rec.(subject := Defined(LastSegment(group.id, ':')))
    case OtherGroup => rec
  }

  /** The grouping loop run over `groups`, first entry first. */
  function ApplyGroupings(rec: GameAnalytics, groups: seq<ContextActivity>): GameAnalytics {
    if |groups| == 0 then rec
    else ApplyGroup(ApplyGroupings(rec, groups[..|groups| - 1]), groups[|groups| - 1])
  }

  /** What `convertXAPIToAnalytics` builds. */
  function XAPIRecord(statement: Statement, fallbackId: string, now: Instant): (r: GameAnalytics)
    ensures GroupingOf(statement).None? ==>
              r.schoolId == Absent && r.schoolName == Absent && r.gradeLevel == Absent && r.subject == Absent
  {
    var rec := WithOutcome(WithScore(XAPIBase(statement, fallbackId, now), statement.result), statement.result);
    if GroupingOf(statement).Some? then ApplyGroupings(rec, GroupingOf(statement).value) else rec
  }

  /**
   * `convertXAPIToAnalytics`: builds the record by successive assignments,
   * then lets every grouping entry overwrite the dimension it names.
   */
  method ConvertXAPIToAnalytics(statement: Statement, fallbackId: string, now: Instant)
    returns (analytics: GameAnalytics)
    ensures analytics == XAPIRecord(statement, fallbackId, now)
  {
    var userId := UserIdOf(statement.actor);
    var gameId := statement.activity.id;
    var gameName := GameNameOf(statement.activity);
    analytics := NewRecord(OrElse(statement.id, fallbackId), userId, statement.actor.name, gameId, gameName,
                           OrElse(statement.timestamp, now.iso), now);

    if statement.result.Some? && statement.result.value.score.Some? {
      var score := statement.result.value.score.value;
      analytics := analytics.(score := Assigned(score.raw));
      analytics := analytics.(maxScore := Assigned(score.max));
      analytics := analytics.(percentageScore :=
        if TruthyNumber(score.scaled) then Defined(score.scaled.value * 100.0) else Undefined);
    }
    if statement.result.Some? && statement.result.value.completion.Some? {
      analytics := analytics.(completed := Defined(statement.result.value.completion.value));
    }
    if statement.result.Some? && statement.result.value.success.Some? {
      analytics := analytics.(passed := Defined(statement.result.value.success.value));
    }

    var grouping := GroupingOf(statement);
    if grouping.Some? {
      analytics := ApplyGroupingLoop(analytics, grouping.value);
    }
  }

  /** The `for (const group of grouping)` loop of `convertXAPIToAnalytics`. */
  method ApplyGroupingLoop(rec: GameAnalytics, groups: seq<ContextActivity>) returns (analytics: GameAnalytics)
    ensures analytics == ApplyGroupings(rec, groups)
  {
    analytics := rec;
    for i := 0 to |groups|
      invariant analytics == ApplyGroupings(rec, groups[..i])
    {
      var group := groups[i];
      ghost var prev := analytics;
      if Contains(group.id, "school") {
        analytics := analytics.(schoolId := Defined(group.id));
        analytics := analytics.(schoolName := Defined(LastSegment(group.id, ':')));
      } else if Contains(group.id, "grade") {
        analytics := analytics.(gradeLevel := Defined(LastSegment(group.id, ':')));
      } else if Contains(group.id, "subject") {
        analytics := analytics.(subject := Defined(LastSegment(group.id, ':')));
      }
      assert analytics == ApplyGroup(prev, group);
      assert groups[..i + 1][..i] == groups[..i];
    }
    assert groups[..|groups|] == groups;
  }

  /**
   * `processXAPIStatement` of the service: fills a missing (or empty) `id`
   * and `timestamp` into the statement, which the caller sees changed, and
   * converts it.
   */
  method ProcessXAPIStatement(statement: Statement, freshId: string, now: Instant)
    returns (filled: Statement, analytics: GameAnalytics)
    ensures filled == statement.(id := filled.id, timestamp := filled.timestamp)
    ensures filled.id == Some(if TruthyString(statement.id) then statement.id.value else freshId)
    ensures filled.timestamp == Some(if TruthyString(statement.timestamp) then statement.timestamp.value else now.iso)
    ensures analytics == XAPIRecord(filled, freshId, now)
    ensures analytics.id == filled.id.value && analytics.startTime == filled.timestamp.value
  {
    filled := statement;
    if !TruthyString(filled.id) {
      filled := filled.(id := Some(freshId));
    }
    if !TruthyString(filled.timestamp) {
      filled := filled.(timestamp := Some(now.iso));
    }
    analytics := ConvertXAPIToAnalytics(filled, freshId, now);
    XAPIKeepsBase(filled, freshId, now);
  }

  // ------------------------------------------------------------ xAPI properties

  /** A grouping entry of kind `kind` at `j`, with none of that kind after it. */
  predicate LastOfKind(groups: seq<ContextActivity>, kind: GroupKind, j: int) {
    0 <= j < |groups| && Classify(groups[j].id) == kind
    && forall k | j < k < |groups| :: Classify(groups[k].id) != kind
  }

  predicate NoneOfKind(groups: seq<ContextActivity>, kind: GroupKind) {
    forall k | 0 <= k < |groups| :: Classify(groups[k].id) != kind
  }

  /** The grouping loop changes the four classification fields and nothing else. */
  lemma {:induction false} GroupingsKeepIdentity(rec: GameAnalytics, groups: seq<ContextActivity>)
    ensures var r := ApplyGroupings(rec, groups);
      r == rec.(schoolId := r.schoolId, schoolName := r.schoolName, gradeLevel := r.gradeLevel, subject := r.subject)
  {
    if |groups| > 0 {
      GroupingsKeepIdentity(rec, groups[..|groups| - 1]);
    }
  }

  /** The fields a grouping entry of kind `kind` writes (the second is unused but for schools). */
  function Dimension(rec: GameAnalytics, kind: GroupKind): (Prop<string>, Prop<string>) {
    match kind
    case SchoolGroup => (rec.schoolId, rec.schoolName)
    case GradeGroup => (rec.gradeLevel, Absent)
    case SubjectGroup => (rec.subject, Absent)
    case OtherGroup => (Absent, Absent)
  }

  /** What an entry of kind `kind` writes into those fields. */
  function Written(group: ContextActivity, kind: GroupKind): (Prop<string>, Prop<string>) {
    match kind
    case SchoolGroup => (Defined(group.id), Defined(LastSegment(group.id, ':')))
    case GradeGroup => (Defined(LastSegment(group.id, ':')), Absent)
    case SubjectGroup => (Defined(LastSegment(group.id, ':')), Absent)
    case OtherGroup => (Absent, Absent)
  }

  /** One entry writes the fields of its own kind and leaves the other kinds' alone. */
  lemma ApplyGroupDimension(rec: GameAnalytics, group: ContextActivity, kind: GroupKind)
    requires kind != OtherGroup
    ensures Dimension(ApplyGroup(rec, group), kind) ==
            if Classify(group.id) == kind then Written(group, kind) else Dimension(rec, kind)
  {
    match Classify(group.id)
    case SchoolGroup =>
    case GradeGroup =>
    case SubjectGroup =>
    case OtherGroup =>
  }

  /** Without an entry of kind `kind`, the grouping loop leaves that kind's fields as they were. */
  lemma {:induction false} GroupingsKeepUnnamed(rec: GameAnalytics, groups: seq<ContextActivity>, kind: GroupKind)
    requires kind != OtherGroup
    requires NoneOfKind(groups, kind)
    ensures Dimension(ApplyGroupings(rec, groups), kind) == Dimension(rec, kind)
  {
    if |groups| > 0 {
      var init := groups[..|groups| - 1];
      assert NoneOfKind(init, kind) by {
        forall k | 0 <= k < |init| ensures Classify(init[k].id) != kind {
          assert init[k] == groups[k];
        }
      }
      GroupingsKeepUnnamed(rec, init, kind);
      ApplyGroupDimension(ApplyGroupings(rec, init), groups[|groups| - 1], kind);
    }
  }

  /**
   * The later entry wins: the fields of a kind hold what the last entry of
   * that kind writes. "school" is tested before "grade", and "grade" before
   * "subject", so one id feeds one kind only.
   */
  lemma {:induction false} GroupingsLastWins(rec: GameAnalytics, groups: seq<ContextActivity>, kind: GroupKind, j: int)
    requires kind != OtherGroup
    requires LastOfKind(groups, kind, j)
    ensures Dimension(ApplyGroupings(rec, groups), kind) == Written(groups[j], kind)
  {
    var init := groups[..|groups| - 1];
    var last := |groups| - 1;
    ApplyGroupDimension(ApplyGroupings(rec, init), groups[last], kind);
    if j < last {
      assert LastOfKind(init, kind, j) by {
        forall k | j < k < |init| ensures Classify(init[k].id) != kind {
          assert init[k] == groups[k];
        }
      }
      GroupingsLastWins(rec, init, kind, j);
    }
  }

  /** A `mailto:` IRI names the user by the address after the scheme. */
  lemma MailboxUserId(actor: Agent, address: string)
    requires actor.account.None? || actor.account.value.name == ""
    requires actor.mbox == Some(MailtoPrefix + address) && address != ""
    ensures UserIdOf(actor) == address
  {
    var m := MailtoPrefix + address;
    assert m[..|MailtoPrefix|] == MailtoPrefix && m[|MailtoPrefix|..] == address;
  }

  /** The fields neither the result nor the grouping touch keep the values the base record gives them. */
  lemma XAPIKeepsBase(statement: Statement, fallbackId: string, now: Instant)
    ensures var r, b := XAPIRecord(statement, fallbackId, now), XAPIBase(statement, fallbackId, now);
      && r.id == b.id && r.userId == b.userId && r.userName == b.userName
      && r.gameId == b.gameId && r.gameName == b.gameName && r.startTime == b.startTime
      && r.createdAt == b.createdAt && r.updatedAt == b.updatedAt
      && r.endTime == b.endTime && r.totalTimeSpent == b.totalTimeSpent
      && r.progress == b.progress && r.interactions == b.interactions
  {
    var b := XAPIBase(statement, fallbackId, now);
    var base := WithOutcome(WithScore(b, statement.result), statement.result);
    OutcomeKeepsBase(b, statement.result);
    GroupingsKeepIdentity(base, if GroupingOf(statement).Some? then GroupingOf(statement).value else []);
  }

  /** The result block writes the score and outcome fields only. */
  lemma OutcomeKeepsBase(rec: GameAnalytics, result: Option<StatementResult>)
    ensures var r := WithOutcome(WithScore(rec, result), result);
      r == rec.(score := r.score, maxScore := r.maxScore, percentageScore := r.percentageScore,
                completed := r.completed, passed := r.passed)
  {
  }

  /**
   * The identity fields: `userId` by account name, then mailbox without its
   * first `mailto:`, then ""; `userName`, `gameId` verbatim; `gameName` the
   * "en-US" name or "Unknown Game"; `id` and `startTime` from the statement
   * with the fallbacks; both bookkeeping stamps "now".
   */
  lemma XAPIIdentity(statement: Statement, fallbackId: string, now: Instant)
    ensures var r := XAPIRecord(statement, fallbackId, now);
      var actor := statement.actor;
      && (actor.account.Some? && actor.account.value.name != "" ==> r.userId == actor.account.value.name)
      && (!(actor.account.Some? && actor.account.value.name != "") ==>
            r.userId == if actor.mbox.Some? then RemoveFirst(actor.mbox.value, MailtoPrefix) else "")
      && r.userName == actor.name
      && r.gameId == statement.activity.id
      && (TruthyString(EnglishName(statement.activity)) ==> r.gameName == EnglishName(statement.activity).value)
      && (!TruthyString(EnglishName(statement.activity)) ==> r.gameName == UnknownGame)
      && r.id == (if TruthyString(statement.id) then statement.id.value else fallbackId)
      && r.startTime == (if TruthyString(statement.timestamp) then statement.timestamp.value else now.iso)
      && r.createdAt == now.millis && r.updatedAt == now.millis
      && r.endTime == Absent && r.totalTimeSpent == Absent && r.progress == Absent && r.interactions == Absent
  {
    var b := XAPIBase(statement, fallbackId, now);
    XAPIKeepsBase(statement, fallbackId, now);
    assert b.userId == UserIdOf(statement.actor) && b.gameName == GameNameOf(statement.activity);
    assert b.id == OrElse(statement.id, fallbackId) && b.startTime == OrElse(statement.timestamp, now.iso);
  }

  /**
   * Score, completion and success: `score`/`maxScore` only when `result.score`
   * exists; `percentageScore` is `scaled * 100` when `scaled` is non-zero and
   * otherwise written as `undefined`, never derived from raw/max;
   * `completed`/`passed` copied only when given, never defaulted.
   */
  lemma XAPIOutcome(statement: Statement, fallbackId: string, now: Instant)
    ensures var r := XAPIRecord(statement, fallbackId, now);
      var res := statement.result;
      && (res.Some? && res.value.score.Some? ==>
            var s := res.value.score.value;
            && r.score.Get() == s.raw && r.maxScore.Get() == s.max
            && r.score != Absent && r.maxScore != Absent
            && r.percentageScore == (if TruthyNumber(s.scaled) then Defined(s.scaled.value * 100.0) else Undefined))
      && (!(res.Some? && res.value.score.Some?) ==>
            r.score == Absent && r.maxScore == Absent && r.percentageScore == Absent)
      && (res.Some? && res.value.completion.Some? ==> r.completed == Defined(res.value.completion.value))
      && (!(res.Some? && res.value.completion.Some?) ==> r.completed == Absent)
      && (res.Some? && res.value.success.Some? ==> r.passed == Defined(res.value.success.value))
      && (!(res.Some? && res.value.success.Some?) ==> r.passed == Absent)
  {
    OutcomeKeepsBase(XAPIBase(statement, fallbackId, now), statement.result);
    var base := WithOutcome(WithScore(XAPIBase(statement, fallbackId, now), statement.result), statement.result);
    GroupingsKeepIdentity(base, if GroupingOf(statement).Some? then GroupingOf(statement).value else []);
  }

  /** A scaled score in [0, 1] gives a percentage in [0, 100]. */
  lemma XAPIPercentageBounded(statement: Statement, fallbackId: string, now: Instant)
    requires statement.result.Some? && statement.result.value.score.Some?
    requires var sc := statement.result.value.score.value.scaled; sc.Some? ==> 0.0 <= sc.value <= 1.0
    ensures var r := XAPIRecord(statement, fallbackId, now);
      r.percentageScore.Defined? ==> 0.0 <= r.percentageScore.value <= 100.0
  {
    XAPIOutcome(statement, fallbackId, now);
  }

  /**
   * The classification fields: set by the last grouping entry of their kind
   * (school id whole and school name after the last ':'; grade and subject
   * after the last ':'), and missing when there is no grouping array.
   */
  lemma XAPIClassification(statement: Statement, fallbackId: string, now: Instant)
    ensures var r := XAPIRecord(statement, fallbackId, now);
      && (GroupingOf(statement).None? ==>
            r.schoolId == Absent && r.schoolName == Absent && r.gradeLevel == Absent && r.subject == Absent)
      && (GroupingOf(statement).Some? ==>
            var groups := GroupingOf(statement).value;
            && (NoneOfKind(groups, SchoolGroup) ==> r.schoolId == Absent && r.schoolName == Absent)
            && (forall j | LastOfKind(groups, SchoolGroup, j) ::
                  r.schoolId == Defined(groups[j].id) && r.schoolName == Defined(LastSegment(groups[j].id, ':')))
            && (NoneOfKind(groups, GradeGroup) ==> r.gradeLevel == Absent)
            && (forall j | LastOfKind(groups, GradeGroup, j) :: r.gradeLevel == Defined(LastSegment(groups[j].id, ':')))
            && (NoneOfKind(groups, SubjectGroup) ==> r.subject == Absent)
            && (forall j | LastOfKind(groups, SubjectGroup, j) :: r.subject == Defined(LastSegment(groups[j].id, ':'))))
  {
    OutcomeKeepsBase(XAPIBase(statement, fallbackId, now), statement.result);
    if GroupingOf(statement).Some? {
      var base := WithOutcome(WithScore(XAPIBase(statement, fallbackId, now), statement.result), statement.result);
      var groups := GroupingOf(statement).value;
      forall kind | kind != OtherGroup && NoneOfKind(groups, kind)
        ensures Dimension(ApplyGroupings(base, groups), kind) == Dimension(base, kind)
      {
        GroupingsKeepUnnamed(base, groups, kind);
      }
      forall kind, j | kind != OtherGroup && LastOfKind(groups, kind, j)
        ensures Dimension(ApplyGroupings(base, groups), kind) == Written(groups[j], kind)
      {
        GroupingsLastWins(base, groups, kind, j);
      }
    }
  }

  // ------------------------------------------------------------ SCORM input

  datatype CmiScore = CmiScore(raw: real, min: real, max: real)

  /** The parts of `cmi.core` the converter reads. */
  datatype CmiCore = CmiCore(
    studentId: string,
    studentName: string,
    lessonStatus: string,
    score: Option<CmiScore>,
    totalTime: string)

  datatype CmiInteraction = CmiInteraction(
    id: string,
    time: string,
    interactionType: string,
    weighting: string,
    studentResponse: string,
    result: string,
    latency: string)

  /** A SCORM 1.2 runtime block: `cmi.core` and `cmi.interactions`. */
  datatype ScormData = ScormData(core: CmiCore, interactions: Option<seq<CmiInteraction>>)

  // ------------------------------------------------------------ SCORM mapping

  /**
   * `raw ? (raw / max) * 100 : undefined`. A zero raw score is "no score".
   * A non-zero raw over a zero max, Infinity in JavaScript, is left undefined.
   */
  function ScormPercentage(score: CmiScore): Prop<real> {
    if score.raw == 0.0 || score.max == 0.0 then Undefined
    else Defined(score.raw / score.max * 100.0)
  }

  /** `completed` and `passed` from `cmi.core.lesson_status` (the `switch`). */
  function StatusOutcome(status: string): (Prop<bool>, Prop<bool>) {
    if status == "" then (Absent, Absent)
    else if status == "completed" then (Defined(true), Absent)
    else if status == "incomplete" then (Defined(false), Absent)
    else if status == "passed" then (Defined(true), Defined(true))
    else if status == "failed" then (Defined(true), Defined(false))
    else (Defined(false), Absent)
  }

  /** One `cmi.interactions` entry in canonical form. */
  function ToInteraction(x: CmiInteraction): Interaction {
    Interaction(x.id, x.interactionType, Absent, Defined(x.studentResponse), Absent, Defined(x.result), x.time)
  }

  function ToInteractions(xs: seq<CmiInteraction>): seq<Interaction> {
    seq(|xs|, k requires 0 <= k < |xs| => ToInteraction(xs[k]))
  }

  /** `convertSCORMToAnalytics`: the id is always fresh and `startTime` is "now". */
  function ConvertSCORMToAnalytics(data: ScormData, gameId: string, gameName: string,
                                   freshId: string, now: Instant): (r: GameAnalytics)
    ensures r.score.Defined? <==> data.core.score.Some?
    ensures r.endTime == Absent && r.progress == Absent
  {
    var core := data.core;
    var base := NewRecord(freshId, core.studentId, core.studentName, gameId, gameName, now.iso, now)
                  .(totalTimeSpent := Defined(core.totalTime));
    var scored := if core.score.Some?
                  then base.(score := Defined(core.score.value.raw), maxScore := Defined(core.score.value.max),
                             percentageScore := ScormPercentage(core.score.value))
                  else base;
    var outcome := StatusOutcome(core.lessonStatus);
    var judged := scored.(completed := outcome.0, passed := outcome.1);
    if data.interactions.Some? then judged.(interactions := Defined(ToInteractions(data.interactions.value)))
    else judged
  }

  // ------------------------------------------------------------ SCORM properties

  /**
   * Identity and timing: a fresh id, the student's id and name and the total
   * time verbatim, the game from the arguments, `startTime` "now", and no
   * classification fields.
   */
  lemma ScormIdentity(data: ScormData, gameId: string, gameName: string, freshId: string, now: Instant)
    ensures var r := ConvertSCORMToAnalytics(data, gameId, gameName, freshId, now);
      && r.id == freshId && r.userId == data.core.studentId && r.userName == data.core.studentName
      && r.gameId == gameId && r.gameName == gameName
      && r.totalTimeSpent == Defined(data.core.totalTime)
      && r.startTime == now.iso && r.createdAt == now.millis && r.updatedAt == now.millis
      && r.schoolId == Absent && r.schoolName == Absent && r.gradeLevel == Absent && r.subject == Absent
  {
  }

  /**
   * The score: copied when `cmi.core.score` is there; the percentage is
   * `raw / max * 100` for a non-zero raw score, and `undefined` for raw 0.
   * For `0 < raw <= max` it lies in (0, 100].
   */
  lemma ScormScore(data: ScormData, gameId: string, gameName: string, freshId: string, now: Instant)
    ensures var r := ConvertSCORMToAnalytics(data, gameId, gameName, freshId, now);
      && (data.core.score.None? ==> r.score == Absent && r.maxScore == Absent && r.percentageScore == Absent)
      && (data.core.score.Some? ==>
            var s := data.core.score.value;
            && r.score == Defined(s.raw) && r.maxScore == Defined(s.max)
            && (s.raw == 0.0 ==> r.percentageScore == Undefined)
            && (s.raw != 0.0 && s.max != 0.0 ==> r.percentageScore == Defined(s.raw / s.max * 100.0))
            && (0.0 < s.raw <= s.max ==> 0.0 < r.percentageScore.value <= 100.0))
  {
    if data.core.score.Some? {
      var s := data.core.score.value;
      if 0.0 < s.raw <= s.max {
        assert s.raw / s.max <= 1.0;
      }
    }
  }

  /**
   * The `lesson_status` table: "completed" and "passed"/"failed" complete the
   * session, "incomplete" and any other non-empty status do not; only
   * "passed" and "failed" set `passed`; an empty status sets neither.
   */
  lemma ScormLessonStatus(data: ScormData, gameId: string, gameName: string, freshId: string, now: Instant)
    ensures var r := ConvertSCORMToAnalytics(data, gameId, gameName, freshId, now);
      var status := data.core.lessonStatus;
      && (status == "completed" ==> r.completed == Defined(true) && r.passed == Absent)
      && (status == "incomplete" ==> r.completed == Defined(false) && r.passed == Absent)
      && (status == "passed" ==> r.completed == Defined(true) && r.passed == Defined(true))
      && (status == "failed" ==> r.completed == Defined(true) && r.passed == Defined(false))
      && (status !in {"", "completed", "incomplete", "passed", "failed"} ==>
            r.completed == Defined(false) && r.passed == Absent)
      && (status == "" <==> r.completed == Absent)
      && (r.passed != Absent <==> status in {"passed", "failed"})
  {
  }

  /**
   * The interactions: one canonical entry per SCORM entry, same order, with
   * `id`, `type`, `student_response`, `result` and `time` carried over and no
   * description or correct response.
   */
  lemma ScormInteractions(data: ScormData, gameId: string, gameName: string, freshId: string, now: Instant)
    ensures var r := ConvertSCORMToAnalytics(data, gameId, gameName, freshId, now);
      && (data.interactions.None? ==> r.interactions == Absent)
      && (data.interactions.Some? ==>
            var xs := data.interactions.value;
            && r.interactions.Defined? && |r.interactions.value| == |xs|
            && forall k | 0 <= k < |xs| ::
                 var y := r.interactions.value[k];
                 && y.id == xs[k].id && y.interactionType == xs[k].interactionType
                 && y.studentResponse == Defined(xs[k].studentResponse)
                 && y.result == Defined(xs[k].result) && y.timestamp == xs[k].time
                 && y.description == Absent && y.correctResponse == Absent)
  {
  }
}
