# Learning-telemetry analytics, modelled in Dafny

This project models the analytics layer of the gamified-learning platform. The layer has three parts:

- **Normalizers** (`src/services/xAPIService.ts`). An Experience API (xAPI 1.0.3) statement or a SCORM 1.2 `cmi` runtime block becomes one canonical `GameAnalytics` record.
- **In-memory store** (`src/services/AnalyticsDbService.ts`). It saves records by insert-or-merge on `id` and answers exact-match and date-range queries. It also computes summary statistics, including the `HH:MM:SS` time average, and the user and school leaderboards.
- **Ingestion facade** (`src/api/analyticsApi.ts`). It normalizes, saves into one shared store, and delegates queries to it.

Files and modules:

| file | module | what it holds |
|---|---|---|
| `js_values.dfy` | `JsValues` | `Option`. `Prop` is a property that may be missing, hold `undefined`, or hold a value. Also JavaScript truthiness and `||` fallback. |
| `strings.dfy` | `Strings` | `replace` of the first occurrence, `split`/`join`, `split(':').pop()`, `parseInt(s, 10) \|\| 0`, integer `toString`, `padStart(2, '0')` |
| `xapi_service.dfy` | `XApiService` | The record shape and the xAPI and SCORM input shapes. Both converters, and the id/timestamp defaulting of `processXAPIStatement`. |
| `aggregation.dfy` | `Aggregation` | What `getAggregateStats`, `getUserRankings` and `getSchoolRankings` compute, as functions of the stored list, with their properties |
| `analytics_db_service.dfy` | `AnalyticsDb` | Class `AnalyticsDbService`: the array, save, queries, and the two ranking loops. Also the merge and filter laws. |
| `analytics_api.dfy` | `Api` | Class `AnalyticsApi` over the shared store: ingestion and pass-throughs |

Modelling choices:

- **Generated values are parameters.** The generated UUID is a `freshId` parameter. The clock is a `now: Instant` parameter, carrying the ISO string and the milliseconds.
- **Scores are `real`.** Scores, percentages and averages are `real`. Counts, parsed integers, timestamps and the ranking `limit` are `int` or `nat`. Integer `/` and `%` are Dafny's. JavaScript's truncating `%` on numbers is written out as `JsRem`.
- **Optional properties have three states.** A property can be missing, present holding `undefined`, or hold a value. Only the spread merge `{...old, ...new}` in `saveAnalytics` tells the first two apart: a property holding `undefined` overwrites, a missing one does not.
- **The converters are split by form.** `convertXAPIToAnalytics` builds its record by successive assignments and a loop, so it is a method. That method is proved equal to the function `XAPIRecord`. `convertSCORMToAnalytics` is a `switch` and a `.map`, so it is a function. Its properties are the `Scorm*` lemmas.
- **The store is a class.** It holds a `seq` field that `SaveAnalytics` reassigns. Its queries are functions that read it.
- **The ranking loops are methods.** They fill a map plus an insertion-order key list, which is a JavaScript `Map`. Each is proved equal to a fold (`TableOf`) over the stored list. The map/sort/slice chain after the loop is a function: the averages, a stable descending insertion sort, and `slice(0, limit)`, negative limits included.

Behaviour of the code worth noting:

- **Bookkeeping stamps.** The normalizers set `createdAt` and `updatedAt` when they build a record. A merge takes `createdAt` from the incoming record, because the spread copies it, and sets `updatedAt` to the save time.
- **Negative durations.** A time field such as `"00:-5:00"` parses to a negative number, so the total and the average can be negative. `formatDuration` then prints negative fields, for example -30 seconds as `-1:-1:-30`, because JavaScript's `%` keeps the sign of the dividend. The bounds of minutes and seconds to [0, 59], and the round trip through the parser, hold only for a non-negative total.
- **Ranking filter.** Rankings skip every record whose score is falsy. So a score of 0 counts toward neither a user's nor a school's ranking.

## Model

| member | source | states |
|---|---|---|
| JsValues.OverLaws | src/services/AnalyticsDbService.ts:16-20 | Under `{...older, ...newer}` a missing property leaves the other side's value on either side, spreading the same object twice is spreading it once, and nested spreads regroup freely |
| JsValues.Assigned | src/services/xAPIService.ts:307-309 | Assigning a maybe-undefined value makes the property present, and reading it back gives the value or `undefined` |
| JsValues.OrElse | src/services/AnalyticsDbService.ts:207 | `s \|\| fallback` is `s` when it is a non-empty string, else the fallback. It is always one of the two, and it is never empty when the fallback is not |
| Strings.RemoveFirst | src/services/xAPIService.ts:289 | `replace('mailto:', '')` removes only the first occurrence, cutting out exactly that slice, and leaves a string without the pattern unchanged |
| Strings.Split | src/services/AnalyticsDbService.ts:104 | `split(':')` yields at least one part, and no part holds the separator |
| Strings.JoinSplit | src/services/AnalyticsDbService.ts:104 | Joining the parts of `split` with the separator gives the input back |
| Strings.SplitJoin | src/services/AnalyticsDbService.ts:104 | Splitting the join of separator-free parts gives back those parts |
| Strings.SplitAppendPart | src/services/AnalyticsDbService.ts:104 | Appending a separator and a separator-free piece appends one part to the split |
| Strings.SplitNoSeparator | src/services/AnalyticsDbService.ts:104 | A string without the separator splits into itself alone |
| Strings.LastSegment | src/services/xAPIService.ts:332-336 | `split(':').pop()` is the longest suffix without ':': either the whole string, or it is preceded by a ':' |
| Strings.LastSegmentIsLastPart | src/services/xAPIService.ts:332 | That suffix is the last part `split` yields |
| Strings.TrimStart | src/services/AnalyticsDbService.ts:107-109 | `parseInt` skips exactly the leading ECMAScript white space |
| Strings.LeadingDigits | src/services/AnalyticsDbService.ts:107-109 | `parseInt` reads the longest run of decimal digits and stops at the first non-digit |
| Strings.NatToStringValue | src/services/AnalyticsDbService.ts:119 | The decimal digits written for a natural number read back as that number |
| Strings.ParseIntToString | src/services/AnalyticsDbService.ts:107-119 | `parseInt(n.toString(), 10) \|\| 0` is `n` for every integer, negative ones included |
| Strings.ParsePaddedIntToString | src/services/AnalyticsDbService.ts:107-119 | The same holds after `padStart(2, '0')` |
| Strings.PadStart2 | src/services/AnalyticsDbService.ts:119 | Exactly two characters for a shorter input, the input itself otherwise. It ends with the input, with '0's before it |
| XApiService.XAPIRecord | src/services/xAPIService.ts:287-342 | The record built from a statement. Without a grouping array it has no school, grade or subject. Its other properties are the `XAPI*` lemmas below |
| XApiService.ConvertXAPIToAnalytics | src/services/xAPIService.ts:288-342 | The record built by successive assignments and the grouping loop equals `XAPIRecord` |
| XApiService.ApplyGroupingLoop | src/services/xAPIService.ts:322-339 | The loop over the grouping array applies every entry in order. Its invariant: after `i` entries, the first `i` have been applied |
| XApiService.ProcessXAPIStatement | src/services/xAPIService.ts:224-253 | A falsy statement id becomes the fresh id and a falsy timestamp becomes "now". Nothing else in the statement changes. The record's `id` and `startTime` are the statement's filled-in id and timestamp |
| XApiService.XAPIIdentity | src/services/xAPIService.ts:289-303 | `userId` is the account name if non-empty, else the mailbox minus its first `mailto:`, else "". `userName` and `gameId` are verbatim. `gameName` is the "en-US" name or "Unknown Game". `id` and `startTime` come from the statement or the fallbacks. Both stamps are "now". No SCORM-only field is set |
| XApiService.XAPIKeepsBase | src/services/xAPIService.ts:288-303 | The outcome and grouping steps leave the identity, time, progress and interaction fields of the base record as they were |
| XApiService.MailboxUserId | src/services/xAPIService.ts:289 | An actor without account name and with `mailto:<address>` is identified by the address |
| XApiService.XAPIOutcome | src/services/xAPIService.ts:305-320 | `score` and `maxScore` are set only when `result.score` exists. `percentageScore` is `scaled * 100` for a truthy `scaled` and is written as `undefined` otherwise, never taken from raw/max. `completed` and `passed` are copied only when given and never defaulted |
| XApiService.XAPIPercentageBounded | src/services/xAPIService.ts:309 | A scaled score in [0, 1] gives a percentage in [0, 100] |
| XApiService.XAPIClassification | src/services/xAPIService.ts:322-339 | The last "school" entry sets `schoolId` to the whole id and `schoolName` to the text after the last ':'. The last "grade" and "subject" entries set those fields the same way. A kind with no entry, or a missing grouping array, leaves its fields unset |
| XApiService.GroupingsKeepIdentity | src/services/xAPIService.ts:329-338 | The grouping loop changes only `schoolId`, `schoolName`, `gradeLevel` and `subject` |
| XApiService.ApplyGroupDimension | src/services/xAPIService.ts:330-337 | One entry writes only the fields of its own kind. "school" is tested before "grade", and "grade" before "subject" |
| XApiService.GroupingsKeepUnnamed | src/services/xAPIService.ts:329-338 | With no entry of a kind, the loop leaves that kind's fields as they were |
| XApiService.GroupingsLastWins | src/services/xAPIService.ts:329-338 | The fields of a kind hold what the last entry of that kind writes, so later entries overwrite earlier ones |
| XApiService.ConvertSCORMToAnalytics | src/services/xAPIService.ts:344-402 | The record built from a SCORM block. It has a score exactly when `cmi.core.score` exists, and never an end time or progress. Its other properties are the `Scorm*` lemmas below |
| XApiService.ScormIdentity | src/services/xAPIService.ts:345-359 | The id is fresh. `student_id`, `student_name` and `total_time` are verbatim. The game comes from the arguments. `startTime` and the stamps are "now". No classification field is set |
| XApiService.ScormScore | src/services/xAPIService.ts:361-366 | `score` and `maxScore` are copied when `cmi.core.score` exists. The percentage is `raw / max * 100` for a non-zero raw score and `undefined` for raw 0. It lies in (0, 100] when `0 < raw <= max` |
| XApiService.ScormLessonStatus | src/services/xAPIService.ts:368-388 | The `lesson_status` table: completed, incomplete, passed and failed each map as the switch does. Any other non-empty status gives `completed = false`. An empty status leaves `completed` unset. `passed` is set exactly for "passed" and "failed" |
| XApiService.ScormInteractions | src/services/xAPIService.ts:390-399 | One entry per `cmi.interactions` entry, in the same order. `id`, `type`, `student_response`, `result` and `time` are carried over. Description and correct response are never set |
| Aggregation.DurationSeconds | src/services/AnalyticsDbService.ts:100-112 | Only a truthy time that splits into exactly three ':' parts adds any seconds |
| Aggregation.FormatDuration | src/services/AnalyticsDbService.ts:114-119 | The formatted average always splits into exactly three ':' fields, so the parser above reads it part by part |
| Aggregation.AggregateStatsOf | src/services/AnalyticsDbService.ts:72-136 | `totalSessions` is the number of records. An empty store gives zeros and "00:00:00". Both rates lie in [0, 100] |
| Aggregation.Percent | src/services/AnalyticsDbService.ts:122-127 | `(count / total) * 100` lies in [0, 100] and is 100 exactly when every session counts |
| Aggregation.DefinedScores | src/services/AnalyticsDbService.ts:92-93 | There are never more defined scores than records |
| Aggregation.DefinedScoresAre | src/services/AnalyticsDbService.ts:92-93 | A value is among the averaged scores exactly when some record has it as a defined `percentageScore` |
| Aggregation.CompletedCount | src/services/AnalyticsDbService.ts:122 | The number of sessions with a truthy `completed` is at most the number of sessions |
| Aggregation.PassedCount | src/services/AnalyticsDbService.ts:126 | The number of sessions with a truthy `passed` is at most the number of sessions |
| Aggregation.SumBounds | src/services/AnalyticsDbService.ts:95 | A sum of values in [lo, hi] lies in [n·lo, n·hi] |
| Aggregation.MeanBounds | src/services/AnalyticsDbService.ts:94-96 | A mean lies within any bounds every value meets |
| Aggregation.AverageScoreBounded | src/services/AnalyticsDbService.ts:92-96 | If every defined percentage is in [0, 100], so is `averageScore` |
| Aggregation.UnscoredRecordKeepsAverage | src/services/AnalyticsDbService.ts:79-96 | A record without a percentage leaves `averageScore` unchanged but adds a session |
| Aggregation.MalformedTimeDilutesAverage | src/services/AnalyticsDbService.ts:100-119 | A record whose time is falsy or does not have three ':' parts adds 0 seconds but still counts in the divisor |
| Aggregation.NoColonInPadded | src/services/AnalyticsDbService.ts:119 | No padded number contains ':' |
| Aggregation.ClockStringParts | src/services/AnalyticsDbService.ts:104-119 | The formatted `HH:MM:SS` splits at ':' into exactly its three padded numbers |
| Aggregation.DurationOfParts | src/services/AnalyticsDbService.ts:100-112 | A time string with exactly three ':' parts counts `h*3600 + m*60 + s` seconds, each part read by `parseInt(…) \|\| 0` |
| Aggregation.ClockStringRoundTrip | src/services/AnalyticsDbService.ts:100-119 | The time parser reads `h*3600 + m*60 + s` back from the string formatted from `h`, `m`, `s` |
| Aggregation.FloorOfQuotient | src/services/AnalyticsDbService.ts:115-116 | For non-negative `x`, `Math.floor(x / d)` is the integer quotient of `floor(x)` |
| Aggregation.JsRemFloor | src/services/AnalyticsDbService.ts:116-117 | For non-negative `x`, `x % d` is not negative and its floor is `floor(x) mod d` |
| Aggregation.FormatDurationFields | src/services/AnalyticsDbService.ts:114-119 | A non-negative average is formatted from `floor(avg)` split into hours, minutes and seconds |
| Aggregation.ClockFields | src/services/AnalyticsDbService.ts:115-117 | Those minutes and seconds lie in [0, 59] and recombine to `floor(avg)` |
| Aggregation.FormatDurationRoundTrip | src/services/AnalyticsDbService.ts:100-119 | Parsing the formatted non-negative average gives back `floor(avg)` seconds |
| Aggregation.AverageTimeRoundTrip | src/services/AnalyticsDbService.ts:100-119 | With a non-negative total, `averageTimeSpent` reads back as `floor(total / sessions)` |
| Aggregation.Step | src/services/AnalyticsDbService.ts:156-167 | One pass of the loop adds at most one key to the insertion order |
| Aggregation.TableOf | src/services/AnalyticsDbService.ts:153-168 | The map the loop builds has at most one key per record |
| Aggregation.StepTally | src/services/AnalyticsDbService.ts:156-167 | One counted record creates its key's entry if new, at the end of the insertion order, and appends its score and one session. Other entries are untouched |
| Aggregation.StepWellFormed | src/services/AnalyticsDbService.ts:156-167 | One step keeps the insertion order a duplicate-free list of the map's keys, and adds at most the record's own key |
| Aggregation.ScoresOfNonEmpty | src/services/AnalyticsDbService.ts:153-168 | A key has scores exactly when some record counts for it |
| Aggregation.TableKeys | src/services/AnalyticsDbService.ts:153-202 | The map's keys are exactly those of the records the loop does not skip: a truthy score for the user board, and a truthy `schoolId` as well for the school board. The insertion order lists each key once. Each entry has as many scores as sessions, and at least one |
| Aggregation.TableScores | src/services/AnalyticsDbService.ts:153-168 | Each entry's scores are its counted records' scores in store order |
| Aggregation.TableUsers | src/services/AnalyticsDbService.ts:201-218 | Each school's user set is the distinct `userId`s of its counted records |
| Aggregation.TableNames | src/services/AnalyticsDbService.ts:156-163 | Each entry is named after its first counted record: the `userName`, or for a school the `schoolName` or "Unknown School" |
| Aggregation.TableContents | src/services/AnalyticsDbService.ts:153-168 | The four facts above together |
| Aggregation.StudentsAtMostSessions | src/services/AnalyticsDbService.ts:209-226 | A school never has more distinct students than sessions |
| Aggregation.InsertDesc | src/services/AnalyticsDbService.ts:178 | Insertion adds exactly the element and keeps a non-increasing list non-increasing |
| Aggregation.SortDesc | src/services/AnalyticsDbService.ts:178 | Sorting by `b.averageScore - a.averageScore` gives a non-increasing permutation of the input |
| Aggregation.SortStable | src/services/AnalyticsDbService.ts:178 | The sort is stable: the entries sharing an average come out in the order they went in, as `Array.prototype.sort` keeps them for a comparator result of 0 |
| Aggregation.InsertStable | src/services/AnalyticsDbService.ts:178 | One insertion puts the new element ahead of every element with the same key and keeps their order |
| Aggregation.SortDistinct | src/services/AnalyticsDbService.ts:178 | Sorting keeps distinct ids distinct |
| Aggregation.SortDescMembers | src/services/AnalyticsDbService.ts:178 | Sorting keeps the length and the elements |
| Aggregation.SortedPrefix | src/services/AnalyticsDbService.ts:179 | `slice(0, n)` of a non-increasing list is non-increasing and holds only its elements |
| Aggregation.SlicePrefix | src/services/AnalyticsDbService.ts:179 | `slice(0, limit)` is a prefix. For a non-negative limit it is the longest prefix of at most `limit` elements. For a negative one it is the list without its last `-limit` elements, or empty when there are fewer |
| Aggregation.SortedPrefixTop | src/services/AnalyticsDbService.ts:178-179 | Whatever a prefix of a non-increasing list leaves out ranks no higher than anything the prefix keeps |
| Aggregation.SortedSliceTop | src/services/AnalyticsDbService.ts:178-179 | `sort` then `slice(0, limit)` of entries with distinct ids keeps as many entries as the limit allows, keeps the ids distinct, and keeps the top: nothing left out ranks above anything kept |
| Aggregation.UserEntriesAgree | src/services/AnalyticsDbService.ts:171-177 | Every averaged user entry carries its user's session count, mean score and first name |
| Aggregation.SchoolEntriesAgree | src/services/AnalyticsDbService.ts:221-228 | Every averaged school entry carries its school's session count, mean score, distinct-student count (at most the sessions) and first name |
| Aggregation.UserEntriesCover | src/services/AnalyticsDbService.ts:171-178 | After sorting, every user with a scored record still has an entry |
| Aggregation.SchoolEntriesCover | src/services/AnalyticsDbService.ts:221-229 | After sorting, every school with a counted record still has an entry |
| Aggregation.UserRankingsOf | src/services/AnalyticsDbService.ts:139-182 | The user leaderboard: one entry per scored user, sorted, cut by `slice(0, limit)`. It has at most `limit` entries for a non-negative limit |
| Aggregation.SchoolRankingsOf | src/services/AnalyticsDbService.ts:185-233 | The school leaderboard, built the same way from the school map |
| Aggregation.UserEntryMean | src/services/AnalyticsDbService.ts:171-177 | Every user with a scored record has an entry carrying that user's mean score |
| Aggregation.SchoolEntryMean | src/services/AnalyticsDbService.ts:221-228 | Every school with a counted record has an entry carrying that school's mean score |
| Aggregation.UserLeftOutRanksLower | src/services/AnalyticsDbService.ts:171-179 | A scored user the leaderboard leaves out averages no more than any user listed |
| Aggregation.SchoolLeftOutRanksLower | src/services/AnalyticsDbService.ts:221-230 | A school the leaderboard leaves out averages no more than any school listed |
| Aggregation.UserRankingsCorrect | src/services/AnalyticsDbService.ts:139-182 | The user leaderboard is non-increasing by average. Every entry matches that user's scored records. It has at most `limit` entries (for `limit >= 0`) and at most one per distinct scored user. That these are the top `limit` users is `UserRankingsTop` |
| Aggregation.UserRankingsTop | src/services/AnalyticsDbService.ts:139-182 | The user leaderboard is the top of the board: exactly `min(limit, users)` entries for a non-negative limit (the negative-limit length otherwise), no user twice, and every scored user left out averages no more than every user listed |
| Aggregation.UserRankingsComplete | src/services/AnalyticsDbService.ts:171-179 | With a limit at least the number of scored users, every one of them is listed |
| Aggregation.SchoolRankingsCorrect | src/services/AnalyticsDbService.ts:185-233 | The school leaderboard is non-increasing by average. Every entry matches that school's counted records, with at most as many students as sessions. It has at most `limit` entries (for `limit >= 0`) and at most one per school. That these are the top `limit` schools is `SchoolRankingsTop` |
| Aggregation.SchoolRankingsTop | src/services/AnalyticsDbService.ts:185-233 | The school leaderboard is the top of the board: exactly `min(limit, schools)` entries for a non-negative limit (the negative-limit length otherwise), no school twice, and every school with a counted record left out averages no more than every school listed |
| Aggregation.SchoolRankingsComplete | src/services/AnalyticsDbService.ts:221-230 | With a limit at least the number of schools, every school with a counted record is listed |
| AnalyticsDb.FindIndex | src/services/AnalyticsDbService.ts:12 | `findIndex` returns the first index whose id matches, or -1 when none does |
| AnalyticsDb.FindIndexAt | src/services/AnalyticsDbService.ts:12 | The first matching index is the one returned |
| AnalyticsDb.Merge | src/services/AnalyticsDbService.ts:16-20 | The spread `{...existing, ...analytics, updatedAt}` keeps the incoming id and `createdAt` and stamps the save time. Its field-by-field behaviour is `MergeLayers` |
| AnalyticsDb.MergeLayers | src/services/AnalyticsDbService.ts:16-20 | The merge takes the required fields and `createdAt` of the incoming record. It takes every optional field the incoming record has, even one holding `undefined`. It keeps the stored value of every field the incoming record lacks. `updatedAt` is the save time |
| AnalyticsDb.MergeIdempotent | src/services/AnalyticsDbService.ts:16-20 | Saving the same record twice equals saving it once, at the later time |
| AnalyticsDb.MergeOfComplete | src/services/AnalyticsDbService.ts:16-20 | An incoming record with every optional field present replaces the stored one outright, apart from `updatedAt` |
| AnalyticsDb.Filter | src/services/AnalyticsDbService.ts:36-69 | `filter` keeps exactly the records that pass, and is empty exactly when none does |
| AnalyticsDb.FilterAppend | src/services/AnalyticsDbService.ts:36-69 | Filtering distributes over concatenation, so results are in store order |
| AnalyticsDb.FilterIdempotent | src/services/AnalyticsDbService.ts:36-69 | Filtering twice by the same test is filtering once |
| AnalyticsDb.SingleRecordFilter | src/services/AnalyticsDbService.ts:36-69 | A one-record store answers with that record exactly when it passes |
| AnalyticsDb.SavedRecordJoinsFilter | src/services/AnalyticsDbService.ts:24 | An appended record joins the end of every query it matches |
| AnalyticsDb.AnalyticsDbService.constructor | src/services/AnalyticsDbService.ts:7 | The store starts empty, with unique ids |
| AnalyticsDb.AnalyticsDbService.SaveAnalytics | src/services/AnalyticsDbService.ts:10-27 | A new id is appended and returned as given. For a stored id, the record at the first match becomes the merge and is returned, and the length is unchanged. Ids stay unique. A lookup of the id finds the returned record |
| AnalyticsDb.AnalyticsDbService.GetAnalyticsById | src/services/AnalyticsDbService.ts:30-33 | A stored record with that id, or None exactly when no record has it. With unique ids it is the only match |
| AnalyticsDb.AnalyticsDbService.GetAnalyticsByUser | src/services/AnalyticsDbService.ts:36-38 | Exactly the stored records of that user |
| AnalyticsDb.AnalyticsDbService.GetAnalyticsByGame | src/services/AnalyticsDbService.ts:41-43 | Exactly the stored records of that game |
| AnalyticsDb.AnalyticsDbService.GetAnalyticsBySchool | src/services/AnalyticsDbService.ts:46-48 | Exactly the stored records whose `schoolId` is set to that value |
| AnalyticsDb.AnalyticsDbService.GetAnalyticsByGrade | src/services/AnalyticsDbService.ts:51-53 | Exactly the stored records whose `gradeLevel` is set to that value |
| AnalyticsDb.AnalyticsDbService.GetAnalyticsBySubject | src/services/AnalyticsDbService.ts:56-58 | Exactly the stored records whose `subject` is set to that value |
| AnalyticsDb.AnalyticsDbService.GetAnalyticsByDateRange | src/services/AnalyticsDbService.ts:61-69 | Exactly the records with `start <= createdAt <= end`, both ends inclusive. Nothing matches when a bound is not a date |
| AnalyticsDb.AnalyticsDbService.GetAggregateStats | src/services/AnalyticsDbService.ts:72-136 | One session per stored record, "00:00:00" for an empty store, both rates in [0, 100] |
| AnalyticsDb.AnalyticsDbService.GetUserRankings | src/services/AnalyticsDbService.ts:139-182 | The loop over the store builds the fold `TableOf`. The result is the user leaderboard of the stored records: sorted, each entry agreeing with the records, at most `limit` long |
| AnalyticsDb.AnalyticsDbService.GetSchoolRankings | src/services/AnalyticsDbService.ts:185-233 | The same for the school leaderboard |
| Api.AnalyticsApi.constructor | src/api/analyticsApi.ts:6-7 | One fresh, empty store shared by every operation |
| Api.AnalyticsApi.ProcessXAPIStatement | src/api/analyticsApi.ts:10-21 | Returns what the store returns for the normalized record. A new id grows the store by exactly that record. The store then finds the returned record under the statement's (filled-in) id |
| Api.AnalyticsApi.ProcessSCORMData | src/api/analyticsApi.ts:24-35 | The SCORM record is saved under the fresh id. When that id is new to the store, the store grows by exactly one |
| Api.AnalyticsApi.GetAnalyticsByUser | src/api/analyticsApi.ts:38-40 | Exactly the shared store's records of that user |
| Api.AnalyticsApi.GetAnalyticsByGame | src/api/analyticsApi.ts:43-45 | Exactly the shared store's records of that game |
| Api.AnalyticsApi.GetAnalyticsBySchool | src/api/analyticsApi.ts:48-50 | Exactly the shared store's records of that school |
| Api.AnalyticsApi.GetAggregateStats | src/api/analyticsApi.ts:53-55 | The store's summary: one session per record, rates in [0, 100] |
| Api.AnalyticsApi.GetUserRankings | src/api/analyticsApi.ts:58-60 | The store's user leaderboard with `limit` defaulting to 10 |
| Api.AnalyticsApi.GetSchoolRankings | src/api/analyticsApi.ts:63-65 | The store's school leaderboard with `limit` defaulting to 10 |
| Api.IngestIntoEmptyStore | src/api/analyticsApi.ts:10-45 | End to end: one statement ingested into a fresh store is the only record the user and game queries then return, keyed by the statement's actor and activity |

## Left out

- `sendToLRS` (src/services/xAPIService.ts:275-285) and the endpoint and Basic-auth setup in the `XAPIService` constructor (src/services/xAPIService.ts:214-221) are not modelled. They are network I/O against an external Learning Record Store and are never called. So `XAPIService` has no state of its own here and is a module of functions.
- `uuidv4()` and `new Date()` are parameters: one `freshId` and one `now` per operation. The source reads the clock up to three times while building a record. The model assumes all readings are equal.
- `limit` is an `int` in `UserRankingsOf`, `SchoolRankingsOf` and the `GetUserRankings`/`GetSchoolRankings` methods, but a JavaScript number in the source. `slice(0, limit)` truncates it toward zero. It treats NaN as 0, +Infinity as no bound and -Infinity as an empty result. So each such limit acts like an integer limit the model takes: the truncated value, 0 for NaN, and for ±Infinity any integer whose size is at least the board's length, with the same sign. No caller in the source passes a fractional limit.
- Timestamps are integers. `createdAt` and `updatedAt` are milliseconds rather than ISO strings. `startTime` keeps the ISO string it is given. The date-range bounds are already-parsed milliseconds, with None standing for a date string that does not parse (NaN).
- Console logging, `async`/`Promise` wrapping, and the `try`/`catch` blocks that only log and rethrow are not modelled.
- The `processSCORMData` of `XAPIService` (src/services/xAPIService.ts:256-272) only logs and calls the converter. The facade calls `ConvertSCORMToAnalytics` directly.
- `processXAPIStatement` writes the filled-in id and timestamp into the caller's statement object. The model returns the filled statement as a value (`filled`), so aliasing of that object is not captured.
- The store keeps a reference to the object it is given. Later changes to that object by the caller are not modelled, since records are values.
- Scores and averages are exact `real`s, not IEEE-754 doubles. Rounding, NaN and Infinity do not arise.
- XApiService.ScormScore: for a non-zero raw score over a zero maximum, the source computes Infinity when the raw score is positive and -Infinity when it is negative. The model leaves the percentage `undefined` there, and the lemma states nothing for either case. In the source that value then enters `averageScore` and both leaderboards. Infinity ranks first on a leaderboard and -Infinity ranks last, and the average becomes ±Infinity (NaN when both occur). The model leaves such a record out of the average score and out of both leaderboards, since an undefined percentage is falsy.
- Strings.ParseIntToString: `parseInt` is exact on arbitrarily long digit strings. JavaScript loses precision beyond 2^53.
- The input datatypes carry only what the converters read. The verb, the score minima, and interaction weighting and latency are kept as fields but are unused. Other fields of the xAPI statement and the SCORM block are not in the model.
- The Supabase upload function and the React pages and components are not part of this model. They are I/O and UI rendering over mock data.
