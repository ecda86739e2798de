/**
 * What the aggregation members of src/services/AnalyticsDbService.ts compute,
 * as functions of the stored records: the summary statistics of
 * `getAggregateStats` (with the `HH:MM:SS` parsing and formatting), and the
 * grouping, averaging, sorting and truncation behind `getUserRankings` and
 * `getSchoolRankings`. The store's methods are proved equal to these.
 */
module Aggregation {
  import opened JsValues
  import opened Strings
  import opened XApiService

  // ================================================================ numbers

  function Sum(xs: seq<real>): (total: real) {
    if |xs| == 0 then 0.0 else Sum(xs[..|xs| - 1]) + xs[|xs| - 1]
  }

  /** `xs.reduce((sum, x) => sum + x, 0) / xs.length` for a non-empty list. */
  function Mean(xs: seq<real>): real
    requires |xs| > 0
  {
    Sum(xs) / |xs| as real
  }

  /** A sum of values in [lo, hi] lies between `|xs| * lo` and `|xs| * hi`. */
  lemma {:induction false} SumBounds(xs: seq<real>, lo: real, hi: real)
    requires forall k | 0 <= k < |xs| :: lo <= xs[k] <= hi
    ensures |xs| as real * lo <= Sum(xs) <= |xs| as real * hi
  {
    if |xs| > 0 {
      SumBounds(xs[..|xs| - 1], lo, hi);
    }
  }

  /** A mean lies within any bounds that hold of every value. */
  lemma MeanBounds(xs: seq<real>, lo: real, hi: real)
    requires |xs| > 0
    requires forall k | 0 <= k < |xs| :: lo <= xs[k] <= hi
    ensures lo <= Mean(xs) <= hi
  {
    SumBounds(xs, lo, hi);
    var n := |xs| as real;
    assert Sum(xs) / n >= (n * lo) / n;
    assert Sum(xs) / n <= (n * hi) / n;
  }

  // ================================================================ getAggregateStats

  datatype AggregateStats = AggregateStats(
    totalSessions: nat,
    averageScore: real,
    averageTimeSpent: string,
    completionRate: real,
    passRate: real)

  /** `records.filter(a => a.percentageScore !== undefined).map(a => a.percentageScore)`. */
  function DefinedScores(records: seq<GameAnalytics>): (xs: seq<real>)
    ensures |xs| <= |records|
  {
    if |records| == 0 then []
    else
      var last := records[|records| - 1];
      DefinedScores(records[..|records| - 1]) + (if last.percentageScore.Defined? then [last.percentageScore.value] else [])
  }

  /** `records.filter(a => a.completed).length`. */
  function CompletedCount(records: seq<GameAnalytics>): (n: nat)
    ensures n <= |records|
  {
    if |records| == 0 then 0
    else CompletedCount(records[..|records| - 1]) + (if TruthyBool(records[|records| - 1].completed.Get()) then 1 else 0)
  }

  /** `records.filter(a => a.passed).length`. */
  function PassedCount(records: seq<GameAnalytics>): (n: nat)
    ensures n <= |records|
  {
    if |records| == 0 then 0
    else PassedCount(records[..|records| - 1]) + (if TruthyBool(records[|records| - 1].passed.Get()) then 1 else 0)
  }

  /**
   * The seconds one record adds to the total: a falsy `totalTimeSpent`, or one
   * that does not split into exactly three ':' parts, adds 0; otherwise
   * `h * 3600 + m * 60 + s`, each part read by `parseInt(p, 10) || 0`.
   */
  function DurationSeconds(time: Prop<string>): (seconds: int)
    ensures seconds != 0 ==> TruthyString(time.Get()) && |Split(time.value, ':')| == 3
  {
    if !TruthyString(time.Get()) then 0
    else
      var parts := Split(time.value, ':');
      if |parts| != 3 then 0
      else ParseIntOrZero(parts[0]) * 3600 + ParseIntOrZero(parts[1]) * 60 + ParseIntOrZero(parts[2])
  }

  /** The `reduce` over all records. */
  function TotalSeconds(records: seq<GameAnalytics>): int {
    if |records| == 0 then 0
    else TotalSeconds(records[..|records| - 1]) + DurationSeconds(records[|records| - 1].totalTimeSpent)
  }

  /** JavaScript's `x / d` truncated toward zero. */
  function Trunc(x: real): int {
    if x >= 0.0 then x.Floor else -((-x).Floor)
  }

  /** JavaScript's `x % d` on numbers: the remainder takes the sign of `x`. */
  function JsRem(x: real, d: real): real
    requires d > 0.0
  {
    x - d * Trunc(x / d) as real
  }

  /** Three integers written `HH:MM:SS`, each zero-padded to at least two places. */
  function ClockString(hours: int, minutes: int, seconds: int): string {
    PadStart2(IntToString(hours)) + ":" + PadStart2(IntToString(minutes)) + ":" + PadStart2(IntToString(seconds))
  }

  /**
   * The formatting of the average: `floor(avg / 3600)`,
   * `floor((avg % 3600) / 60)` and `floor(avg % 60)`.
   */
  function FormatDuration(avgSeconds: real): (clock: string)
    ensures |Split(clock, ':')| == 3
  {
    var hours := (avgSeconds / 3600.0).Floor;
    var minutes := (JsRem(avgSeconds, 3600.0) / 60.0).Floor;
    var seconds := JsRem(avgSeconds, 60.0).Floor;
    ClockStringParts(hours, minutes, seconds);
    ClockString(hours, minutes, seconds)
  }

  /** `(count / total) * 100`, a share of the sessions as a percentage. */
  function Percent(count: nat, total: nat): (r: real)
    requires 0 < total && count <= total
    ensures 0.0 <= r <= 100.0
    ensures count == total <==> r == 100.0
  {
    var share := count as real / total as real;
    assert share <= 1.0;
    assert count == total <==> share == 1.0;
    share * 100.0
  }

  /** The summary `getAggregateStats` returns for these records. */
  function AggregateStatsOf(records: seq<GameAnalytics>): (stats: AggregateStats)
    ensures stats.totalSessions == |records|
    ensures |records| == 0 ==> stats == AggregateStats(0, 0.0, "00:00:00", 0.0, 0.0)
    ensures 0.0 <= stats.completionRate <= 100.0 && 0.0 <= stats.passRate <= 100.0
  {
    var n := |records|;
    if n == 0 then AggregateStats(0, 0.0, "00:00:00", 0.0, 0.0)
    else
      var scores := DefinedScores(records);
      var averageScore := if |scores| > 0 then Mean(scores) else 0.0;
      var averageTimeSpent := FormatDuration(TotalSeconds(records) as real / n as real);
      AggregateStats(n, averageScore, averageTimeSpent, Percent(CompletedCount(records), n), Percent(PassedCount(records), n))
  }

  // ---------------------------------------------------------------- statistics properties

  /** The defined percentages are exactly those of the records that have one, in order. */
  lemma {:induction false} DefinedScoresAre(records: seq<GameAnalytics>)
    ensures forall x :: x in DefinedScores(records) <==>
              exists i | 0 <= i < |records| :: records[i].percentageScore == Defined(x)
  {
    if |records| > 0 {
      var init := records[..|records| - 1];
      DefinedScoresAre(init);
      forall x ensures x in DefinedScores(records) <==>
                       exists i | 0 <= i < |records| :: records[i].percentageScore == Defined(x)
      {
        if x in DefinedScores(init) {
          var i :| 0 <= i < |init| && init[i].percentageScore == Defined(x);
          assert records[i] == init[i];
        }
        if exists i | 0 <= i < |records| :: records[i].percentageScore == Defined(x) {
          var i :| 0 <= i < |records| && records[i].percentageScore == Defined(x);
          if i < |init| {
            assert init[i] == records[i];
          }
        }
      }
    }
  }

  /** With every defined percentage in [0, 100], so is the average score. */
  lemma AverageScoreBounded(records: seq<GameAnalytics>)
    requires forall i | 0 <= i < |records| && records[i].percentageScore.Defined? ::
               0.0 <= records[i].percentageScore.value <= 100.0
    ensures 0.0 <= AggregateStatsOf(records).averageScore <= 100.0
  {
    var scores := DefinedScores(records);
    if |records| > 0 && |scores| > 0 {
      DefinedScoresAre(records);
      forall k | 0 <= k < |scores| ensures 0.0 <= scores[k] <= 100.0 {
        assert scores[k] in scores;
      }
      MeanBounds(scores, 0.0, 100.0);
    }
  }

  /**
   * A record without a percentage is left out of the average score (neither
   * numerator nor denominator), though it counts as a session.
   */
  lemma UnscoredRecordKeepsAverage(records: seq<GameAnalytics>, a: GameAnalytics)
    requires !a.percentageScore.Defined?
    ensures AggregateStatsOf(records + [a]).averageScore == AggregateStatsOf(records).averageScore
    ensures AggregateStatsOf(records + [a]).totalSessions == AggregateStatsOf(records).totalSessions + 1
  {
    var s := records + [a];
    assert s[..|s| - 1] == records;
    assert DefinedScores(s) == DefinedScores(records);
    if |records| == 0 {
      assert DefinedScores(records) == [];
    }
  }

  /**
   * A record whose time is missing or malformed adds nothing to the total
   * time but still counts in the divisor, so it pulls the average down.
   */
  lemma MalformedTimeDilutesAverage(records: seq<GameAnalytics>, a: GameAnalytics)
    requires !TruthyString(a.totalTimeSpent.Get()) || |Split(a.totalTimeSpent.value, ':')| != 3
    ensures AggregateStatsOf(records + [a]).averageTimeSpent
            == FormatDuration(TotalSeconds(records) as real / (|records| + 1) as real)
  {
    var s := records + [a];
    assert s[..|s| - 1] == records;
  }

  /** Neither part of a clock string holds a ':'. */
  lemma NoColonInPadded(n: int)
    ensures ':' !in PadStart2(IntToString(n))
  {
    NoColonInInt(n);
    PadNoColon(IntToString(n));
  }

  /** An integer's decimal form holds no ':'. */
  lemma NoColonInInt(n: int)
    ensures ':' !in IntToString(n)
  {
    var s := IntToString(n);
    if n >= 0 {
      assert forall k | 0 <= k < |s| :: IsDigit(s[k]);
    } else {
      var ds := NatToString(-n);
      assert s == "-" + ds;
      assert forall k | 1 <= k < |s| :: s[k] == ds[k - 1];
    }
  }

  /** Padding with '0's adds no ':'. */
  lemma PadNoColon(s: string)
    requires ':' !in s
    ensures ':' !in PadStart2(s)
  {
    var p := PadStart2(s);
    var z := |p| - |s|;
    forall k | 0 <= k < |p| ensures p[k] != ':' {
      if k >= z {
        assert p[k] == p[z..][k - z];
      }
    }
  }

  /** A clock string splits at ':' into its three padded parts. */
  lemma ClockStringParts(hours: int, minutes: int, seconds: int)
    ensures Split(ClockString(hours, minutes, seconds), ':')
            == [PadStart2(IntToString(hours)), PadStart2(IntToString(minutes)), PadStart2(IntToString(seconds))]
  {
    var h, m, s := PadStart2(IntToString(hours)), PadStart2(IntToString(minutes)), PadStart2(IntToString(seconds));
    NoColonInPadded(hours);
    NoColonInPadded(minutes);
    NoColonInPadded(seconds);
    SplitThree(h, m, s, ':');
    assert ClockString(hours, minutes, seconds) == h + [':'] + m + [':'] + s;
  }

  /** Three separator-free pieces joined by the separator split back into those pieces. */
  lemma SplitThree(a: string, b: string, c: string, sep: char)
    requires sep !in a && sep !in b && sep !in c
    ensures Split(a + [sep] + b + [sep] + c, sep) == [a, b, c]
  {
    JoinThree(a, b, c, sep);
    var parts := [a, b, c];
    assert forall k | 0 <= k < |parts| :: sep !in parts[k] by {
      assert parts[0] == a && parts[1] == b && parts[2] == c;
    }
    SplitJoin(parts, sep);
  }

  lemma JoinThree(a: string, b: string, c: string, sep: char)
    ensures Join([a, b, c], sep) == a + [sep] + b + [sep] + c
  {
    assert [a, b][..1] == [a];
    assert Join([a, b], sep) == a + [sep] + b;
    assert [a, b, c][..2] == [a, b];
  }

  /** Parsing reads back the seconds a clock string was written from. */
  lemma ClockStringRoundTrip(hours: int, minutes: int, seconds: int)
    ensures DurationSeconds(Defined(ClockString(hours, minutes, seconds))) == hours * 3600 + minutes * 60 + seconds
  {
    var h, m, s := PadStart2(IntToString(hours)), PadStart2(IntToString(minutes)), PadStart2(IntToString(seconds));
    ClockStringParts(hours, minutes, seconds);
    DurationOfParts(ClockString(hours, minutes, seconds), h, m, s);
    ParsePaddedIntToString(hours);
    ParsePaddedIntToString(minutes);
    ParsePaddedIntToString(seconds);
  }

  /** A time that splits into three parts is read part by part. */
  lemma DurationOfParts(time: string, h: string, m: string, s: string)
    requires Split(time, ':') == [h, m, s]
    ensures DurationSeconds(Defined(time)) == ParseIntOrZero(h) * 3600 + ParseIntOrZero(m) * 60 + ParseIntOrZero(s)
  {
  }

  /** For a non-negative `x`, `floor(x / d)` is the integer quotient of `floor(x)`. */
  lemma FloorOfQuotient(x: real, d: int)
    requires x >= 0.0 && d > 0
    ensures (x / d as real).Floor == x.Floor / d
  {
    var f, q := x.Floor, x.Floor / d;
    assert q * d <= f < q * d + d by {
      assert f == q * d + f % d && 0 <= f % d < d;
    }
    var dr, y := d as real, x / d as real;
    var lo, hi := q as real, (q + 1) as real;
    assert lo * dr <= x by {
      assert lo * dr == (q * d) as real;
    }
    assert x < hi * dr by {
      assert hi * dr == (q * d + d) as real;
    }
    assert y * dr == x;
    ScaleBounds(lo, y, hi, dr, x);
  }

  /** Bounds on `y * d` for a positive `d` are bounds on `y`. */
  lemma ScaleBounds(lo: real, y: real, hi: real, d: real, p: real)
    requires d > 0.0 && y * d == p && lo * d <= p && p < hi * d
    ensures lo <= y < hi
  {
    if y < lo {
      assert false;
    }
    if y >= hi {
      assert false;
    }
  }

  /**
   * For a non-negative average, the formatted string holds `floor(avg)`
   * split into hours, minutes in [0, 59] and seconds in [0, 59].
   */
  lemma FormatDurationFields(avg: real)
    requires avg >= 0.0
    ensures var f := avg.Floor;
      FormatDuration(avg) == ClockString(f / 3600, (f % 3600) / 60, f % 60)
  {
    var f := avg.Floor;
    var h := (avg / 3600.0).Floor;
    var m := (JsRem(avg, 3600.0) / 60.0).Floor;
    var s := JsRem(avg, 60.0).Floor;
    assert h == f / 3600 by {
      FloorOfQuotient(avg, 3600);
    }
    assert m == (f % 3600) / 60 by {
      JsRemFloor(avg, 3600);
      FloorOfQuotient(JsRem(avg, 3600.0), 60);
    }
    assert s == f % 60 by {
      JsRemFloor(avg, 60);
    }
  }

  /** Hours, minutes below 60 and seconds below 60 that make up `f` seconds. */
  lemma ClockFields(f: int)
    ensures 0 <= (f % 3600) / 60 < 60 && 0 <= f % 60 < 60
    ensures f == (f / 3600) * 3600 + ((f % 3600) / 60) * 60 + f % 60
  {
    assert (f % 3600) % 60 == f % 60;
  }

  /** For a non-negative `x`, `x % d` is not negative and its floor is `floor(x) % d`. */
  lemma JsRemFloor(x: real, d: int)
    requires x >= 0.0 && d > 0
    ensures JsRem(x, d as real) >= 0.0
    ensures JsRem(x, d as real).Floor == x.Floor % d
  {
    FloorOfQuotient(x, d);
    var f, q := x.Floor, x.Floor / d;
    assert Trunc(x / d as real) == q;
    assert JsRem(x, d as real) == x - (q * d) as real;
    assert q * d <= f;
  }

  /**
   * A non-negative average is written as `floor(avg)` seconds split into
   * hours, minutes in [0, 59] and seconds in [0, 59], and the parser reads
   * the same number back.
   */
  lemma FormatDurationRoundTrip(avg: real)
    requires avg >= 0.0
    ensures var f := avg.Floor;
      && FormatDuration(avg) == ClockString(f / 3600, (f % 3600) / 60, f % 60)
      && 0 <= (f % 3600) / 60 < 60 && 0 <= f % 60 < 60
      && DurationSeconds(Defined(FormatDuration(avg))) == f
  {
    var f := avg.Floor;
    var h, m, sec := f / 3600, (f % 3600) / 60, f % 60;
    FormatDurationFields(avg);
    ClockFields(f);
    ClockStringRoundTrip(h, m, sec);
    assert DurationSeconds(Defined(ClockString(h, m, sec))) == f;
  }

  /** Keeps the division's sign fact out of the round-trip proof's context. */
  lemma QuotientNonNegative(x: int, n: int)
    requires x >= 0 && n > 0
    ensures x as real / n as real >= 0.0
  {
  }

  /**
   * When the total time is not negative, `averageTimeSpent` reads back (by
   * the same parser) as the floor of total seconds over sessions.
   */
  lemma AverageTimeRoundTrip(records: seq<GameAnalytics>)
    requires |records| > 0 && TotalSeconds(records) >= 0
    ensures DurationSeconds(Defined(AggregateStatsOf(records).averageTimeSpent))
            == (TotalSeconds(records) as real / |records| as real).Floor
  {
    var avg := TotalSeconds(records) as real / |records| as real;
    QuotientNonNegative(TotalSeconds(records), |records|);
    assert AggregateStatsOf(records).averageTimeSpent == FormatDuration(avg);
    FormatDurationRoundTrip(avg);
  }

  // ================================================================ rankings

  /** Which of the two leaderboards a grouping serves. */
  datatype Leaderboard = ByUser | BySchool

  /** `a.percentageScore` is truthy: defined and non-zero. */
  predicate Scored(a: GameAnalytics) {
    TruthyNumber(a.percentageScore.Get())
  }

  /**
   * The map key a record is tallied under, or None when the loop
   * `continue`s past it: users need a truthy score, schools a truthy
   * `schoolId` as well.
   */
  function KeyOf(board: Leaderboard, a: GameAnalytics): (key: Option<string>)
    ensures key.Some? ==> Scored(a) && a.percentageScore.Defined?
  {
    match board
    case ByUser => if Scored(a) then Some(a.userId) else None
    case BySchool => if TruthyString(a.schoolId.Get()) && Scored(a) then Some(a.schoolId.value) else None
  }

  /** The name a group takes from its first record: `userName`, or `schoolName || 'Unknown School'`. */
  function LabelOf(board: Leaderboard, a: GameAnalytics): (name: string) {
    match board
    case ByUser => a.userName
    case BySchool => OrElse(a.schoolName.Get(), "Unknown School")
  }

  /** One value of the `Map`: key, name, scores, distinct users (schools only), session count. */
  datatype Tally = Tally(key: string, name: string, scores: seq<real>, users: set<string>, sessions: nat)

  /** A JavaScript `Map`: its entries and the order their keys were first inserted in. */
  datatype Table = Table(tallies: map<string, Tally>, order: seq<string>)

  const EmptyTable: Table := Table(map[], [])

  /** One pass of the `for (const a of this.analytics)` body. */
  function Step(t: Table, board: Leaderboard, a: GameAnalytics): (t': Table)
    ensures |t'.order| <= |t.order| + 1
  {
    match KeyOf(board, a)
    case None => t
    case Some(k) =>
      var t1 := if k in t.tallies then t
                else Table(t.tallies[k := Tally(k, LabelOf(board, a), [], {}, 0)], t.order + [k]);
      var g := t1.tallies[k];
      var users := if board == BySchool then g.users + {a.userId} else g.users;
      t1.(tallies := t1.tallies[k := g.(scores := g.scores + [a.percentageScore.value], users := users,
                                        sessions := g.sessions + 1)])
  }

  /** The `Map` after the loop has run over `records`. */
  function TableOf(records: seq<GameAnalytics>, board: Leaderboard): (t: Table)
    ensures |t.order| <= |records|
  {
    if |records| == 0 then EmptyTable
    else Step(TableOf(records[..|records| - 1], board), board, records[|records| - 1])
  }

  // ---------------------------------------------------------------- reference definitions

  /** Some record is tallied under `k`. */
  ghost predicate HasKey(records: seq<GameAnalytics>, board: Leaderboard, k: string) {
    exists i | 0 <= i < |records| :: KeyOf(board, records[i]) == Some(k)
  }

  /** `i` is the first record tallied under `k`. */
  ghost predicate FirstWithKey(records: seq<GameAnalytics>, board: Leaderboard, k: string, i: int) {
    0 <= i < |records| && KeyOf(board, records[i]) == Some(k)
    && forall j | 0 <= j < i :: KeyOf(board, records[j]) != Some(k)
  }

  /** The scores of the records tallied under `k`, in store order. */
  function ScoresOf(records: seq<GameAnalytics>, board: Leaderboard, k: string): seq<real> {
    if |records| == 0 then []
    else
      var last := records[|records| - 1];
      ScoresOf(records[..|records| - 1], board, k) + (if KeyOf(board, last) == Some(k) then [last.percentageScore.value] else [])
  }

  /** The distinct users among the records of school `k`. */
  function UsersOf(records: seq<GameAnalytics>, k: string): set<string> {
    set i | 0 <= i < |records| && KeyOf(BySchool, records[i]) == Some(k) :: records[i].userId
  }

  predicate Distinct(keys: seq<string>) {
    forall i, j | 0 <= i < j < |keys| :: keys[i] != keys[j]
  }

  /** The shape every table the loop builds keeps. */
  ghost predicate WellFormed(t: Table) {
    && Distinct(t.order)
    && (forall k :: k in t.tallies <==> k in t.order)
    && (forall k | k in t.tallies :: t.tallies[k].key == k && |t.tallies[k].scores| == t.tallies[k].sessions > 0)
  }

  /** Extending the records by one extends `ScoresOf` by that record's score, if it is tallied under `k`. */
  lemma ScoresOfSnoc(records: seq<GameAnalytics>, board: Leaderboard, a: GameAnalytics, k: string)
    ensures ScoresOf(records + [a], board, k)
            == ScoresOf(records, board, k) + (if KeyOf(board, a) == Some(k) then [a.percentageScore.value] else [])
  {
    assert (records + [a])[..|records|] == records;
  }

  /** A key has scores exactly when some record is tallied under it. */
  lemma {:induction false} ScoresOfNonEmpty(records: seq<GameAnalytics>, board: Leaderboard, k: string)
    ensures |ScoresOf(records, board, k)| > 0 <==> HasKey(records, board, k)
  {
    if |records| > 0 {
      var init := records[..|records| - 1];
      ScoresOfNonEmpty(init, board, k);
      if HasKey(init, board, k) {
        var i :| 0 <= i < |init| && KeyOf(board, init[i]) == Some(k);
        assert records[i] == init[i];
      }
      if HasKey(records, board, k) && KeyOf(board, records[|records| - 1]) != Some(k) {
        var i :| 0 <= i < |records| && KeyOf(board, records[i]) == Some(k);
        assert init[i] == records[i];
      }
    }
  }

  /** Some record of `records + [a]` is tallied under `k` iff one of `records` is, or `a` is. */
  lemma HasKeySnoc(records: seq<GameAnalytics>, board: Leaderboard, a: GameAnalytics, k: string)
    ensures HasKey(records + [a], board, k) <==> HasKey(records, board, k) || KeyOf(board, a) == Some(k)
  {
    var s := records + [a];
    if HasKey(records, board, k) {
      var i :| 0 <= i < |records| && KeyOf(board, records[i]) == Some(k);
      assert s[i] == records[i];
    }
    if KeyOf(board, a) == Some(k) {
      assert s[|records|] == a;
    }
  }

  /** The students of school `k` in `records + [a]`: those of `records`, and `a`'s if it counts for `k`. */
  lemma UsersOfSnoc(records: seq<GameAnalytics>, a: GameAnalytics, k: string)
    ensures UsersOf(records + [a], k)
            == UsersOf(records, k) + (if KeyOf(BySchool, a) == Some(k) then {a.userId} else {})
  {
    var s := records + [a];
    var added := if KeyOf(BySchool, a) == Some(k) then {a.userId} else {};
    forall u | u in UsersOf(s, k) ensures u in UsersOf(records, k) + added {
      var i :| 0 <= i < |s| && KeyOf(BySchool, s[i]) == Some(k) && s[i].userId == u;
      if i < |records| {
        assert records[i] == s[i];
      }
    }
    forall u | u in UsersOf(records, k) ensures u in UsersOf(s, k) {
      var i :| 0 <= i < |records| && KeyOf(BySchool, records[i]) == Some(k) && records[i].userId == u;
      assert s[i] == records[i];
    }
    if KeyOf(BySchool, a) == Some(k) {
      assert s[|records|] == a;
    }
  }

  /** What one counted record does to the table: its key's tally gains its score. */
  lemma StepTally(t: Table, board: Leaderboard, a: GameAnalytics, k: string)
    requires KeyOf(board, a) == Some(k)
    ensures var t' := Step(t, board, a);
      && t'.order == (if k in t.tallies then t.order else t.order + [k])
      && t'.tallies.Keys == t.tallies.Keys + {k}
      && (forall k2 | k2 in t.tallies && k2 != k :: t'.tallies[k2] == t.tallies[k2])
      && t'.tallies[k].key == (if k in t.tallies then t.tallies[k].key else k)
      && t'.tallies[k].scores == (if k in t.tallies then t.tallies[k].scores else []) + [a.percentageScore.value]
      && t'.tallies[k].sessions == (if k in t.tallies then t.tallies[k].sessions else 0) + 1
  {
  }

  /** One pass keeps the table well formed, adding the record's key if it is new. */
  lemma StepWellFormed(t: Table, board: Leaderboard, a: GameAnalytics)
    requires WellFormed(t)
    ensures WellFormed(Step(t, board, a))
    ensures forall k :: k in Step(t, board, a).tallies <==> k in t.tallies || KeyOf(board, a) == Some(k)
  {
    match KeyOf(board, a)
    case None =>
    case Some(k) =>
      StepTally(t, board, a, k);
      var order := Step(t, board, a).order;
      if k !in t.tallies {
        assert order == t.order + [k];
        forall i, j | 0 <= i < j < |order| ensures order[i] != order[j] {
          assert order[i] == t.order[i];
          if j < |t.order| {
            assert order[j] == t.order[j];
          }
        }
      }
  }

  /**
   * The keys of the table the loop builds: in first-seen order without
   * repeats, one tally per key that has a counted record, each with as many
   * scores as sessions and at least one.
   */
  lemma {:induction false} TableKeys(records: seq<GameAnalytics>, board: Leaderboard)
    ensures var t := TableOf(records, board);
      && WellFormed(t)
      && (forall k :: k in t.tallies <==> HasKey(records, board, k))
  {
    if |records| > 0 {
      var init := records[..|records| - 1];
      var a := records[|records| - 1];
      TableKeys(init, board);
      StepWellFormed(TableOf(init, board), board, a);
      assert records == init + [a];
      forall k ensures HasKey(records, board, k) <==> HasKey(init, board, k) || KeyOf(board, a) == Some(k) {
        HasKeySnoc(init, board, a, k);
      }
    }
  }

  /** Each tally's scores are those of the records counted under its key, in store order. */
  lemma {:induction false} TableScores(records: seq<GameAnalytics>, board: Leaderboard)
    ensures var t := TableOf(records, board);
      forall k | k in t.tallies :: t.tallies[k].scores == ScoresOf(records, board, k)
  {
    if |records| > 0 {
      var init := records[..|records| - 1];
      var a := records[|records| - 1];
      TableScores(init, board);
      var t0, t := TableOf(init, board), TableOf(records, board);
      match KeyOf(board, a)
      case None =>
        forall k | k in t.tallies ensures t.tallies[k].scores == ScoresOf(records, board, k) {
          assert records == init + [a];
          ScoresOfSnoc(init, board, a, k);
        }
      case Some(key) =>
        StepTally(t0, board, a, key);
        forall k | k in t.tallies ensures t.tallies[k].scores == ScoresOf(records, board, k) {
          assert records == init + [a];
          ScoresOfSnoc(init, board, a, k);
          if k == key && key !in t0.tallies {
            TableKeys(init, board);
            ScoresOfNonEmpty(init, board, key);
          }
        }
    }
  }

  /** The distinct students the school table keeps (the user table keeps none). */
  lemma {:induction false} TableUsers(records: seq<GameAnalytics>, board: Leaderboard)
    ensures var t := TableOf(records, board);
      forall k | k in t.tallies :: t.tallies[k].users == (if board == BySchool then UsersOf(records, k) else {})
  {
    if |records| > 0 {
      var init := records[..|records| - 1];
      var a := records[|records| - 1];
      assert records == init + [a];
      TableUsers(init, board);
      TableKeys(init, board);
      forall k | board == BySchool
        ensures UsersOf(records, k) == UsersOf(init, k) + (if KeyOf(board, a) == Some(k) then {a.userId} else {})
      {
        UsersOfSnoc(init, a, k);
      }
      if KeyOf(board, a).Some? && board == BySchool && KeyOf(board, a).value !in TableOf(init, board).tallies {
        assert UsersOf(init, KeyOf(board, a).value) == {};
      }
    }
  }

  /** Each tally is named after the first record counted under its key. */
  lemma {:induction false} TableNames(records: seq<GameAnalytics>, board: Leaderboard)
    ensures var t := TableOf(records, board);
      forall k | k in t.tallies ::
        exists i | FirstWithKey(records, board, k, i) :: t.tallies[k].name == LabelOf(board, records[i])
  {
    if |records| > 0 {
      var init := records[..|records| - 1];
      var a := records[|records| - 1];
      var n := |records| - 1;
      assert records == init + [a];
      TableNames(init, board);
      TableKeys(init, board);
      var t0 := TableOf(init, board);
      forall k, i | FirstWithKey(init, board, k, i) ensures FirstWithKey(records, board, k, i) {
        forall j | 0 <= j < i ensures KeyOf(board, records[j]) != Some(k) {
          assert records[j] == init[j];
        }
      }
      if KeyOf(board, a).Some? && KeyOf(board, a).value !in t0.tallies {
        var key := KeyOf(board, a).value;
        assert FirstWithKey(records, board, key, n) by {
          forall j | 0 <= j < n ensures KeyOf(board, records[j]) != Some(key) {
            assert records[j] == init[j];
          }
        }
      }
    }
  }

  /** What `TableKeys`, `TableScores`, `TableUsers` and `TableNames` establish together. */
  lemma TableContents(records: seq<GameAnalytics>, board: Leaderboard)
    ensures var t := TableOf(records, board);
      && WellFormed(t)
      && (forall k :: k in t.tallies <==> HasKey(records, board, k))
      && (forall k | k in t.tallies :: t.tallies[k].scores == ScoresOf(records, board, k))
      && (forall k | k in t.tallies ::
            t.tallies[k].users == (if board == BySchool then UsersOf(records, k) else {}))
      && (forall k | k in t.tallies ::
            exists i | FirstWithKey(records, board, k, i) :: t.tallies[k].name == LabelOf(board, records[i]))
  {
    TableKeys(records, board);
    TableScores(records, board);
    TableUsers(records, board);
    TableNames(records, board);
  }

  /** A school never has more distinct students than sessions. */
  lemma {:induction false} StudentsAtMostSessions(records: seq<GameAnalytics>, k: string)
    ensures |UsersOf(records, k)| <= |ScoresOf(records, BySchool, k)|
  {
    if |records| > 0 {
      var init := records[..|records| - 1];
      var a := records[|records| - 1];
      var n := |records| - 1;
      StudentsAtMostSessions(init, k);
      var added := if KeyOf(BySchool, a) == Some(k) then {a.userId} else {};
      assert UsersOf(records, k) <= UsersOf(init, k) + added by {
        forall u | u in UsersOf(records, k) ensures u in UsersOf(init, k) + added {
          var i :| 0 <= i < |records| && KeyOf(BySchool, records[i]) == Some(k) && records[i].userId == u;
          if i < n {
            assert init[i] == records[i];
          }
        }
      }
      assert |UsersOf(init, k) + added| <= |UsersOf(init, k)| + |added|;
      assert |UsersOf(records, k)| <= |UsersOf(init, k) + added| by {
        SubsetCardinality(UsersOf(records, k), UsersOf(init, k) + added);
      }
    }
  }

  lemma SubsetCardinality(a: set<string>, b: set<string>)
    requires a <= b
    ensures |a| <= |b|
  {
    assert b == a + (b - a);
  }

  // ---------------------------------------------------------------- sorting and truncation

  /** Non-increasing by `key`. */
  predicate SortedDesc<T>(s: seq<T>, key: T -> real) {
    forall i, j | 0 <= i < j < |s| :: key(s[i]) >= key(s[j])
  }

  /**
   * Inserts `x` before the first element whose key is not larger; placed
   * before its equals, an element taken earlier from the input stays ahead.
   */
  function InsertDesc<T(==)>(x: T, s: seq<T>, key: T -> real): (r: seq<T>)
    ensures multiset(r) == multiset(s) + multiset{x}
    ensures SortedDesc(s, key) ==> SortedDesc(r, key)
  {
    if |s| == 0 then [x]
    else if key(x) >= key(s[0]) then [x] + s
    else
      var rest := InsertDesc(x, s[1..], key);
      assert s == [s[0]] + s[1..];
      assert SortedDesc(s, key) ==> SortedDesc([s[0]] + rest, key) by {
        if SortedDesc(s, key) {
          HeadBoundsInsertion(x, s, rest, key);
          ConsSorted(s[0], rest, key);
        }
      }
      [s[0]] + rest
  }

  /** The head of a sorted list bounds whatever `x`, smaller than it, is inserted among the rest. */
  lemma HeadBoundsInsertion<T>(x: T, s: seq<T>, rest: seq<T>, key: T -> real)
    requires |s| > 0 && SortedDesc(s, key) && key(x) < key(s[0])
    requires multiset(rest) == multiset(s[1..]) + multiset{x}
    ensures forall y | y in rest :: key(s[0]) >= key(y)
  {
    forall y | y in rest ensures key(s[0]) >= key(y) {
      assert y in multiset(rest);
      if y != x {
        assert y in multiset(s[1..]);
        var j :| 0 <= j < |s[1..]| && s[1..][j] == y;
        assert s[j + 1] == y;
      }
    }
  }

  /** A sorted list behind a head at least as large as all of it is sorted. */
  lemma ConsSorted<T>(h: T, rest: seq<T>, key: T -> real)
    requires SortedDesc(rest, key) && forall y | y in rest :: key(h) >= key(y)
    ensures SortedDesc([h] + rest, key)
  {
    var r := [h] + rest;
    forall i, j | 0 <= i < j < |r| ensures key(r[i]) >= key(r[j]) {
      assert r[j] == rest[j - 1];
      if i == 0 {
        assert rest[j - 1] in rest;
      } else {
        assert r[i] == rest[i - 1];
      }
    }
  }

  /**
   * `Array.prototype.sort` with comparator `(a, b) => key(b) - key(a)`: a
   * sort into non-increasing key order. The result is a permutation of the
   * input; `SortStable` shows that equal keys keep their input order.
   */
  function SortDesc<T(==)>(s: seq<T>, key: T -> real): (r: seq<T>)
    ensures multiset(r) == multiset(s)
    ensures SortedDesc(r, key)
  {
    if |s| == 0 then []
    else
      assert s == [s[0]] + s[1..];
      InsertDesc(s[0], SortDesc(s[1..], key), key)
  }

  /** The elements of `s` whose key is `v`, in their order in `s`. */
  function WithKey<T>(s: seq<T>, key: T -> real, v: real): (r: seq<T>)
    ensures |r| <= |s|
  {
    if |s| == 0 then []
    else (if key(s[0]) == v then [s[0]] else []) + WithKey(s[1..], key, v)
  }

  /** Inserting `x` puts it ahead of every element with the same key. */
  lemma {:induction false} InsertStable<T>(x: T, s: seq<T>, key: T -> real, v: real)
    ensures WithKey(InsertDesc(x, s, key), key, v) == (if key(x) == v then [x] else []) + WithKey(s, key, v)
  {
    if |s| == 0 {
      assert InsertDesc(x, s, key) == [x];
      assert [x][1..] == [];
    } else if key(x) >= key(s[0]) {
      assert InsertDesc(x, s, key) == [x] + s;
      assert ([x] + s)[0] == x && ([x] + s)[1..] == s;
    } else {
      var rest := InsertDesc(x, s[1..], key);
      assert InsertDesc(x, s, key) == [s[0]] + rest;
      InsertStable(x, s[1..], key, v);
      StableBehindHead(x, s, rest, key, v);
    }
  }

  /** `x`, inserted behind a head with a larger key, still comes first among its equals. */
  lemma StableBehindHead<T>(x: T, s: seq<T>, rest: seq<T>, key: T -> real, v: real)
    requires |s| > 0 && key(x) < key(s[0])
    requires WithKey(rest, key, v) == (if key(x) == v then [x] else []) + WithKey(s[1..], key, v)
    ensures WithKey([s[0]] + rest, key, v) == (if key(x) == v then [x] else []) + WithKey(s, key, v)
  {
    assert ([s[0]] + rest)[0] == s[0] && ([s[0]] + rest)[1..] == rest;
  }

  /**
   * The sort is stable: the elements sharing any one key come out in the
   * order they went in.
   */
  lemma {:induction false} SortStable<T>(s: seq<T>, key: T -> real, v: real)
    ensures WithKey(SortDesc(s, key), key, v) == WithKey(s, key, v)
  {
    if |s| > 0 {
      SortStable(s[1..], key, v);
      InsertStable(s[0], SortDesc(s[1..], key), key, v);
    }
  }

  /** No two elements share an id. */
  predicate DistinctBy<T>(s: seq<T>, id: T -> string) {
    forall i, j | 0 <= i < j < |s| :: id(s[i]) != id(s[j])
  }

  /** An element whose id the rest lacks can go in front. */
  lemma ConsDistinct<T>(h: T, rest: seq<T>, id: T -> string)
    requires DistinctBy(rest, id) && forall y | y in rest :: id(y) != id(h)
    ensures DistinctBy([h] + rest, id)
  {
    var r := [h] + rest;
    forall i, j | 0 <= i < j < |r| ensures id(r[i]) != id(r[j]) {
      assert r[j] == rest[j - 1];
      if i == 0 {
        assert rest[j - 1] in rest;
      } else {
        assert r[i] == rest[i - 1];
      }
    }
  }

  /** Inserting an element with a new id keeps the ids distinct. */
  lemma {:induction false} InsertDistinct<T>(x: T, s: seq<T>, key: T -> real, id: T -> string)
    requires DistinctBy(s, id) && forall y | y in s :: id(y) != id(x)
    ensures DistinctBy(InsertDesc(x, s, key), id)
  {
    if |s| == 0 {
    } else if key(x) >= key(s[0]) {
      ConsDistinct(x, s, id);
    } else {
      var tail := s[1..];
      var rest := InsertDesc(x, tail, key);
      assert DistinctBy(tail, id) by {
        forall i, j | 0 <= i < j < |tail| ensures id(tail[i]) != id(tail[j]) {
          assert tail[i] == s[i + 1] && tail[j] == s[j + 1];
        }
      }
      assert forall y | y in tail :: y in s;
      InsertDistinct(x, tail, key, id);
      forall y | y in rest ensures id(y) != id(s[0]) {
        assert y in multiset(rest);
        if y != x {
          assert y in multiset(tail);
          var j :| 0 <= j < |tail| && tail[j] == y;
          assert s[j + 1] == y;
        } else {
          assert s[0] in s;
        }
      }
      ConsDistinct(s[0], rest, id);
    }
  }

  /** Sorting keeps distinct ids distinct. */
  lemma {:induction false} SortDistinct<T>(s: seq<T>, key: T -> real, id: T -> string)
    requires DistinctBy(s, id)
    ensures DistinctBy(SortDesc(s, key), id)
  {
    if |s| > 0 {
      var tail := s[1..];
      assert DistinctBy(tail, id) by {
        forall i, j | 0 <= i < j < |tail| ensures id(tail[i]) != id(tail[j]) {
          assert tail[i] == s[i + 1] && tail[j] == s[j + 1];
        }
      }
      SortDistinct(tail, key, id);
      var sorted := SortDesc(tail, key);
      forall y | y in sorted ensures id(y) != id(s[0]) {
        assert y in multiset(sorted);
        assert y in multiset(tail);
        var j :| 0 <= j < |tail| && tail[j] == y;
        assert s[j + 1] == y;
      }
      InsertDistinct(s[0], sorted, key, id);
    }
  }

  /** The end index of `slice(0, limit)`: a negative limit counts from the end. */
  function SliceEnd(length: nat, limit: int): (n: nat)
    ensures n <= length
  {
    if limit < 0 then (if length + limit > 0 then length + limit else 0)
    else if limit < length then limit else length
  }

  /**
   * `slice(0, limit)` keeps a prefix: for a non-negative limit the longest
   * one of at most `limit` elements, for a negative one the list without
   * its last `-limit` elements (all of them when there are fewer).
   */
  lemma SlicePrefix<T>(s: seq<T>, limit: int)
    ensures var r := s[..SliceEnd(|s|, limit)];
      && r <= s
      && (limit >= 0 ==> |r| <= limit && (|r| < limit ==> r == s))
      && (limit < 0 ==> |s| - |r| == (if -limit < |s| then -limit else |s|))
  {
  }

  // ---------------------------------------------------------------- the two leaderboards

  datatype UserRanking = UserRanking(userId: string, userName: string, averageScore: real, totalSessions: nat)

  datatype SchoolRanking = SchoolRanking(
    schoolId: string,
    schoolName: string,
    averageScore: real,
    totalStudents: nat,
    totalSessions: nat)

  function UserScore(e: UserRanking): real { e.averageScore }
  function SchoolScore(e: SchoolRanking): real { e.averageScore }
  function UserKey(e: UserRanking): string { e.userId }
  function SchoolKey(e: SchoolRanking): string { e.schoolId }

  /** `Array.from(userMap.values()).map(...)`: one entry per user, in insertion order. */
  function UserEntries(t: Table): (entries: seq<UserRanking>)
    requires WellFormed(t)
    ensures |entries| == |t.order| && forall i | 0 <= i < |entries| :: entries[i].userId == t.order[i]
  {
    seq(|t.order|, i requires 0 <= i < |t.order| =>
      var g := t.tallies[t.order[i]];
      UserRanking(g.key, g.name, Mean(g.scores), g.sessions))
  }

  /** `Array.from(schoolMap.values()).map(...)`: one entry per school, in insertion order. */
  function SchoolEntries(t: Table): (entries: seq<SchoolRanking>)
    requires WellFormed(t)
    ensures |entries| == |t.order| && forall i | 0 <= i < |entries| :: entries[i].schoolId == t.order[i]
  {
    seq(|t.order|, i requires 0 <= i < |t.order| =>
      var g := t.tallies[t.order[i]];
      SchoolRanking(g.key, g.name, Mean(g.scores), |g.users|, g.sessions))
  }

  /** What `getUserRankings(limit)` returns for these records. */
  function UserRankingsOf(records: seq<GameAnalytics>, limit: int): (r: seq<UserRanking>)
    ensures limit >= 0 ==> |r| <= limit
  {
    TableKeys(records, ByUser);
    var sorted := SortDesc(UserEntries(TableOf(records, ByUser)), UserScore);
    sorted[..SliceEnd(|sorted|, limit)]
  }

  /** What `getSchoolRankings(limit)` returns for these records. */
  function SchoolRankingsOf(records: seq<GameAnalytics>, limit: int): (r: seq<SchoolRanking>)
    ensures limit >= 0 ==> |r| <= limit
  {
    TableKeys(records, BySchool);
    var sorted := SortDesc(SchoolEntries(TableOf(records, BySchool)), SchoolScore);
    sorted[..SliceEnd(|sorted|, limit)]
  }

  /** What a user's leaderboard entry says about the records. */
  ghost predicate UserEntryAgrees(records: seq<GameAnalytics>, e: UserRanking) {
    var scores := ScoresOf(records, ByUser, e.userId);
    && |scores| > 0
    && e.totalSessions == |scores|
    && e.averageScore == Mean(scores)
    && exists i | FirstWithKey(records, ByUser, e.userId, i) :: e.userName == records[i].userName
  }

  /** What a school's leaderboard entry says about the records. */
  ghost predicate SchoolEntryAgrees(records: seq<GameAnalytics>, e: SchoolRanking) {
    var scores := ScoresOf(records, BySchool, e.schoolId);
    && |scores| > 0
    && e.totalSessions == |scores|
    && e.averageScore == Mean(scores)
    && e.totalStudents == |UsersOf(records, e.schoolId)|
    && e.totalStudents <= e.totalSessions
    && exists i | FirstWithKey(records, BySchool, e.schoolId, i) ::
         e.schoolName == OrElse(records[i].schoolName.Get(), "Unknown School")
  }

  /** Sorting keeps the length and the elements. */
  lemma SortDescMembers<T>(s: seq<T>, key: T -> real)
    ensures |SortDesc(s, key)| == |s|
    ensures forall x :: x in SortDesc(s, key) <==> x in s
  {
    var r := SortDesc(s, key);
    assert |multiset(r)| == |multiset(s)|;
    forall x ensures x in r <==> x in s {
      assert x in r <==> x in multiset(r);
      assert x in s <==> x in multiset(s);
    }
  }

  /** A prefix of a non-increasing list is non-increasing, and holds only its elements. */
  lemma SortedPrefix<T>(s: seq<T>, key: T -> real, n: nat)
    requires SortedDesc(s, key) && n <= |s|
    ensures SortedDesc(s[..n], key)
    ensures forall x | x in s[..n] :: x in s
  {
    var r := s[..n];
    forall i, j | 0 <= i < j < |r| ensures key(r[i]) >= key(r[j]) {
      assert r[i] == s[i] && r[j] == s[j];
    }
    forall x | x in r ensures x in s {
      var i :| 0 <= i < |r| && r[i] == x;
      assert s[i] == x;
    }
  }

  /**
   * Whatever a prefix of a non-increasing list leaves out ranks no higher
   * than anything the prefix keeps.
   */
  lemma SortedPrefixTop<T>(s: seq<T>, key: T -> real, id: T -> string, n: nat, x: T)
    requires SortedDesc(s, key) && n <= |s| && x in s
    requires forall i | 0 <= i < n :: id(s[i]) != id(x)
    ensures forall i | 0 <= i < n :: key(s[i]) >= key(x)
  {
    var j :| 0 <= j < |s| && s[j] == x;
    assert j >= n;
  }

  /**
   * `slice(0, limit)` of a sort of entries with distinct ids: as many
   * entries as the limit allows, ids still distinct, and whatever it leaves
   * out ranks no higher than anything it keeps.
   */
  lemma SortedSliceTop<T>(entries: seq<T>, key: T -> real, id: T -> string, limit: int)
    requires DistinctBy(entries, id)
    ensures var sorted := SortDesc(entries, key);
      var r := sorted[..SliceEnd(|sorted|, limit)];
      && |r| == SliceEnd(|entries|, limit)
      && DistinctBy(r, id)
      && forall x | x in entries && (forall i | 0 <= i < |r| :: id(r[i]) != id(x)) ::
           forall i | 0 <= i < |r| :: key(r[i]) >= key(x)
  {
    var sorted := SortDesc(entries, key);
    var n := SliceEnd(|entries|, limit);
    var r := sorted[..n];
    SortDescMembers(entries, key);
    SortDistinct(entries, key, id);
    forall x | x in entries && (forall i | 0 <= i < |r| :: id(r[i]) != id(x))
      ensures forall i | 0 <= i < |r| :: key(r[i]) >= key(x)
    {
      forall i | 0 <= i < n ensures id(sorted[i]) != id(x) {
        assert sorted[i] == r[i];
      }
      SortedPrefixTop(sorted, key, id, n, x);
    }
  }

  /** An element of the input has a place in the sorted output. */
  lemma SortedHolds<T>(s: seq<T>, key: T -> real, x: T)
    requires x in s
    ensures exists i | 0 <= i < |SortDesc(s, key)| :: SortDesc(s, key)[i] == x
  {
    SortDescMembers(s, key);
    var sorted := SortDesc(s, key);
    assert x in sorted;
  }

  /** Every entry built from the user table agrees with the records. */
  lemma UserEntriesAgree(records: seq<GameAnalytics>)
    requires WellFormed(TableOf(records, ByUser))
    ensures var t := TableOf(records, ByUser);
      forall e | e in UserEntries(t) :: UserEntryAgrees(records, e)
  {
    TableContents(records, ByUser);
  }

  /** Every entry built from the school table agrees with the records. */
  lemma SchoolEntriesAgree(records: seq<GameAnalytics>)
    requires WellFormed(TableOf(records, BySchool))
    ensures var t := TableOf(records, BySchool);
      forall e | e in SchoolEntries(t) :: SchoolEntryAgrees(records, e)
  {
    TableContents(records, BySchool);
    var t := TableOf(records, BySchool);
    forall i | 0 <= i < |t.order| ensures SchoolEntryAgrees(records, SchoolEntries(t)[i]) {
      StudentsAtMostSessions(records, t.order[i]);
    }
  }

  /** Sorted, the user entries still hold one for every key that has a counted record. */
  lemma UserEntriesCover(records: seq<GameAnalytics>)
    requires WellFormed(TableOf(records, ByUser))
    ensures var sorted := SortDesc(UserEntries(TableOf(records, ByUser)), UserScore);
      forall k | HasKey(records, ByUser, k) :: exists i | 0 <= i < |sorted| :: sorted[i].userId == k
  {
    TableKeys(records, ByUser);
    var t := TableOf(records, ByUser);
    var entries := UserEntries(t);
    var sorted := SortDesc(entries, UserScore);
    SortDescMembers(entries, UserScore);
    forall k | HasKey(records, ByUser, k) ensures exists i | 0 <= i < |sorted| :: sorted[i].userId == k {
      var j :| 0 <= j < |t.order| && t.order[j] == k;
      assert entries[j] in sorted;
      var i :| 0 <= i < |sorted| && sorted[i] == entries[j];
    }
  }

  /**
   * `getUserRankings(limit)`: skipping records without a truthy score, one
   * entry per user whose session count, mean score and name (from the
   * user's first scored record) agree with the records; non-increasing by
   * average; at most `limit` entries (for a non-negative limit) and at most
   * as many as there are distinct scored users.
   */
  lemma UserRankingsCorrect(records: seq<GameAnalytics>, limit: int)
    ensures var r := UserRankingsOf(records, limit);
      var users := TableOf(records, ByUser).order;
      && SortedDesc(r, UserScore)
      && (forall i | 0 <= i < |r| :: UserEntryAgrees(records, r[i]))
      && |r| <= |users| && (limit >= 0 ==> |r| <= limit)
      && (forall k :: k in users <==> HasKey(records, ByUser, k))
  {
    TableKeys(records, ByUser);
    var entries := UserEntries(TableOf(records, ByUser));
    var sorted := SortDesc(entries, UserScore);
    SortDescMembers(entries, UserScore);
    SortedPrefix(sorted, UserScore, SliceEnd(|sorted|, limit));
    UserEntriesAgree(records);
  }

  /** With a limit at least the number of scored users, every one of them is listed. */
  lemma UserRankingsComplete(records: seq<GameAnalytics>, limit: int)
    requires limit >= |TableOf(records, ByUser).order|
    ensures var r := UserRankingsOf(records, limit);
      forall k | HasKey(records, ByUser, k) :: exists i | 0 <= i < |r| :: r[i].userId == k
  {
    TableKeys(records, ByUser);
    var entries := UserEntries(TableOf(records, ByUser));
    var sorted := SortDesc(entries, UserScore);
    assert |sorted| == |entries| by {
      SortDescMembers(entries, UserScore);
    }
    assert SliceEnd(|sorted|, limit) == |sorted|;
    assert sorted[..|sorted|] == sorted;
    assert UserRankingsOf(records, limit) == sorted;
    UserEntriesCover(records);
  }

  /** The user entries carry distinct ids, since the insertion order has no repeats. */
  lemma UserEntriesDistinct(t: Table)
    requires WellFormed(t)
    ensures DistinctBy(UserEntries(t), UserKey)
  {
  }

  /** Every key with a counted record has an entry carrying that key's mean score. */
  lemma UserEntryMean(records: seq<GameAnalytics>, k: string)
    requires |ScoresOf(records, ByUser, k)| > 0
    ensures WellFormed(TableOf(records, ByUser))
    ensures exists e | e in UserEntries(TableOf(records, ByUser)) :: e.userId == k && e.averageScore == Mean(ScoresOf(records, ByUser, k))
  {
    TableKeys(records, ByUser);
    TableScores(records, ByUser);
    ScoresOfNonEmpty(records, ByUser, k);
    var t := TableOf(records, ByUser);
    var j :| 0 <= j < |t.order| && t.order[j] == k;
    assert UserEntries(t)[j] in UserEntries(t);
  }

  /** A user with a counted record that the board leaves out averages no more than any user listed. */
  lemma UserLeftOutRanksLower(records: seq<GameAnalytics>, limit: int, k: string)
    requires |ScoresOf(records, ByUser, k)| > 0
    requires var r := UserRankingsOf(records, limit); forall i | 0 <= i < |r| :: r[i].userId != k
    ensures var r := UserRankingsOf(records, limit);
      forall i | 0 <= i < |r| :: r[i].averageScore >= Mean(ScoresOf(records, ByUser, k))
  {
    UserEntryMean(records, k);
    var entries := UserEntries(TableOf(records, ByUser));
    UserEntriesDistinct(TableOf(records, ByUser));
    SortedSliceTop(entries, UserScore, UserKey, limit);
    var sorted := SortDesc(entries, UserScore);
    var r := sorted[..SliceEnd(|sorted|, limit)];
    assert UserRankingsOf(records, limit) == r;
    var e :| e in entries && e.userId == k && e.averageScore == Mean(ScoresOf(records, ByUser, k));
    assert forall i | 0 <= i < |r| :: UserKey(r[i]) != UserKey(e);
  }

  /**
   * `slice(0, limit)` keeps the top of the user board: exactly as many
   * entries as the limit allows, no user twice, and every scored user left
   * out averages no more than any user listed.
   */
  lemma UserRankingsTop(records: seq<GameAnalytics>, limit: int)
    ensures var r := UserRankingsOf(records, limit);
      && |r| == SliceEnd(|TableOf(records, ByUser).order|, limit)
      && DistinctBy(r, UserKey)
      && forall k | |ScoresOf(records, ByUser, k)| > 0 && (forall i | 0 <= i < |r| :: r[i].userId != k) ::
           forall i | 0 <= i < |r| :: r[i].averageScore >= Mean(ScoresOf(records, ByUser, k))
  {
    TableKeys(records, ByUser);
    var entries := UserEntries(TableOf(records, ByUser));
    UserEntriesDistinct(TableOf(records, ByUser));
    SortedSliceTop(entries, UserScore, UserKey, limit);
    var r := UserRankingsOf(records, limit);
    forall k | |ScoresOf(records, ByUser, k)| > 0 && (forall i | 0 <= i < |r| :: r[i].userId != k)
      ensures forall i | 0 <= i < |r| :: r[i].averageScore >= Mean(ScoresOf(records, ByUser, k))
    {
      UserLeftOutRanksLower(records, limit, k);
    }
  }

  /** Sorted, the school entries still hold one for every key that has a counted record. */
  lemma SchoolEntriesCover(records: seq<GameAnalytics>)
    requires WellFormed(TableOf(records, BySchool))
    ensures var sorted := SortDesc(SchoolEntries(TableOf(records, BySchool)), SchoolScore);
      forall k | HasKey(records, BySchool, k) :: exists i | 0 <= i < |sorted| :: sorted[i].schoolId == k
  {
    TableKeys(records, BySchool);
    var t := TableOf(records, BySchool);
    var entries := SchoolEntries(t);
    var sorted := SortDesc(entries, SchoolScore);
    SortDescMembers(entries, SchoolScore);
    forall k | HasKey(records, BySchool, k) ensures exists i | 0 <= i < |sorted| :: sorted[i].schoolId == k {
      var j :| 0 <= j < |t.order| && t.order[j] == k;
      assert entries[j] in sorted;
      var i :| 0 <= i < |sorted| && sorted[i] == entries[j];
    }
  }

  /**
   * `getSchoolRankings(limit)`: skipping records without a truthy school id
   * or score, one entry per school whose session count, mean score,
   * distinct-student count (never above the session count) and name (the
   * first record's `schoolName`, or "Unknown School") agree with the
   * records; non-increasing by average; at most `limit` entries (for a
   * non-negative limit) and at most as many as there are schools.
   */
  lemma SchoolRankingsCorrect(records: seq<GameAnalytics>, limit: int)
    ensures var r := SchoolRankingsOf(records, limit);
      var schools := TableOf(records, BySchool).order;
      && SortedDesc(r, SchoolScore)
      && (forall i | 0 <= i < |r| :: SchoolEntryAgrees(records, r[i]))
      && |r| <= |schools| && (limit >= 0 ==> |r| <= limit)
      && (forall k :: k in schools <==> HasKey(records, BySchool, k))
  {
    TableKeys(records, BySchool);
    var entries := SchoolEntries(TableOf(records, BySchool));
    var sorted := SortDesc(entries, SchoolScore);
    SortDescMembers(entries, SchoolScore);
    SortedPrefix(sorted, SchoolScore, SliceEnd(|sorted|, limit));
    SchoolEntriesAgree(records);
  }

  /** With a limit at least the number of schools with a scored record, every one of them is listed. */
  lemma SchoolRankingsComplete(records: seq<GameAnalytics>, limit: int)
    requires limit >= |TableOf(records, BySchool).order|
    ensures var r := SchoolRankingsOf(records, limit);
      forall k | HasKey(records, BySchool, k) :: exists i | 0 <= i < |r| :: r[i].schoolId == k
  {
    TableKeys(records, BySchool);
    var entries := SchoolEntries(TableOf(records, BySchool));
    var sorted := SortDesc(entries, SchoolScore);
    assert |sorted| == |entries| by {
      SortDescMembers(entries, SchoolScore);
    }
    assert SliceEnd(|sorted|, limit) == |sorted|;
    assert sorted[..|sorted|] == sorted;
    assert SchoolRankingsOf(records, limit) == sorted;
    SchoolEntriesCover(records);
  }

  /** The school entries carry distinct ids, since the insertion order has no repeats. */
  lemma SchoolEntriesDistinct(t: Table)
    requires WellFormed(t)
    ensures DistinctBy(SchoolEntries(t), SchoolKey)
  {
  }

  /** Every key with a counted record has an entry carrying that key's mean score. */
  lemma SchoolEntryMean(records: seq<GameAnalytics>, k: string)
    requires |ScoresOf(records, BySchool, k)| > 0
    ensures WellFormed(TableOf(records, BySchool))
    ensures exists e | e in SchoolEntries(TableOf(records, BySchool)) :: e.schoolId == k && e.averageScore == Mean(ScoresOf(records, BySchool, k))
  {
    TableKeys(records, BySchool);
    TableScores(records, BySchool);
    ScoresOfNonEmpty(records, BySchool, k);
    var t := TableOf(records, BySchool);
    var j :| 0 <= j < |t.order| && t.order[j] == k;
    assert SchoolEntries(t)[j] in SchoolEntries(t);
  }

  /** A school with a counted record that the board leaves out averages no more than any school listed. */
  lemma SchoolLeftOutRanksLower(records: seq<GameAnalytics>, limit: int, k: string)
    requires |ScoresOf(records, BySchool, k)| > 0
    requires var r := SchoolRankingsOf(records, limit); forall i | 0 <= i < |r| :: r[i].schoolId != k
    ensures var r := SchoolRankingsOf(records, limit);
      forall i | 0 <= i < |r| :: r[i].averageScore >= Mean(ScoresOf(records, BySchool, k))
  {
    SchoolEntryMean(records, k);
    var entries := SchoolEntries(TableOf(records, BySchool));
    SchoolEntriesDistinct(TableOf(records, BySchool));
    SortedSliceTop(entries, SchoolScore, SchoolKey, limit);
    var sorted := SortDesc(entries, SchoolScore);
    var r := sorted[..SliceEnd(|sorted|, limit)];
    assert SchoolRankingsOf(records, limit) == r;
    var e :| e in entries && e.schoolId == k && e.averageScore == Mean(ScoresOf(records, BySchool, k));
    assert forall i | 0 <= i < |r| :: SchoolKey(r[i]) != SchoolKey(e);
  }

  /**
   * `slice(0, limit)` keeps the top of the school board: exactly as many
   * entries as the limit allows, no school twice, and every school with a
   * counted record left out averages no more than any school listed.
   */
  lemma SchoolRankingsTop(records: seq<GameAnalytics>, limit: int)
    ensures var r := SchoolRankingsOf(records, limit);
      && |r| == SliceEnd(|TableOf(records, BySchool).order|, limit)
      && DistinctBy(r, SchoolKey)
      && forall k | |ScoresOf(records, BySchool, k)| > 0 && (forall i | 0 <= i < |r| :: r[i].schoolId != k) ::
           forall i | 0 <= i < |r| :: r[i].averageScore >= Mean(ScoresOf(records, BySchool, k))
  {
    TableKeys(records, BySchool);
    var entries := SchoolEntries(TableOf(records, BySchool));
    SchoolEntriesDistinct(TableOf(records, BySchool));
    SortedSliceTop(entries, SchoolScore, SchoolKey, limit);
    var r := SchoolRankingsOf(records, limit);
    forall k | |ScoresOf(records, BySchool, k)| > 0 && (forall i | 0 <= i < |r| :: r[i].schoolId != k)
      ensures forall i | 0 <= i < |r| :: r[i].averageScore >= Mean(ScoresOf(records, BySchool, k))
    {
      SchoolLeftOutRanksLower(records, limit, k);
    }
  }
}
