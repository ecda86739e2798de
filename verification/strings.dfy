/**
 * The JavaScript string operations the services use, on `seq<char>`:
 * `includes`, `replace` with a string pattern, `split(sep)`, `split(sep).pop()`,
 * `parseInt(s, 10)`, `Number.prototype.toString()` on integers and
 * `padStart(2, '0')`.
 */
module Strings {

  // ---------------------------------------------------------------- search

  /** `pat` occurs in `s` starting at index `i`. */
  predicate OccursAt(s: string, pat: string, i: int) {
    0 <= i && i + |pat| <= |s| && s[i..i + |pat|] == pat
  }

  /** `s.includes(pat)`. */
  predicate Contains(s: string, pat: string) {
    exists i | 0 <= i <= |s| - |pat| :: OccursAt(s, pat, i)
  }

  /** `i` is where the first occurrence of `pat` in `s` starts. */
  predicate FirstOccurrence(s: string, pat: string, i: int) {
    OccursAt(s, pat, i) && forall j | 0 <= j < i :: !OccursAt(s, pat, j)
  }

  /**
   * `s.replace(pat, '')`: a string pattern replaces its first occurrence only.
   */
  function RemoveFirst(s: string, pat: string): (r: string)
    ensures !Contains(s, pat) ==> r == s
    ensures forall i | FirstOccurrence(s, pat, i) :: r == s[..i] + s[i + |pat|..]
    decreases |s|
  {
    if |pat| <= |s| && s[..|pat|] == pat then
      assert OccursAt(s, pat, 0);
      s[|pat|..]
    else if |s| == 0 then
      s
    else
      var rest := RemoveFirst(s[1..], pat);
      NoOccurrenceShift(s, pat);
      FirstOccurrenceShift(s, pat);
      [s[0]] + rest
  }

  /** An occurrence past the first character is an occurrence in the tail. */
  lemma OccursShift(s: string, pat: string, j: int)
    requires |s| > 0 && 1 <= j
    ensures OccursAt(s, pat, j) <==> OccursAt(s[1..], pat, j - 1)
  {
    if j + |pat| <= |s| {
      assert s[j..j + |pat|] == s[1..][j - 1..j - 1 + |pat|];
    }
  }

  /** A string without the pattern has a tail without it. */
  lemma NoOccurrenceShift(s: string, pat: string)
    requires |s| > 0
    ensures !Contains(s, pat) ==> !Contains(s[1..], pat)
  {
    if Contains(s[1..], pat) {
      var k :| 0 <= k <= |s[1..]| - |pat| && OccursAt(s[1..], pat, k);
      OccursShift(s, pat, k + 1);
    }
  }

  /**
   * When the pattern does not start the string, its first occurrence is one
   * further than in the tail, and cutting it out commutes with the first character.
   */
  lemma FirstOccurrenceShift(s: string, pat: string)
    requires |s| > 0 && !OccursAt(s, pat, 0)
    ensures forall i | FirstOccurrence(s, pat, i) ::
      && FirstOccurrence(s[1..], pat, i - 1)
      && s[..i] + s[i + |pat|..] == [s[0]] + (s[1..][..i - 1] + s[1..][i - 1 + |pat|..])
  {
    forall i | FirstOccurrence(s, pat, i)
      ensures FirstOccurrence(s[1..], pat, i - 1)
      ensures s[..i] + s[i + |pat|..] == [s[0]] + (s[1..][..i - 1] + s[1..][i - 1 + |pat|..])
    {
      OccursShift(s, pat, i);
      forall j | 0 <= j < i - 1 ensures !OccursAt(s[1..], pat, j) {
        OccursShift(s, pat, j + 1);
      }
      assert s[..i] == [s[0]] + s[1..][..i - 1];
      assert s[i + |pat|..] == s[1..][i - 1 + |pat|..];
    }
  }

  // ---------------------------------------------------------------- split

  /** `parts.join(sep)`. */
  function Join(parts: seq<string>, sep: char): (joined: string)
    requires |parts| >= 1
  {
    if |parts| == 1 then parts[0]
    else Join(parts[..|parts| - 1], sep) + [sep] + parts[|parts| - 1]
  }

  /**
   * `s.split(sep)` for a one-character separator: always at least one part,
   * no part holds the separator, and joining the parts gives back `s`.
   */
  function Split(s: string, sep: char): (parts: seq<string>)
    ensures |parts| >= 1
    ensures forall k | 0 <= k < |parts| :: sep !in parts[k]
  {
    if |s| == 0 then [[]]
    else
      var init := Split(s[..|s| - 1], sep);
      var c := s[|s| - 1];
      if c == sep then init + [[]]
      else init[..|init| - 1] + [init[|init| - 1] + [c]]
  }

  /** Joining the parts `split` yields gives back the string. */
  lemma {:induction false} JoinSplit(s: string, sep: char)
    ensures Join(Split(s, sep), sep) == s
    decreases |s|
  {
    if |s| > 0 {
      var init := Split(s[..|s| - 1], sep);
      var c := s[|s| - 1];
      JoinSplit(s[..|s| - 1], sep);
      assert s == s[..|s| - 1] + [c];
      if c == sep {
        JoinAppendPart(init, [], sep);
      } else {
        JoinExtendLast(init, c, sep);
      }
    }
  }

  /** Joining one more part appends the separator and that part. */
  lemma JoinAppendPart(parts: seq<string>, last: string, sep: char)
    requires |parts| >= 1
    ensures Join(parts + [last], sep) == Join(parts, sep) + [sep] + last
  {
    assert (parts + [last])[..|parts|] == parts;
  }

  /** Extending the last part by a character extends the join by it. */
  lemma JoinExtendLast(parts: seq<string>, c: char, sep: char)
    requires |parts| >= 1
    ensures Join(parts[..|parts| - 1] + [parts[|parts| - 1] + [c]], sep) == Join(parts, sep) + [c]
  {
    var init, last := parts[..|parts| - 1], parts[|parts| - 1];
    if |parts| > 1 {
      JoinAppendPart(init, last + [c], sep);
      assert parts == init + [last];
      JoinAppendPart(init, last, sep);
    }
  }

  /** Splitting `x + [sep] + y` ends with `y` when `y` holds no separator. */
  lemma {:induction false} SplitAppendPart(x: string, y: string, sep: char)
    requires sep !in y
    ensures Split(x + [sep] + y, sep) == Split(x, sep) + [y]
    decreases |y|
  {
    var s := x + [sep] + y;
    if |y| == 0 {
      assert s[..|s| - 1] == x;
    } else {
      var y' := y[..|y| - 1];
      assert s[..|s| - 1] == x + [sep] + y';
      SplitAppendPart(x, y', sep);
      assert y == y' + [y[|y| - 1]];
    }
  }

  /** A string without separators splits into itself alone. */
  lemma {:induction false} SplitNoSeparator(s: string, sep: char)
    requires sep !in s
    ensures Split(s, sep) == [s]
    decreases |s|
  {
    if |s| > 0 {
      SplitNoSeparator(s[..|s| - 1], sep);
      assert s == s[..|s| - 1] + [s[|s| - 1]];
    }
  }

  /** `split` undoes `join` when no part holds the separator. */
  lemma {:induction false} SplitJoin(parts: seq<string>, sep: char)
    requires |parts| >= 1
    requires forall k | 0 <= k < |parts| :: sep !in parts[k]
    ensures Split(Join(parts, sep), sep) == parts
    decreases |parts|
  {
    if |parts| == 1 {
      SplitNoSeparator(parts[0], sep);
    } else {
      var init, last := parts[..|parts| - 1], parts[|parts| - 1];
      assert parts == init + [last];
      JoinAppendPart(init, last, sep);
      SplitJoin(init, sep);
      SplitAppendPart(Join(init, sep), last, sep);
    }
  }

  /**
   * `s.split(sep).pop()`: the text after the last separator, or all of `s`
   * when it has none. The three clauses pin it down: the longest suffix of
   * `s` without a separator.
   */
  function LastSegment(s: string, sep: char): (r: string)
    ensures sep !in r
    ensures |r| <= |s| && r == s[|s| - |r|..]
    ensures |r| < |s| ==> s[|s| - |r| - 1] == sep
  {
    if |s| == 0 then []
    else if s[|s| - 1] == sep then []
    else LastSegment(s[..|s| - 1], sep) + [s[|s| - 1]]
  }

  /** `LastSegment` is the last part `Split` yields. */
  lemma {:induction false} LastSegmentIsLastPart(s: string, sep: char)
    ensures LastSegment(s, sep) == Split(s, sep)[|Split(s, sep)| - 1]
    decreases |s|
  {
    if |s| > 0 {
      LastSegmentIsLastPart(s[..|s| - 1], sep);
    }
  }

  // ---------------------------------------------------------------- numbers

  predicate IsDigit(c: char) {
    '0' <= c <= '9'
  }

  function DigitValue(c: char): (d: nat)
    requires IsDigit(c)
    ensures d < 10
  {
    c as int - '0' as int
  }

  function DigitChar(d: nat): (c: char)
    requires d < 10
    ensures IsDigit(c) && DigitValue(c) == d
  {
    ('0' as int + d) as char
  }

  /**
   * ECMAScript white space and line terminators, which `parseInt` skips
   * before the number.
   */
  predicate IsJsSpace(c: char) {
    || c == '\t' || c == '\n' || c == '\r' || c == ' '
    || c == '\U{000B}' || c == '\U{000C}' || c == '\U{00A0}' || c == '\U{1680}'
    || ('\U{2000}' <= c <= '\U{200A}')
    || c == '\U{2028}' || c == '\U{2029}' || c == '\U{202F}' || c == '\U{205F}'
    || c == '\U{3000}' || c == '\U{FEFF}'
  }

  /** `s` with its leading white space removed. */
  function TrimStart(s: string): (r: string)
    ensures |r| <= |s| && r == s[|s| - |r|..]
    ensures |r| > 0 ==> !IsJsSpace(r[0])
    ensures forall k | 0 <= k < |s| - |r| :: IsJsSpace(s[k])
  {
    if |s| > 0 && IsJsSpace(s[0]) then TrimStart(s[1..]) else s
  }

  /** The longest prefix of `s` made of decimal digits. */
  function LeadingDigits(s: string): (r: string)
    ensures |r| <= |s| && r == s[..|r|]
    ensures forall k | 0 <= k < |r| :: IsDigit(r[k])
    ensures |r| < |s| ==> !IsDigit(s[|r|])
  {
    if |s| > 0 && IsDigit(s[0]) then [s[0]] + LeadingDigits(s[1..]) else []
  }

  /** The value of a string of decimal digits, most significant first. */
  function DigitsValue(ds: string): (n: nat)
    requires forall k | 0 <= k < |ds| :: IsDigit(ds[k])
  {
    if |ds| == 0 then 0
    else DigitsValue(ds[..|ds| - 1]) * 10 + DigitValue(ds[|ds| - 1])
  }

  /**
   * `parseInt(s, 10) || 0`: skip leading white space, take an optional sign
   * and then the longest run of decimal digits; text after the digits is
   * ignored, and no digits at all (NaN) falls back to 0.
   */
  function ParseIntOrZero(s: string): (n: int) {
    var t := TrimStart(s);
    if |t| > 0 && t[0] == '-' then 0 - DigitsValue(LeadingDigits(t[1..]))
    else if |t| > 0 && t[0] == '+' then DigitsValue(LeadingDigits(t[1..]))
    else DigitsValue(LeadingDigits(t))
  }

  /** The decimal digits of `n`, without leading zeros. */
  function NatToString(n: nat): (s: string)
    ensures |s| >= 1
    ensures forall k | 0 <= k < |s| :: IsDigit(s[k])
  {
    if n < 10 then [DigitChar(n)] else NatToString(n / 10) + [DigitChar(n % 10)]
  }

  /** `n.toString()` for an integer `n`. */
  function IntToString(n: int): (s: string)
    ensures |s| >= 1
  {
    if n < 0 then "-" + NatToString(-n) else NatToString(n)
  }

  /** `s.padStart(2, '0')`. */
  function PadStart2(s: string): (r: string)
    ensures |r| >= 2 && |r| >= |s|
    ensures |r| == if |s| >= 2 then |s| else 2
    ensures r[|r| - |s|..] == s
    ensures forall k | 0 <= k < |r| - |s| :: r[k] == '0'
  {
    if |s| >= 2 then s else seq(2 - |s|, _ => '0') + s
  }

  /** `DigitsValue` reads back what `NatToString` writes. */
  lemma {:induction false} NatToStringValue(n: nat)
    ensures DigitsValue(NatToString(n)) == n
  {
    if n >= 10 {
      NatToStringValue(n / 10);
      var s := NatToString(n);
      assert s[..|s| - 1] == NatToString(n / 10);
    }
  }

  /** A run of digits is its own longest digit prefix. */
  lemma LeadingDigitsOfDigits(s: string)
    requires forall k | 0 <= k < |s| :: IsDigit(s[k])
    ensures LeadingDigits(s) == s
  {
  }

  /** A string that starts with a digit or a minus sign has nothing to trim. */
  lemma TrimStartNoSpace(s: string)
    requires |s| > 0 && (IsDigit(s[0]) || s[0] == '-')
    ensures TrimStart(s) == s
  {
    assert !IsJsSpace(s[0]);
  }

  /** `parseInt` reads back what `toString` writes, for every integer. */
  lemma ParseIntToString(n: int)
    ensures ParseIntOrZero(IntToString(n)) == n
  {
    var s := IntToString(n);
    if n < 0 {
      var ds := NatToString(-n);
      assert s == "-" + ds && s[1..] == ds;
      TrimStartNoSpace(s);
      LeadingDigitsOfDigits(ds);
      NatToStringValue(-n);
    } else {
      TrimStartNoSpace(s);
      LeadingDigitsOfDigits(s);
      NatToStringValue(n);
    }
  }

  /** Zero padding to two places does not change the value `parseInt` reads. */
  lemma ParsePaddedIntToString(n: int)
    ensures ParseIntOrZero(PadStart2(IntToString(n))) == n
  {
    var s := IntToString(n);
    if |s| >= 2 {
      ParseIntToString(n);
    } else {
      assert 0 <= n < 10;
      assert s == [DigitChar(n)];
      var p := PadStart2(s);
      assert p == ['0', DigitChar(n)];
      TrimStartNoSpace(p);
      LeadingDigitsOfDigits(p);
      assert p[..1] == ['0'] && p[..1][..0] == [];
      assert DigitsValue(p[..1]) == 0;
      assert DigitValue(p[1]) == n;
      assert DigitsValue(p) == DigitsValue(p[..1]) * 10 + DigitValue(p[1]);
      assert ParseIntOrZero(p) == DigitsValue(p);
    }
  }
}
