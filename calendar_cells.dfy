/**
 * The cell-level helpers of src/calendar.js: reading a column of a row,
 * `truthy`, the strict date and time parsers and `makeLocalDate`.
 *
 * Instants are JavaScript time values: whole milliseconds since the epoch.
 * Local time is taken to be UTC.
 */
module CalendarCells {
  import opened Wrappers
  import opened JsText

  /** A spreadsheet row; a column that is absent reads as `undefined`. */
  type Row = map<string, string>

  function Get(row: Row, column: string): (v: Option<string>)
    ensures v.Some? <==> column in row
    ensures v.Some? ==> v.value == row[column]
  {
    if column in row then Some(row[column]) else None
  }

  /** `String(v ?? "")`, which for a string or nothing is also `String(v || "")`. */
  function Text(v: Option<string>): string {
    v.GetOr("")
  }

  // ---------------------------------------------------------------------------
  // truthy

  /** The words `truthy` accepts; the last is the mojibake of a check mark. */
  const TruthyWords: set<string> :=
    {"true", "yes", "1", "y", "t", "checked", "\U{E2}\U{153}\U{201C}", "on"}

  predicate IsTruthyWord(s: string) {
    s in TruthyWords
  }

  /** `truthy`: the trimmed, lower-cased cell text is one of the accepted words. */
  function Truthy(v: Option<string>): bool {
    IsTruthyWord(Lower(Trim(Text(v))))
  }

  /** A missing cell is not truthy. */
  lemma MissingIsNotTruthy()
    ensures !Truthy(None)
  {
    assert Text(None) == "";
    TrimOfTrimmed("");
    assert Lower("") == "";
  }

  /** White-space padding around the cell text never changes the answer. */
  lemma TruthyIgnoresPadding(pre: string, x: string, post: string)
    requires AllSpace(pre) && AllSpace(post) && Trimmed(x)
    ensures Truthy(Some(pre + x + post)) == Truthy(Some(x))
  {
    var s := pre + x + post;
    assert Text(Some(s)) == s;
    assert Text(Some(x)) == x;
    TrimPadded(pre, x, post);
    TrimOfTrimmed(x);
    assert Trim(s) == Trim(x);
  }

  /** Nor does letter case: the answer for a text and for its lower case agree. */
  lemma TruthyIgnoresCase(s: string)
    ensures Truthy(Some(Lower(s))) == Truthy(Some(s))
  {
    TrimLowerCommute(s);
    LowerIdempotent(Trim(s));
  }

  lemma {:induction false} TextOfTrimmed(x: string)
    requires Trimmed(x)
    ensures Trim(Text(Some(x))) == x
  {
    assert Text(Some(x)) == x;
    TrimOfTrimmed(x);
  }

  lemma {:induction false} TruthyOfTrimmed(x: string)
    requires Trimmed(x)
    ensures Truthy(Some(x)) == IsTruthyWord(Lower(x))
  {
    calc {
      Truthy(Some(x));
      IsTruthyWord(Lower(Trim(Text(Some(x)))));
      { TextOfTrimmed(x); }
      IsTruthyWord(Lower(x));
    }
  }

  /**
   * The check-mark comparison is against the three characters U+00E2 U+0153
   * U+201C: those count as a yes, in upper case too, the check mark U+2713
   * itself does not.
   */
  lemma TruthyMojibakeMark()
    ensures Truthy(Some("\U{E2}\U{153}\U{201C}"))
  {
    TruthyOfTrimmed("\U{E2}\U{153}\U{201C}");
    MojibakeLowers("\U{E2}\U{153}\U{201C}");
  }

  lemma TruthyMojibakeMarkUpper()
    ensures Truthy(Some("\U{C2}\U{152}\U{201C}"))
  {
    TruthyOfTrimmed("\U{C2}\U{152}\U{201C}");
    MojibakeLowers("\U{C2}\U{152}\U{201C}");
  }

  lemma TruthyRealCheckMark()
    ensures !Truthy(Some("\U{2713}"))
  {
    TruthyOfTrimmed("\U{2713}");
    CheckMarkIsNoWord();
  }

  /** Other words are not accepted. */
  lemma TruthyRejectsNo()
    ensures !Truthy(Some("no"))
  {
    TruthyOfTrimmed("no");
    NoIsNoWord();
  }

  lemma MojibakeLowers(u: string)
    requires u == "\U{E2}\U{153}\U{201C}" || u == "\U{C2}\U{152}\U{201C}"
    ensures IsTruthyWord(Lower(u))
  {
    var m := "\U{E2}\U{153}\U{201C}";
    var l := Lower(u);
    assert l[0] == m[0] && l[1] == m[1] && l[2] == m[2];
    SameThree(l, m);
  }

  lemma CheckMarkIsNoWord()
    ensures !IsTruthyWord(Lower("\U{2713}"))
  {
    var l := Lower("\U{2713}");
    assert |l| == 1 && l[0] == '\U{2713}';
    assert l != "1" && l != "y" && l != "t";
  }

  lemma NoIsNoWord()
    ensures !IsTruthyWord(Lower("no"))
  {
    var l := Lower("no");
    assert |l| == 2 && l[0] == 'n';
    assert l != "on";
  }

  lemma SameThree(a: string, b: string)
    requires |a| == |b| == 3 && a[0] == b[0] && a[1] == b[1] && a[2] == b[2]
    ensures a == b
  {
    assert forall k | 0 <= k < 3 :: a[k] == b[k];
  }

  // ---------------------------------------------------------------------------
  // parseMMDDYYYY

  datatype CivilDate = CivilDate(yyyy: nat, mm: nat, dd: nat)

  /** The text is `a/b/c` with 1-2 digits, 1-2 digits and exactly 4 digits. */
  ghost predicate DateShape(t: string, a: string, b: string, c: string) {
    1 <= |a| <= 2 && 1 <= |b| <= 2 && |c| == 4
    && AllDigits(a) && AllDigits(b) && AllDigits(c)
    && t == a + "/" + b + "/" + c
  }

  /** The match of `^(\d{1,2})\/(\d{1,2})\/(\d{4})$`, as its three groups. */
  function MatchDate(t: string): (r: Option<(string, string, string)>)
    ensures r.Some? ==> DateShape(t, r.value.0, r.value.1, r.value.2)
  {
    if 8 <= |t| <= 10 && t[|t| - 5] == '/' && AllDigits(t[|t| - 4..]) then
      var head, c := t[..|t| - 5], t[|t| - 4..];
      assert t == head + "/" + c;
      if |head| <= 4 && head[1] == '/' && IsDigit(head[0]) && AllDigits(head[2..]) then
        assert head == head[..1] + "/" + head[2..];
        Some((head[..1], head[2..], c))
      else if |head| >= 4 && head[2] == '/' && AllDigits(head[..2]) && AllDigits(head[3..]) then
        assert head == head[..2] + "/" + head[3..];
        Some((head[..2], head[3..], c))
      else None
    else None
  }

  /** Every text of the right shape is matched, with the groups it was built from. */
  lemma MatchDateComplete(a: string, b: string, c: string)
    requires DateShape(a + "/" + b + "/" + c, a, b, c)
    ensures MatchDate(a + "/" + b + "/" + c) == Some((a, b, c))
  {
    var t := a + "/" + b + "/" + c;
    var head := t[..|t| - 5];
    assert head == a + "/" + b;
    assert t[|t| - 5] == '/';
    assert t[|t| - 4..] == c;
    if |a| == 1 {
      assert head[1] == '/' && head[2..] == b && head[..1] == a;
    } else {
      assert head[1] == a[1];
      assert head[2] == '/' && head[3..] == b && head[..2] == a;
    }
  }

  /**
   * `parseMMDDYYYY`: nothing for blank text; otherwise the trimmed text must
   * have the shape `M/D/YYYY` and no component may be zero. There is no upper
   * bound on month or day.
   */
  function ParseMMDDYYYY(v: Option<string>): (r: Option<CivilDate>)
    ensures Trim(Text(v)) == "" ==> r.None?
    ensures r.Some? ==> 1 <= r.value.mm <= 99 && 1 <= r.value.dd <= 99 && 1 <= r.value.yyyy <= 9999
  {
    var t := Trim(Text(v));
    if t == "" then None
    else
      match MatchDate(t)
      case None => None
      case Some((a, b, c)) =>
        var mm, dd, yyyy := DigitsValue(a), DigitsValue(b), DigitsValue(c);
        if mm == 0 || dd == 0 || yyyy == 0 then None
        else Some(CivilDate(yyyy, mm, dd))
  }

  /**
   * Whatever `parseMMDDYYYY` accepts is, once trimmed, `M/D/YYYY` with one or
   * two digits of month, one or two of day and four of year, and the result
   * holds exactly those numbers.
   */
  lemma ParseDateSound(v: Option<string>)
    requires ParseMMDDYYYY(v).Some?
    ensures exists a, b, c :: (DateShape(Trim(Text(v)), a, b, c)
      && ParseMMDDYYYY(v).value == CivilDate(DigitsValue(c), DigitsValue(a), DigitsValue(b)))
  {
    var m := MatchDate(Trim(Text(v))).value;
    assert DateShape(Trim(Text(v)), m.0, m.1, m.2);
  }

  /** A padded `M/D/YYYY` text with non-zero components parses to exactly those numbers. */
  lemma ParseDateAccepts(pre: string, a: string, b: string, c: string, post: string)
    requires AllSpace(pre) && AllSpace(post)
    requires DateShape(a + "/" + b + "/" + c, a, b, c)
    requires DigitsValue(a) != 0 && DigitsValue(b) != 0 && DigitsValue(c) != 0
    ensures ParseMMDDYYYY(Some(pre + (a + "/" + b + "/" + c) + post))
         == Some(CivilDate(DigitsValue(c), DigitsValue(a), DigitsValue(b)))
  {
    var t := a + "/" + b + "/" + c;
    assert !IsJsSpace(t[0]) by { assert t[0] == a[0]; }
    assert !IsJsSpace(t[|t| - 1]) by { assert t[|t| - 1] == c[3]; }
    TrimPadded(pre, t, post);
    MatchDateComplete(a, b, c);
  }

  /** A zero month, day or year rejects the row's date, however the text is padded. */
  lemma ParseDateRejectsZero(pre: string, a: string, b: string, c: string, post: string)
    requires AllSpace(pre) && AllSpace(post)
    requires DateShape(a + "/" + b + "/" + c, a, b, c)
    requires DigitsValue(a) == 0 || DigitsValue(b) == 0 || DigitsValue(c) == 0
    ensures ParseMMDDYYYY(Some(pre + (a + "/" + b + "/" + c) + post)).None?
  {
    var t := a + "/" + b + "/" + c;
    assert !IsJsSpace(t[0]) by { assert t[0] == a[0]; }
    assert !IsJsSpace(t[|t| - 1]) by { assert t[|t| - 1] == c[3]; }
    TrimPadded(pre, t, post);
    MatchDateComplete(a, b, c);
  }

  /** "13/40/2024" is accepted as month 13, day 40. */
  lemma ParseDateNoUpperBound()
    ensures ParseMMDDYYYY(Some("13/40/2024")) == Some(CivilDate(2024, 13, 40))
  {
    assert "13" + "/" + "40" + "/" + "2024" == "13/40/2024";
    assert DigitsValue("13") == 13 && DigitsValue("40") == 40;
    assert DigitsValue("2024") == 2024 by {
      assert "2024"[..3] == "202" && "202"[..2] == "20" && "20"[..1] == "2";
    }
    assert [] + "13/40/2024" + [] == "13/40/2024";
    ParseDateAccepts([], "13", "40", "2024", []);
  }

  // ---------------------------------------------------------------------------
  // parseHHMM24

  datatype ClockTime = ClockTime(hh: nat, min: nat)

  /** The text is `a:b` with 1-2 digits and exactly 2 digits. */
  ghost predicate TimeShape(t: string, a: string, b: string) {
    1 <= |a| <= 2 && |b| == 2 && AllDigits(a) && AllDigits(b) && t == a + ":" + b
  }

  /** The match of `^(\d{1,2}):(\d{2})$`, as its two groups. */
  function MatchTime(t: string): (r: Option<(string, string)>)
    ensures r.Some? ==> TimeShape(t, r.value.0, r.value.1)
  {
    if 4 <= |t| <= 5 && t[|t| - 3] == ':' && AllDigits(t[..|t| - 3]) && AllDigits(t[|t| - 2..]) then
      assert t == t[..|t| - 3] + ":" + t[|t| - 2..];
      Some((t[..|t| - 3], t[|t| - 2..]))
    else None
  }

  lemma MatchTimeComplete(a: string, b: string)
    requires TimeShape(a + ":" + b, a, b)
    ensures MatchTime(a + ":" + b) == Some((a, b))
  {
    var t := a + ":" + b;
    assert t[..|t| - 3] == a && t[|t| - 2..] == b && t[|t| - 3] == ':';
  }

  /**
   * `parseHHMM24`: the trimmed text must be `H:MM` or `HH:MM` with the hour at
   * most 23 and the minute at most 59.
   */
  function ParseHHMM24(v: Option<string>): (r: Option<ClockTime>)
    ensures r.Some? ==> r.value.hh <= 23 && r.value.min <= 59
  {
    var t := Trim(Text(v));
    if t == "" then None
    else
      match MatchTime(t)
      case None => None
      case Some((a, b)) =>
        var hh, min := DigitsValue(a), DigitsValue(b);
        if hh > 23 || min > 59 then None
        else Some(ClockTime(hh, min))
  }

  /**
   * Whatever `parseHHMM24` accepts is, once trimmed, `H:MM` or `HH:MM`, and
   * the result holds exactly those numbers.
   */
  lemma ParseTimeSound(v: Option<string>)
    requires ParseHHMM24(v).Some?
    ensures exists a, b :: (TimeShape(Trim(Text(v)), a, b)
      && ParseHHMM24(v).value == ClockTime(DigitsValue(a), DigitsValue(b)))
  {
    var m := MatchTime(Trim(Text(v))).value;
    assert TimeShape(Trim(Text(v)), m.0, m.1);
  }

  /** A padded `H:MM` text parses exactly when the hour and minute are in range. */
  lemma ParseTimeAccepts(pre: string, a: string, b: string, post: string)
    requires AllSpace(pre) && AllSpace(post)
    requires TimeShape(a + ":" + b, a, b)
    ensures ParseHHMM24(Some(pre + (a + ":" + b) + post))
         == if DigitsValue(a) <= 23 && DigitsValue(b) <= 59
            then Some(ClockTime(DigitsValue(a), DigitsValue(b))) else None
  {
    var t := a + ":" + b;
    assert t[0] == a[0] && t[|t| - 1] == b[1];
    TrimPadded(pre, t, post);
    MatchTimeComplete(a, b);
  }

  /** Every clock time written as `H:MM` (hour without padding) reads back as itself. */
  lemma ParseTimeRoundTrip(hh: nat, min: nat)
    requires hh <= 23 && min <= 59
    ensures ParseHHMM24(Some(NatToString(hh) + ":" + Pad2(min))) == Some(ClockTime(hh, min))
  {
    var a, b := NatToString(hh), Pad2(min);
    NatToStringValue(hh);
    Pad2Value(min);
    assert [] + (a + ":" + b) + [] == a + ":" + b;
    ParseTimeAccepts([], a, b, []);
  }

  // ---------------------------------------------------------------------------
  // makeLocalDate

  const MsPerMinute := 60000
  const MinutesPerDay := 1440
  const MsPerDay := 86400000

  /** Days since 1970-01-01 of a proleptic Gregorian date with 1 <= m <= 12. */
  function DaysFromCivil(y: int, m: int, d: int): int
    requires 1 <= m <= 12
  {
    var y' := if m <= 2 then y - 1 else y;
    var era := y' / 400;
    var yoe := y' - era * 400;
    var mp := if m > 2 then m - 3 else m + 9;
    var doy := (153 * mp + 2) / 5 + d - 1;
    var doe := yoe * 365 + yoe / 4 - yoe / 100 + doy;
    era * 146097 + doe - 719468
  }

  /**
   * ECMAScript MakeDay: a month index outside 0..11 carries into the year and
   * a day past the end of the month runs on into the next.
   */
  function MakeDay(year: int, monthIndex: int, date: int): int {
    DaysFromCivil(year + monthIndex / 12, monthIndex % 12 + 1, 1) + date - 1
  }

  /** Twelve more months is one more year. */
  lemma MakeDayMonthCarry(year: int, monthIndex: int, date: int)
    ensures MakeDay(year, monthIndex + 12, date) == MakeDay(year + 1, monthIndex, date)
  {
    assert (monthIndex + 12) / 12 == monthIndex / 12 + 1;
    assert (monthIndex + 12) % 12 == monthIndex % 12;
  }

  /** The `Date` constructor reads a year 0..99 as 1900..1999. */
  function FullYear(y: int): int {
    if 0 <= y <= 99 then 1900 + y else y
  }

  function MinuteOfDay(t: Option<ClockTime>): nat {
    match t
    case None => 0
    case Some(c) => c.hh * 60 + c.min
  }

  /** The day number of a time value. */
  function Day(t: int): int {
    t / MsPerDay
  }

  lemma DayOf(day: int, ms: int)
    requires 0 <= ms < MsPerDay
    ensures Day(day * MsPerDay + ms) == day
    ensures (day * MsPerDay + ms) % MsPerDay == ms
  {
  }

  /** `makeLocalDate`: midnight of the date when there is no time, otherwise the date at the clock time. */
  function MakeLocalDate(d: CivilDate, t: Option<ClockTime>): int {
    MakeDay(FullYear(d.yyyy), d.mm - 1, d.dd) * MsPerDay + MinuteOfDay(t) * MsPerMinute
  }

  /**
   * For a clock time within the day, the day of `makeLocalDate`'s result is
   * the date's day number and its time of day is the clock time.
   */
  lemma MakeLocalDateParts(d: CivilDate, t: Option<ClockTime>)
    requires MinuteOfDay(t) < MinutesPerDay
    ensures Day(MakeLocalDate(d, t)) == MakeDay(FullYear(d.yyyy), d.mm - 1, d.dd)
    ensures MakeLocalDate(d, t) % MsPerDay == MinuteOfDay(t) * MsPerMinute
  {
    DayOf(MakeDay(FullYear(d.yyyy), d.mm - 1, d.dd), MinuteOfDay(t) * MsPerMinute);
  }

  /** On one date, instants are ordered as their clock times are. */
  lemma SameDateOrder(d: CivilDate, t1: Option<ClockTime>, t2: Option<ClockTime>)
    ensures MakeLocalDate(d, t1) < MakeLocalDate(d, t2) <==> MinuteOfDay(t1) < MinuteOfDay(t2)
  {
  }
}
