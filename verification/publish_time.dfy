/** Publish-time normalisation (`convert_publish_time_to_timestamp`): the
    raw string is tried against six `strptime` formats in a fixed order and
    the first that matches the whole string wins; the month-day-only format
    is read in the current year and moved back a year when that date is
    still ahead of `now`; if nothing matches the result is `now`.
    The final `int(dt.timestamp())` depends on the local time zone and is
    not modelled: the result here is the `datetime` whose timestamp the
    source returns. */
module PublishTime {
  import opened Options
  import opened Text

  datatype DateTime = DateTime(year: int, month: int, day: int, hour: int, minute: int, second: int)

  predicate IsLeap(y: int) {
    y % 4 == 0 && (y % 100 != 0 || y % 400 == 0)
  }

  function DaysIn(y: int, m: int): int {
    if m == 2 then (if IsLeap(y) then 29 else 28)
    else if m == 4 || m == 6 || m == 9 || m == 11 then 30
    else 31
  }

  /** The values Python's `datetime` constructor accepts. */
  predicate Valid(t: DateTime) {
    && 1 <= t.year <= 9999
    && 1 <= t.month <= 12
    && 1 <= t.day <= DaysIn(t.year, t.month)
    && 0 <= t.hour < 24
    && 0 <= t.minute < 60
    && 0 <= t.second < 60
  }

  /** `a > b` for datetimes. `now`'s microseconds are not modelled: every
      parsed value has none, so comparing to the second is exact. */
  predicate After(a: DateTime, b: DateTime) {
    if a.year != b.year then a.year > b.year
    else if a.month != b.month then a.month > b.month
    else if a.day != b.day then a.day > b.day
    else if a.hour != b.hour then a.hour > b.hour
    else if a.minute != b.minute then a.minute > b.minute
    else a.second > b.second
  }

  /** One element of a `strptime` format: a field directive, a literal
      character, or a run of format whitespace (which matches `\s+`). */
  datatype Directive = Year | Month | Day | Hour | Minute | Second | Sep(c: char) | Gap

  const FullDateTime: seq<Directive> := [Year, Sep('-'), Month, Sep('-'), Day, Gap, Hour, Sep(':'), Minute, Sep(':'), Second]
  const CjkDateTime: seq<Directive> := [Year, Sep('年'), Month, Sep('月'), Day, Sep('日'), Gap, Hour, Sep(':'), Minute]
  const DateMinute: seq<Directive> := [Year, Sep('-'), Month, Sep('-'), Day, Gap, Hour, Sep(':'), Minute]
  const DateOnly: seq<Directive> := [Year, Sep('-'), Month, Sep('-'), Day]
  const CjkDate: seq<Directive> := [Year, Sep('年'), Month, Sep('月'), Day, Sep('日')]

  /** The first five formats, in the source's order. The sixth, "%m月%d日",
      is parsed by MonthDay as "%Y年%m月%d日" on the current year's prefix,
      exactly as the source does. */
  const Formats: seq<seq<Directive>> := [FullDateTime, CjkDateTime, DateMinute, DateOnly, CjkDate]

  /** The fields `strptime` fills in when the format does not mention them. */
  const Defaults: DateTime := DateTime(1900, 1, 1, 0, 0, 0)

  /** Number of leading ASCII digits. */
  function DigitRun(s: string): (n: nat)
    ensures n <= |s|
    ensures forall k :: 0 <= k < n ==> IsDigit(s[k])
    ensures n < |s| ==> !IsDigit(s[n])
  {
    if |s| > 0 && IsDigit(s[0]) then 1 + DigitRun(s[1..]) else 0
  }

  predicate IsField(d: Directive) {
    d.Year? || d.Month? || d.Day? || d.Hour? || d.Minute? || d.Second?
  }

  /** The digit strings the `_strptime` regular expression of each field
      admits, as lengths and a value range:
      %Y \d\d\d\d; %m 1[0-2]|0[1-9]|[1-9]; %d 3[01]|[12]\d|0[1-9]|[1-9];
      %H 2[0-3]|[0-1]\d|\d; %M [0-5]\d|\d; %S 6[0-1]|[0-5]\d|\d. */
  predicate Accepts(d: Directive, txt: string)
    requires IsField(d)
    requires forall k :: 0 <= k < |txt| ==> IsDigit(txt[k])
  {
    var v := DigitsValue(txt);
    match d
    case Year => |txt| == 4
    case Month => 1 <= |txt| <= 2 && 1 <= v <= 12
    case Day => 1 <= |txt| <= 2 && 1 <= v <= 31
    case Hour => 1 <= |txt| <= 2 && v <= 23
    case Minute => 1 <= |txt| <= 2 && v <= 59
    case Second => 1 <= |txt| <= 2 && v <= 61
  }

  function SetField(t: DateTime, d: Directive, v: int): DateTime
    requires IsField(d)
  {
    match d
    case Year => t.(year := v)
    case Month => t.(month := v)
    case Day => t.(day := v)
    case Hour => t.(hour := v)
    case Minute => t.(minute := v)
    case Second => t.(second := v)
  }

  /** The compiled format regular expression matched against the whole
      string. Every field directive in the formats above is followed by a
      literal that is not a digit, by whitespace or by the end, so a field
      must take the maximal digit run; the day also admits " [1-9]". */
  function MatchFmt(fmt: seq<Directive>, s: string, acc: DateTime): Option<DateTime>
    decreases |fmt|, 1
  {
    if |fmt| == 0 then (if |s| == 0 then Some(acc) else None)
    else
      match fmt[0]
      case Sep(c) =>
        if |s| > 0 && s[0] == c then MatchFmt(fmt[1..], s[1..], acc) else None
      case Gap =>
        var n := LeadSpaces(s);
        if n == 0 then None else MatchFmt(fmt[1..], s[n..], acc)
      case Day =>
        if |s| >= 2 && s[0] == ' ' && '1' <= s[1] <= '9' && (|s| == 2 || !IsDigit(s[2])) then
          MatchFmt(fmt[1..], s[2..], acc.(day := s[1] as int - '0' as int))
        else MatchDigits(fmt, s, acc)
      case _ => MatchDigits(fmt, s, acc)
  }

  /** A field directive reading the maximal digit run. */
  function MatchDigits(fmt: seq<Directive>, s: string, acc: DateTime): Option<DateTime>
    requires |fmt| > 0 && IsField(fmt[0])
    decreases |fmt|, 0
  {
    var n := DigitRun(s);
    if Accepts(fmt[0], s[..n]) then
      MatchFmt(fmt[1..], s[n..], SetField(acc, fmt[0], DigitsValue(s[..n])))
    else None
  }

  /** `datetime.strptime(s, fmt)`, `None` where it raises ValueError. */
  function Parse(fmt: seq<Directive>, s: string): (r: Option<DateTime>)
    ensures r.Some? ==> Valid(r.value)
  {
    match MatchFmt(fmt, s, Defaults)
    case Some(t) => if Valid(t) then Some(t) else None
    case None => None
  }

  /** The first of `fmts` that parses `s`. */
  function FirstParse(fmts: seq<seq<Directive>>, s: string): (r: Option<DateTime>)
    ensures r.None? <==> forall k :: 0 <= k < |fmts| ==> Parse(fmts[k], s).None?
    ensures forall k :: 0 <= k < |fmts| && Parse(fmts[k], s).Some?
              && (forall j :: 0 <= j < k ==> Parse(fmts[j], s).None?)
              ==> r == Parse(fmts[k], s)
  {
    if |fmts| == 0 then None
    else
      match Parse(fmts[0], s)
      case Some(t) => Some(t)
      case None =>
        var r := FirstParse(fmts[1..], s);
        assert forall k :: 1 <= k < |fmts| ==> fmts[k] == fmts[1..][k - 1];
        r
  }

  /** The "%m月%d日" branch: the current year is prefixed and the string is
      parsed as "%Y年%m月%d日"; a date still ahead of `now` moves to the
      previous year, and a 29 February that does not exist there raises
      ValueError (`None`). Since `%Y` takes exactly four digits, the branch
      always fails before year 1000. */
  function MonthDay(s: string, now: DateTime): (r: Option<DateTime>)
    requires Valid(now)
    ensures now.year < 1000 ==> r.None?
    ensures r.Some? ==> Valid(r.value) && !After(r.value, now)
    ensures r.Some? ==> r.value.year == now.year || r.value.year == now.year - 1
    ensures r.Some? ==> (r.value.year == now.year - 1 <==> After(r.value.(year := now.year), now))
  {
    DecimalLength(now.year);
    match Parse(CjkDate, Decimal(now.year) + "年" + s)
    case None => None
    case Some(t) =>
      YearFromPrefix(now.year, s, t);
      if After(t, now) then
        var u := t.(year := now.year - 1);
        if Valid(u) then Some(u) else None
      else Some(t)
  }

  /** A successful parse of the prefixed string keeps the prefixed year. */
  lemma YearFromPrefix(y: nat, s: string, t: DateTime)
    requires Parse(CjkDate, Decimal(y) + "年" + s) == Some(t)
    ensures |Decimal(y)| == 4 && t.year == y
  {
    var d := Decimal(y);
    var rest := "年" + s;
    assert Decimal(y) + "年" + s == d + rest;
    assert rest[0] == '年';
    assert CjkDate[0] == Year && Year !in CjkDate[1..];
    assert MatchFmt(CjkDate, d + rest, Defaults).Some?;
    YearLeads(CjkDate, d, rest);
  }

  /** A format that starts with `%Y` and succeeds on `d + rest`, where `d`
      is a digit string and `rest` starts with a non-digit, read `d` as the
      year. */
  lemma YearLeads(fmt: seq<Directive>, d: string, rest: string)
    requires |fmt| > 0 && fmt[0] == Year && Year !in fmt[1..]
    requires forall k :: 0 <= k < |d| ==> IsDigit(d[k])
    requires |rest| > 0 && !IsDigit(rest[0])
    requires MatchFmt(fmt, d + rest, Defaults).Some?
    ensures |d| == 4 && MatchFmt(fmt, d + rest, Defaults).value.year == DigitsValue(d)
  {
    var w := d + rest;
    DigitRunOf(d, rest);
    var n := DigitRun(w);
    assert w[..n] == d;
    assert w[n..] == rest;
    assert MatchFmt(fmt, w, Defaults) == MatchDigits(fmt, w, Defaults);
    YearSticks(fmt[1..], rest, SetField(Defaults, Year, DigitsValue(d)));
  }

  /** No directive after the year changes the year. */
  lemma {:induction false} YearSticks(fmt: seq<Directive>, s: string, acc: DateTime)
    requires Year !in fmt
    ensures MatchFmt(fmt, s, acc).Some? ==> MatchFmt(fmt, s, acc).value.year == acc.year
    decreases |fmt|, 1
  {
    if |fmt| > 0 {
      assert fmt[0] in fmt;
      assert forall d :: d in fmt[1..] ==> d in fmt;
      match fmt[0]
      case Sep(c) =>
        if |s| > 0 && s[0] == c { YearSticks(fmt[1..], s[1..], acc); }
      case Gap =>
        var n := LeadSpaces(s);
        if n > 0 { YearSticks(fmt[1..], s[n..], acc); }
      case Day =>
        if |s| >= 2 && s[0] == ' ' && '1' <= s[1] <= '9' && (|s| == 2 || !IsDigit(s[2])) {
          YearSticks(fmt[1..], s[2..], acc.(day := s[1] as int - '0' as int));
        } else {
          DigitsKeepYear(fmt, s, acc);
        }
      case Year =>
        assert false;
      case Month | Hour | Minute | Second =>
        DigitsKeepYear(fmt, s, acc);
    }
  }

  lemma {:induction false} DigitsKeepYear(fmt: seq<Directive>, s: string, acc: DateTime)
    requires |fmt| > 0 && IsField(fmt[0]) && Year !in fmt
    ensures MatchDigits(fmt, s, acc).Some? ==> MatchDigits(fmt, s, acc).value.year == acc.year
    decreases |fmt|, 0
  {
    assert fmt[0] in fmt;
    assert forall d :: d in fmt[1..] ==> d in fmt;
    var n := DigitRun(s);
    if Accepts(fmt[0], s[..n]) {
      YearSticks(fmt[1..], s[n..], SetField(acc, fmt[0], DigitsValue(s[..n])));
    }
  }

  /** The digit run of `digits + rest` is `digits` when `rest` does not
      start with a digit. */
  lemma {:induction false} DigitRunOf(digits: string, rest: string)
    requires forall k :: 0 <= k < |digits| ==> IsDigit(digits[k])
    requires |rest| > 0 ==> !IsDigit(rest[0])
    ensures DigitRun(digits + rest) == |digits|
    decreases |digits|
  {
    if |digits| > 0 {
      assert (digits + rest)[1..] == digits[1..] + rest;
      DigitRunOf(digits[1..], rest);
    } else {
      assert digits + rest == rest;
    }
  }

  /** `convert_publish_time_to_timestamp(s)` at the instant `now`. */
  function Convert(s: string, now: DateTime): (r: DateTime)
    requires Valid(now)
    ensures Valid(r)
    ensures forall k :: 0 <= k < |Formats| && Parse(Formats[k], s).Some?
              && (forall j :: 0 <= j < k ==> Parse(Formats[j], s).None?)
              ==> r == Parse(Formats[k], s).value
    ensures FirstParse(Formats, s).None? && MonthDay(s, now).Some? ==> r == MonthDay(s, now).value
    ensures FirstParse(Formats, s).None? && MonthDay(s, now).None? ==> r == now
  {
    match FirstParse(Formats, s)
    case Some(t) => t
    case None => MonthDay(s, now).GetOr(now)
  }

  /** Two zero-padded decimal digits. */
  function Two(n: nat): (s: string)
    requires n < 100
    ensures |s| == 2 && IsDigit(s[0]) && IsDigit(s[1])
    ensures DigitsValue(s) == n
  {
    var s := [DigitChar(n / 10), DigitChar(n % 10)];
    assert s[..1] == [DigitChar(n / 10)];
    assert [DigitChar(n / 10)][..0] == [];
    assert DigitsValue([DigitChar(n / 10)]) == n / 10;
    s
  }

  /** Four zero-padded decimal digits. */
  function Four(n: nat): (s: string)
    requires n < 10000
    ensures |s| == 4 && forall k :: 0 <= k < 4 ==> IsDigit(s[k])
    ensures DigitsValue(s) == n
  {
    var hi := Two(n / 100);
    var lo := Two(n % 100);
    var s := hi + lo;
    assert s[..3] == hi + [lo[0]];
    assert (hi + [lo[0]])[..2] == hi;
    var d2 := lo[0] as int - '0' as int;
    var d3 := lo[1] as int - '0' as int;
    assert lo[..1] == [lo[0]];
    assert DigitsValue(lo) == 10 * d2 + d3;
    assert DigitsValue(hi + [lo[0]]) == 10 * DigitsValue(hi) + d2;
    assert DigitsValue(s) == 10 * DigitsValue(hi + [lo[0]]) + d3;
    assert DigitsValue(s) == 100 * (n / 100) + n % 100;
    s
  }

  function FieldOf(d: Directive, t: DateTime): int
    requires IsField(d)
  {
    match d
    case Year => t.year
    case Month => t.month
    case Day => t.day
    case Hour => t.hour
    case Minute => t.minute
    case Second => t.second
  }

  /** The text one directive prints for a datetime, every field
      zero-padded (the form `strftime` produces for four-digit years). */
  function Token(d: Directive, t: DateTime): string
    requires Valid(t)
  {
    match d
    case Sep(c) => [c]
    case Gap => " "
    case Year => Four(t.year)
    case Month => Two(t.month)
    case Day => Two(t.day)
    case Hour => Two(t.hour)
    case Minute => Two(t.minute)
    case Second => Two(t.second)
  }

  function Render(fmt: seq<Directive>, t: DateTime): string
    requires Valid(t)
  {
    if |fmt| == 0 then "" else Token(fmt[0], t) + Render(fmt[1..], t)
  }

  /** The datetime `strptime` builds from a format whose fields are read
      from `t`. */
  function Fill(fmt: seq<Directive>, t: DateTime, acc: DateTime): DateTime {
    if |fmt| == 0 then acc
    else if IsField(fmt[0]) then Fill(fmt[1..], t, SetField(acc, fmt[0], FieldOf(fmt[0], t)))
    else Fill(fmt[1..], t, acc)
  }

  /** Fill takes every field the format names from `t` and every other one
      from `acc`. */
  lemma {:induction false} FillFields(fmt: seq<Directive>, t: DateTime, acc: DateTime)
    ensures forall d :: IsField(d) ==>
      FieldOf(d, Fill(fmt, t, acc)) == if d in fmt then FieldOf(d, t) else FieldOf(d, acc)
    decreases |fmt|
  {
    if |fmt| > 0 {
      assert forall d :: d in fmt <==> d == fmt[0] || d in fmt[1..];
      if IsField(fmt[0]) {
        FillFields(fmt[1..], t, SetField(acc, fmt[0], FieldOf(fmt[0], t)));
      } else {
        FillFields(fmt[1..], t, acc);
      }
    }
  }

  lemma SameFields(a: DateTime, b: DateTime)
    requires forall d :: IsField(d) ==> FieldOf(d, a) == FieldOf(d, b)
    ensures a == b
  {
    assert FieldOf(Year, a) == FieldOf(Year, b);
    assert FieldOf(Month, a) == FieldOf(Month, b);
    assert FieldOf(Day, a) == FieldOf(Day, b);
    assert FieldOf(Hour, a) == FieldOf(Hour, b);
    assert FieldOf(Minute, a) == FieldOf(Minute, b);
    assert FieldOf(Second, a) == FieldOf(Second, b);
  }

  /** Formats whose fields are separated as in the source's formats: each
      field is followed by a non-field, whitespace is followed by a field,
      and literals are neither digits nor whitespace. */
  predicate Separated(fmt: seq<Directive>) {
    |fmt| == 0 ||
    (&& (IsField(fmt[0]) && |fmt| > 1 ==> !IsField(fmt[1]))
     && (fmt[0].Gap? ==> |fmt| > 1 && IsField(fmt[1]))
     && (fmt[0].Sep? ==> !IsDigit(fmt[0].c) && !IsSpace(fmt[0].c))
     && Separated(fmt[1..]))
  }

  /** The rendering of a format starts with a digit exactly when the format
      starts with a field. */
  lemma RenderHead(fmt: seq<Directive>, t: DateTime)
    requires Valid(t) && |fmt| > 0 && Separated(fmt)
    ensures |Render(fmt, t)| > 0
    ensures IsField(fmt[0]) ==> IsDigit(Render(fmt, t)[0]) && !IsSpace(Render(fmt, t)[0])
    ensures !IsField(fmt[0]) ==> !IsDigit(Render(fmt, t)[0])
  {
  }

  /** One field directive reading a digit string that is followed by a
      non-digit or the end. */
  lemma StepDigits(fmt: seq<Directive>, txt: string, rest: string, acc: DateTime)
    requires |fmt| > 0 && IsField(fmt[0])
    requires forall k :: 0 <= k < |txt| ==> IsDigit(txt[k])
    requires |rest| > 0 ==> !IsDigit(rest[0])
    requires Accepts(fmt[0], txt)
    ensures MatchFmt(fmt, txt + rest, acc) == MatchFmt(fmt[1..], rest, SetField(acc, fmt[0], DigitsValue(txt)))
  {
    var w := txt + rest;
    DigitRunOf(txt, rest);
    assert w[..|txt|] == txt && w[|txt|..] == rest;
    assert IsDigit(w[0]);
    assert MatchFmt(fmt, w, acc) == MatchDigits(fmt, w, acc);
  }

  /** Reading the rendering of a datetime back gives its fields. */
  lemma {:induction false} RenderRead(fmt: seq<Directive>, t: DateTime, acc: DateTime)
    requires Valid(t) && Separated(fmt)
    ensures MatchFmt(fmt, Render(fmt, t), acc) == Some(Fill(fmt, t, acc))
    decreases |fmt|
  {
    if |fmt| > 0 {
      var rest := fmt[1..];
      var tail := Render(rest, t);
      var head := Token(fmt[0], t);
      assert Render(fmt, t) == head + tail;
      if |rest| > 0 {
        RenderHead(rest, t);
      }
      match fmt[0]
      case Sep(c) =>
        assert (head + tail)[1..] == tail;
        RenderRead(rest, t, acc);
      case Gap =>
        assert (head + tail)[1..] == tail;
        assert LeadSpaces(head + tail) == 1;
        RenderRead(rest, t, acc);
      case _ =>
        assert forall k :: 0 <= k < |head| ==> IsDigit(head[k]);
        assert DigitsValue(head) == FieldOf(fmt[0], t);
        StepDigits(fmt, head, tail, acc);
        RenderRead(rest, t, SetField(acc, fmt[0], FieldOf(fmt[0], t)));
    }
  }

  /** Round trip: the zero-padded "YYYY-MM-DD HH:MM:SS" rendering of any
      valid datetime is read back by the first format as exactly that
      datetime, whatever `now` is. */
  lemma FullRoundTrip(t: DateTime, now: DateTime)
    requires Valid(t) && Valid(now)
    ensures Convert(Render(FullDateTime, t), now) == t
  {
    FullShape();
    ReadsBack(FullDateTime, t);
    FirstFormatWins(Render(FullDateTime, t), now);
  }

  lemma FullShape()
    ensures Separated(FullDateTime)
    ensures forall d :: IsField(d) ==> d in FullDateTime
  {
    var f := FullDateTime;
    assert Separated(f[10..]);
    assert Separated(f[9..]);
    assert Separated(f[8..]);
    assert Separated(f[7..]);
    assert Separated(f[6..]);
    assert Separated(f[5..]);
    assert Separated(f[4..]);
    assert Separated(f[3..]);
    assert Separated(f[2..]);
    assert Separated(f[1..]);
    assert f[0] == Year && f[2] == Month && f[4] == Day;
    assert f[6] == Hour && f[8] == Minute && f[10] == Second;
  }

  /** A format naming every field reads its own rendering back exactly. */
  lemma ReadsBack(fmt: seq<Directive>, t: DateTime)
    requires Valid(t) && Separated(fmt)
    requires forall d :: IsField(d) ==> d in fmt
    ensures Parse(fmt, Render(fmt, t)) == Some(t)
  {
    RenderRead(fmt, t, Defaults);
    FillFields(fmt, t, Defaults);
    SameFields(Fill(fmt, t, Defaults), t);
  }

  lemma FirstFormatWins(s: string, now: DateTime)
    requires Valid(now) && Parse(FullDateTime, s).Some?
    ensures Convert(s, now) == Parse(FullDateTime, s).value
  {
    assert Formats[0] == FullDateTime;
  }

  /** The example of a full date-time string. */
  lemma FullExample(now: DateTime)
    requires Valid(now)
    ensures Convert("2024-01-01 12:30:45", now) == DateTime(2024, 1, 1, 12, 30, 45)
  {
    var t := DateTime(2024, 1, 1, 12, 30, 45);
    assert Render(FullDateTime, t) == "2024-01-01 12:30:45";
    FullRoundTrip(t, now);
  }

  /** A format that starts with `%Y` fails on a string whose digit run is
      not four long. */
  lemma YearNeedsFour(fmt: seq<Directive>, s: string)
    requires |fmt| > 0 && fmt[0] == Year
    requires DigitRun(s) != 4
    ensures Parse(fmt, s).None?
  {
    assert MatchFmt(fmt, s, Defaults) == MatchDigits(fmt, s, Defaults);
  }

  /** The sixth format, "%m月%d日". */
  const MonthDayFmt: seq<Directive> := [Month, Sep('月'), Day, Sep('日')]

  /** A month-day-only string such as "03月24日": it lands in now's year,
      or in the year before when that date is still ahead of `now`; a date
      that does not exist in the year it lands in falls back to `now`. */
  lemma MonthDayInput(t: DateTime, now: DateTime)
    requires Valid(now) && 1000 <= now.year
    requires Valid(t) && t.year == now.year && t.hour == 0 && t.minute == 0 && t.second == 0
    ensures var back := t.(year := now.year - 1);
      Convert(Render(MonthDayFmt, t), now) ==
        if !After(t, now) then t
        else if Valid(back) then back
        else now
  {
    var s := Render(MonthDayFmt, t);
    RenderMonthDay(t);
    DigitRunOf(Two(t.month), "月" + (Two(t.day) + "日"));
    NoYearNoFormat(s);
    PrefixedMonthDay(t);
  }

  /** None of the first five formats reads a string whose leading digit
      run is not four long: each of them starts with `%Y`. */
  lemma NoYearNoFormat(s: string)
    requires DigitRun(s) != 4
    ensures FirstParse(Formats, s).None?
  {
    forall k | 0 <= k < |Formats|
      ensures Parse(Formats[k], s).None?
    {
      YearNeedsFour(Formats[k], s);
    }
  }

  /** The month-day branch reads its prefixed string as the date in the
      prefixed year. */
  lemma PrefixedMonthDay(t: DateTime)
    requires Valid(t) && 1000 <= t.year && t.hour == 0 && t.minute == 0 && t.second == 0
    ensures Parse(CjkDate, Decimal(t.year) + "年" + Render(MonthDayFmt, t)) == Some(t)
  {
    var rest := "年" + Render(MonthDayFmt, t);
    assert Decimal(t.year) + "年" + Render(MonthDayFmt, t) == Decimal(t.year) + rest;
    var a1 := SetField(Defaults, Year, t.year);
    YearPrefixRead(t);
    CjkTail(t);
    RenderRead(CjkDate[1..], t, a1);
    MonthDayFill(t);
  }

  lemma YearPrefixRead(t: DateTime)
    requires Valid(t) && 1000 <= t.year
    ensures MatchFmt(CjkDate, Decimal(t.year) + ("年" + Render(MonthDayFmt, t)), Defaults)
       == MatchFmt(CjkDate[1..], "年" + Render(MonthDayFmt, t), SetField(Defaults, Year, t.year))
  {
    DecimalLength(t.year);
    CjkTail(t);
    StepDigits(CjkDate, Decimal(t.year), "年" + Render(MonthDayFmt, t), Defaults);
  }

  lemma MonthDayFill(t: DateTime)
    requires Valid(t) && t.hour == 0 && t.minute == 0 && t.second == 0
    ensures Fill(CjkDate[1..], t, SetField(Defaults, Year, t.year)) == t
  {
    var a1 := SetField(Defaults, Year, t.year);
    CjkTail(t);
    FillFields(CjkDate[1..], t, a1);
    SameFields(Fill(CjkDate[1..], t, a1), t);
  }

  lemma CjkTail(t: DateTime)
    requires Valid(t)
    ensures CjkDate[1..] == [Sep('年')] + MonthDayFmt
    ensures Render(CjkDate[1..], t) == "年" + Render(MonthDayFmt, t)
    ensures Separated(CjkDate[1..])
    ensures CjkDate[0] == Year
    ensures forall d :: d in CjkDate[1..] <==> d in MonthDayFmt || d == Sep('年')
  {
    var f := CjkDate[1..];
    assert f == [Sep('年')] + MonthDayFmt;
    assert f[1..] == MonthDayFmt;
    assert Separated(f[4..]);
    assert Separated(f[3..]);
    assert Separated(f[2..]);
    assert Separated(f[1..]);
  }

  lemma RenderMonthDay(t: DateTime)
    requires Valid(t)
    ensures Render(MonthDayFmt, t) == Two(t.month) + ("月" + (Two(t.day) + "日"))
  {
    var f := MonthDayFmt;
    assert Render(f[3..], t) == "日";
    assert Render(f[2..], t) == Two(t.day) + "日";
    assert Render(f[1..], t) == "月" + (Two(t.day) + "日");
  }

  /** The month-day example: "03月24日" read on 23 March 2026 is a date
      still ahead, so it is placed in 2025. */
  lemma MonthDayExample(h: int, mi: int, sec: int)
    requires 0 <= h < 24 && 0 <= mi < 60 && 0 <= sec < 60
    ensures Convert("03月24日", DateTime(2026, 3, 23, h, mi, sec)) == DateTime(2025, 3, 24, 0, 0, 0)
  {
    var t := DateTime(2026, 3, 24, 0, 0, 0);
    MarchText();
    MonthDayInput(t, DateTime(2026, 3, 23, h, mi, sec));
  }

  lemma MarchText()
    ensures Render(MonthDayFmt, DateTime(2026, 3, 24, 0, 0, 0)) == "03月24日"
  {
    assert Two(3) == "03" && Two(24) == "24";
    RenderMonthDay(DateTime(2026, 3, 24, 0, 0, 0));
  }

  /** Read on the same day, the date stays in the current year. */
  lemma MonthDayToday(now: DateTime)
    requires Valid(now) && 1000 <= now.year
    ensures var t := DateTime(now.year, now.month, now.day, 0, 0, 0);
      Convert(Render(MonthDayFmt, t), now) == t
  {
    MonthDayInput(DateTime(now.year, now.month, now.day, 0, 0, 0), now);
  }

  /** "02月29日" read in January of a leap year would move to the previous
      year, which has no 29 February: the ValueError is swallowed and the
      result is `now`. */
  lemma LeapDayFallsThrough(now: DateTime)
    requires Valid(now) && 1000 <= now.year && IsLeap(now.year)
    requires now.month == 1
    ensures Convert("02月29日", now) == now
  {
    var t := DateTime(now.year, 2, 29, 0, 0, 0);
    assert now.year % 4 == 0;
    assert (now.year - 1) % 4 == 3;
    assert !Valid(t.(year := now.year - 1));
    assert After(t, now);
    LeapText(t);
    MonthDayInput(t, now);
  }

  lemma LeapText(t: DateTime)
    requires Valid(t) && t.month == 2 && t.day == 29
    ensures Render(MonthDayFmt, t) == "02月29日"
  {
    assert Two(2) == "02" && Two(29) == "29";
    RenderMonthDay(t);
  }
}
