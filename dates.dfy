/** Calendar dates, the `%m/%d/%Y` rendering the slider date goes through,
    `date_formatter` (scr/covid_19.py:67-78) that turns it into the `M/D/YY`
    column labels of the series files, and the parse of those labels that
    `pd.to_datetime` performs on the merged table's index. */
module Dates {
  import opened Results
  import opened Strings
  import opened Constants

  datatype Date = Date(year: int, month: int, day: int)

  predicate LeapYear(y: int)
  {
    y % 4 == 0 && (y % 100 != 0 || y % 400 == 0)
  }

  function DaysInMonth(y: int, m: int): int
    requires 1 <= m <= 12
  {
    if m == 2 then (if LeapYear(y) then 29 else 28)
    else if m == 4 || m == 6 || m == 9 || m == 11 then 30
    else 31
  }

  predicate ValidDate(d: Date)
  {
    1 <= d.month <= 12 && 1 <= d.day <= DaysInMonth(d.year, d.month)
  }

  /** Years that `%Y` renders as exactly four digits. */
  predicate FourDigitYear(d: Date)
  {
    1000 <= d.year <= 9999
  }

  function Digit(k: int): char
    requires 0 <= k < 10
  {
    ('0' as int + k) as char
  }

  /** Zero-padded two digits, as `%m`, `%d` and `%y` print. */
  function Pad2(n: int): string
    requires 0 <= n < 100
  {
    [Digit(n / 10), Digit(n % 10)]
  }

  function Pad4(n: int): string
    requires 0 <= n < 10000
  {
    Pad2(n / 100) + Pad2(n % 100)
  }

  /** `date.strftime('%m/%d/%Y')`. */
  function Strftime(d: Date): (s: string)
    requires ValidDate(d) && FourDigitYear(d)
    ensures |s| == 10
  {
    Pad2(d.month) + "/" + Pad2(d.day) + "/" + Pad4(d.year)
  }

  /** A number below 100 without leading zero. */
  function Unpadded(n: int): string
    requires 0 <= n < 100
  {
    if n < 10 then [Digit(n)] else Pad2(n)
  }

  /** The column label of a date in the series files: month and day without
      leading zeros, the year as its last two digits. */
  function Label(d: Date): (s: string)
    requires ValidDate(d)
    ensures |s| <= 8
  {
    Unpadded(d.month) + "/" + Unpadded(d.day) + "/" + Pad2(d.year % 100)
  }

  /** `p[-1]` when `p.startswith('0')`, else `p` (lines 71-74). */
  function StripLeadingZero(p: string): string
  {
    if |p| > 0 && p[0] == '0' then [p[|p| - 1]] else p
  }

  /** `p[2:]` (line 76). */
  function DropCentury(p: string): string
  {
    if |p| <= 2 then "" else p[2..]
  }

  /** The copied part list with parts 0, 1 and 2 reassigned (lines 69-76). */
  function FormatParts(parts: seq<string>): seq<string>
    requires |parts| >= 3
  {
    parts[0 := StripLeadingZero(parts[0])][1 := StripLeadingZero(parts[1])][2 := DropCentury(parts[2])]
  }

  /** `date_formatter`: fails with IndexError when the string has fewer than
      three `/`-separated parts. */
  function DateFormatter(s: string): (r: Result<string>)
    ensures r.Ok? <==> |Split(s, '/')| >= 3
    ensures r.Err? ==> r.error == IndexError
  {
    var parts := Split(s, '/');
    if |parts| < 3 then Err(IndexError)
    else Ok(Join(FormatParts(parts), '/'))
  }

  lemma DigitNotSlash(k: int)
    requires 0 <= k < 10
    ensures Digit(k) != '/' && (Digit(k) == '0' <==> k == 0)
  {
  }

  lemma Pad2NoSlash(n: int)
    requires 0 <= n < 100
    ensures '/' !in Pad2(n) && '/' !in Unpadded(n)
  {
    DigitNotSlash(n / 10);
    DigitNotSlash(n % 10);
    DigitNotSlash(if n < 10 then n else 0);
  }

  /** The formatter keeps the number of parts, leaves every part after the
      third untouched, strips one leading `0` from the first two parts (keeping
      only their last character) and drops the first two characters of the third. */
  lemma {:induction false} DateFormatterParts(s: string)
    requires |Split(s, '/')| >= 3
    ensures var parts, out := Split(s, '/'), Split(DateFormatter(s).value, '/');
      && |out| == |parts|
      && out[3..] == parts[3..]
      && out[0] == (if |parts[0]| > 0 && parts[0][0] == '0' then [parts[0][|parts[0]| - 1]] else parts[0])
      && out[1] == (if |parts[1]| > 0 && parts[1][0] == '0' then [parts[1][|parts[1]| - 1]] else parts[1])
      && out[2] == (if |parts[2]| <= 2 then "" else parts[2][2..])
  {
    var parts := Split(s, '/');
    var f := FormatParts(parts);
    forall i | 0 <= i < |f| ensures '/' !in f[i] {
      if i < 2 && |parts[i]| > 0 && parts[i][0] == '0' {
        assert parts[i][|parts[i]| - 1] in parts[i];
      } else if i == 2 && |parts[2]| > 2 {
        assert forall c :: c in parts[2][2..] ==> c in parts[2];
      }
    }
    SplitJoin(f, '/');
  }

  lemma StripPad2(n: int)
    requires 1 <= n < 100
    ensures StripLeadingZero(Pad2(n)) == Unpadded(n)
    ensures StripLeadingZero(Unpadded(n)) == Unpadded(n)
  {
    DigitNotSlash(n / 10);
    DigitNotSlash(n % 10);
    DigitNotSlash(if n < 10 then n else 0);
  }

  lemma {:induction false} Join3(a: string, b: string, c: string)
    ensures Join([a, b, c], '/') == a + "/" + b + "/" + c
  {
    assert [a, b, c][1..] == [b, c];
    assert [b, c][1..] == [c];
    assert Join([c], '/') == c;
    assert Join([b, c], '/') == b + ['/'] + c;
    assert Join([a, b, c], '/') == a + ['/'] + (b + ['/'] + c);
  }

  /** Formatting a rendered `MM/DD/YYYY` date gives its `M/D/YY` label:
      `01/05/2020` becomes `1/5/20`, `12/25/2020` stays `12/25/20`. */
  lemma {:induction false} DateFormatterOfStrftime(d: Date)
    requires ValidDate(d) && FourDigitYear(d)
    ensures DateFormatter(Strftime(d)) == Ok(Label(d))
  {
    var parts := [Pad2(d.month), Pad2(d.day), Pad4(d.year)];
    Pad2NoSlash(d.month);
    Pad2NoSlash(d.day);
    Pad2NoSlash(d.year / 100);
    Pad2NoSlash(d.year % 100);
    Join3(parts[0], parts[1], parts[2]);
    assert Join(parts, '/') == Strftime(d);
    SplitJoin(parts, '/');
    StripPad2(d.month);
    StripPad2(d.day);
    assert DropCentury(Pad4(d.year)) == Pad2(d.year % 100);
    var f := [Unpadded(d.month), Unpadded(d.day), Pad2(d.year % 100)];
    assert FormatParts(parts) == f;
    Join3(f[0], f[1], f[2]);
  }

  /** The formatter is not idempotent: a label loses the rest of its year,
      `1/5/20` becomes `1/5/`. */
  lemma {:induction false} DateFormatterNotIdempotent(d: Date)
    requires ValidDate(d)
    ensures DateFormatter(Label(d)) == Ok(Unpadded(d.month) + "/" + Unpadded(d.day) + "/")
    ensures DateFormatter(Label(d)) != Ok(Label(d))
  {
    var parts := [Unpadded(d.month), Unpadded(d.day), Pad2(d.year % 100)];
    Pad2NoSlash(d.month);
    Pad2NoSlash(d.day);
    Pad2NoSlash(d.year % 100);
    Join3(parts[0], parts[1], parts[2]);
    SplitJoin(parts, '/');
    StripPad2(d.month);
    StripPad2(d.day);
    assert Label(d) == Join(parts, '/');
    var f := [Unpadded(d.month), Unpadded(d.day), ""];
    assert FormatParts(parts) == f;
    assert DateFormatter(Label(d)) == Ok(Join(f, '/'));
    Join3(f[0], f[1], f[2]);
    assert f[0] + "/" + f[1] + "/" + "" == f[0] + "/" + f[1] + "/";
  }

  lemma FirstDigits()
    ensures Digit(0) == '0' && Digit(1) == '1' && Digit(2) == '2' && Digit(5) == '5'
  {
  }

  lemma January5Renderings()
    ensures Strftime(Date(2020, 1, 5)) == "01/05/2020"
    ensures Label(Date(2020, 1, 5)) == "1/5/20"
  {
    FirstDigits();
    assert Pad2(1) == "01" && Pad2(5) == "05" && Pad2(20) == "20";
    assert Pad4(2020) == "2020";
  }

  /** The two examples of the formatter on 5 January 2020. */
  lemma DateFormatterExamples()
    ensures DateFormatter("01/05/2020") == Ok("1/5/20")
    ensures DateFormatter("1/5/20") == Ok("1/5/")
  {
    var d := Date(2020, 1, 5);
    January5Renderings();
    DateFormatterOfStrftime(d);
    DateFormatterNotIdempotent(d);
    FirstDigits();
    assert Unpadded(1) + "/" + Unpadded(5) + "/" == "1/5/";
  }

  predicate IsDigit(c: char)
  {
    '0' <= c <= '9'
  }

  predicate AllDigits(s: string)
  {
    forall i :: 0 <= i < |s| ==> IsDigit(s[i])
  }

  /** The value of a decimal numeral. */
  function ParseNat(s: string): (n: nat)
    requires AllDigits(s)
    ensures n < Pow10(|s|)
  {
    if s == [] then 0 else ParseNat(s[..|s| - 1]) * 10 + (s[|s| - 1] as int - '0' as int)
  }

  /** Ten to the power `k`, bounding the value of a `k`-digit numeral. */
  function Pow10(k: nat): nat
  {
    if k == 0 then 1 else 10 * Pow10(k - 1)
  }

  /** A numeral of one or two digits. */
  predicate ShortNumeral(s: string)
  {
    1 <= |s| <= 2 && AllDigits(s)
  }

  /** `pd.to_datetime` on a label of the series files: `M/D/YY`, month and day
      with one or two digits, a two-digit year read as 20YY, a real calendar
      date; anything else does not parse. */
  function ParseLabel(s: string): (r: Option<Date>)
    ensures r.Some? ==> ValidDate(r.value) && 2000 <= r.value.year <= 2099
  {
    var parts := Split(s, '/');
    if |parts| != 3 || !ShortNumeral(parts[0]) || !ShortNumeral(parts[1]) || |parts[2]| != 2 || !AllDigits(parts[2]) then None
    else
      var d := Date(2000 + ParseNat(parts[2]), ParseNat(parts[0]), ParseNat(parts[1]));
      if ValidDate(d) then Some(d) else None
  }

  lemma ParseDigits(n: int)
    requires 0 <= n < 100
    ensures AllDigits(Pad2(n)) && ParseNat(Pad2(n)) == n
    ensures AllDigits(Unpadded(n)) && ParseNat(Unpadded(n)) == n
  {
    var p := Pad2(n);
    assert p[..1] == [p[0]];
    assert [p[0]][..0] == [];
    var u := Unpadded(n);
    if n < 10 { assert u[..0] == []; }
  }

  /** Parsing a label gives back the date, for the years a two-digit label can name. */
  lemma {:induction false} LabelRoundTrip(d: Date)
    requires ValidDate(d) && 2000 <= d.year <= 2099
    ensures ParseLabel(Label(d)) == Some(d)
  {
    var parts := [Unpadded(d.month), Unpadded(d.day), Pad2(d.year % 100)];
    Pad2NoSlash(d.month);
    Pad2NoSlash(d.day);
    Pad2NoSlash(d.year % 100);
    Join3(parts[0], parts[1], parts[2]);
    SplitJoin(parts, '/');
    ParseDigits(d.month);
    ParseDigits(d.day);
    ParseDigits(d.year % 100);
    assert Split(Label(d), '/') == parts;
    assert ShortNumeral(parts[0]) && ShortNumeral(parts[1]) && |parts[2]| == 2 && AllDigits(parts[2]);
    assert Date(2000 + ParseNat(parts[2]), ParseNat(parts[0]), ParseNat(parts[1])) == d;
  }

  /** A label that reads as a date is at most eight characters long, so it is
      never the ten-character output of `Strftime`. */
  lemma ParseLabelShort(s: string)
    requires ParseLabel(s).Some?
    ensures |s| <= 8
  {
    var parts := Split(s, '/');
    JoinSplit(s, '/');
    assert parts == [parts[0], parts[1], parts[2]];
    Join3(parts[0], parts[1], parts[2]);
  }

  /** Days since 1970-01-01 in the proleptic Gregorian calendar. */
  function DayNumber(d: Date): int
    requires ValidDate(d)
  {
    var y := if d.month <= 2 then d.year - 1 else d.year;
    var era := y / 400;
    var yoe := y - era * 400;
    var mp := if d.month > 2 then d.month - 3 else d.month + 9;
    var doy := (153 * mp + 2) / 5 + d.day - 1;
    var doe := yoe * 365 + yoe / 4 - yoe / 100 + doy;
    era * 146097 + doe - 719468
  }

  /** The timestamp of a date's midnight, in hours since 1970-01-01T00:00. */
  function MidnightHours(d: Date): int
    requires ValidDate(d)
  {
    DayNumber(d) * 24
  }

  /** Within a month the next day's midnight is 24 hours later. */
  lemma NextDayHours(d: Date)
    requires ValidDate(d) && d.day < DaysInMonth(d.year, d.month)
    ensures ValidDate(d.(day := d.day + 1))
    ensures MidnightHours(d.(day := d.day + 1)) == MidnightHours(d) + 24
  {
  }

  /** The slider's first date (scr/covid_19_constants.py:15-17) is a real
      date, the first column label of the series files, and day 18283 of the
      epoch. */
  lemma SliderStart()
    ensures var d := Date(StartYear, StartMonth, StartDay);
      && ValidDate(d) && FourDigitYear(d)
      && Strftime(d) == "01/22/2020" && Label(d) == "1/22/20"
      && DateFormatter(Strftime(d)) == Ok("1/22/20")
      && DayNumber(d) == 18283
  {
    var d := Date(StartYear, StartMonth, StartDay);
    FirstDigits();
    DateFormatterOfStrftime(d);
  }
}
