/** The proleptic Gregorian dates of Python's `datetime`, and the three textual
    forms the reconciliation reads and writes: `DD-MM-YYYY`, `DD-Mon-YY` and
    `YYYY-MM-DD`. Only the exact zero-padded forms are modelled. */
module Calendar {
  import opened Wrappers
  import opened Strings

  datatype Date = Date(year: int, month: int, day: int)

  predicate IsLeapYear(y: int)
  {
    y % 4 == 0 && (y % 100 != 0 || y % 400 == 0)
  }

  function DaysInMonth(y: int, m: int): int
    requires 1 <= m <= 12
  {
    if m == 2 then (if IsLeapYear(y) then 29 else 28)
    else if m == 4 || m == 6 || m == 9 || m == 11 then 30
    else 31
  }

  /** A date `datetime` can represent: years 1 to 9999, real days of real months. */
  predicate Valid(d: Date)
  {
    1 <= d.year <= 9999 && 1 <= d.month <= 12 && 1 <= d.day <= DaysInMonth(d.year, d.month)
  }

  type ValidDate = d: Date | Valid(d) witness Date(2000, 1, 1)

  /** The C-locale `%b` month abbreviations. */
  const MonthAbbreviations: seq<string> :=
    ["Jan", "Feb", "Mar", "Apr", "May", "Jun", "Jul", "Aug", "Sep", "Oct", "Nov", "Dec"]

  function MonthAbbr(m: int): (r: string)
    requires 1 <= m <= 12
    ensures |r| == 3
    ensures forall i :: 0 <= i < 3 ==> 'A' <= r[i] <= 'Z' || 'a' <= r[i] <= 'z'
  {
    MonthAbbreviations[m - 1]
  }

  /** No two months share an abbreviation. */
  lemma MonthAbbrInjective(m1: int, m2: int)
    requires 1 <= m1 <= 12 && 1 <= m2 <= 12
    requires MonthAbbr(m1) == MonthAbbr(m2)
    ensures m1 == m2
  {
    var a, b := MonthAbbr(m1), MonthAbbr(m2);
    assert a[0] == b[0] && a[1] == b[1] && a[2] == b[2];
  }

  /** The first month, from `m` on, whose abbreviation is `s`. */
  function FindMonth(s: string, m: int): (r: Option<int>)
    requires 1 <= m <= 13
    ensures r.Some? ==> m <= r.value <= 12 && MonthAbbr(r.value) == s
    ensures r.None? ==> forall k :: m <= k <= 12 ==> MonthAbbr(k) != s
    decreases 13 - m
  {
    if m == 13 then None
    else if MonthAbbr(m) == s then Some(m)
    else FindMonth(s, m + 1)
  }

  /** strptime's `%b`, case-sensitive: the month whose abbreviation is `s`. */
  function MonthOfAbbr(s: string): (r: Option<int>)
    ensures r.Some? ==> 1 <= r.value <= 12 && MonthAbbr(r.value) == s
    ensures r.None? ==> forall k :: 1 <= k <= 12 ==> MonthAbbr(k) != s
  {
    FindMonth(s, 1)
  }

  /** strptime's `%y` window: 00-68 are 2000-2068, 69-99 are 1969-1999. */
  function ExpandYear(yy: int): (y: int)
    requires 0 <= yy < 100
    ensures 1969 <= y <= 2068 && y % 100 == yy
  {
    if yy <= 68 then 2000 + yy else 1900 + yy
  }

  /** The date a `DD-Mon-YY` rendering of `d` reads back as: same day and
      month, century chosen by the `%y` window. */
  function Windowed(d: Date): Date
  {
    Date(ExpandYear(d.year % 100), d.month, d.day)
  }

  /** `strftime('%d-%b-%y')`. */
  function FormatDMonYY(d: Date): (s: string)
    requires Valid(d)
    ensures |s| == 9 && s[2] == '-' && s[6] == '-'
    ensures AllDigits(s[..2]) && s[3..6] == MonthAbbr(d.month) && AllDigits(s[7..])
    ensures Value2(s[..2]) == d.day && Value2(s[7..]) == d.year % 100
  {
    var s := Pad2(d.day) + "-" + MonthAbbr(d.month) + "-" + Pad2(d.year % 100);
    assert s[..2] == Pad2(d.day) && s[7..] == Pad2(d.year % 100);
    Value2OfPad2(d.day);
    Value2OfPad2(d.year % 100);
    s
  }

  /** `strftime('%d-%m-%Y')`. */
  function FormatDmy(d: Date): (s: string)
    requires Valid(d)
    ensures |s| == 10 && s[2] == '-' && s[5] == '-'
    ensures AllDigits(s[..2]) && AllDigits(s[3..5]) && AllDigits(s[6..])
    ensures Value2(s[..2]) == d.day && Value2(s[3..5]) == d.month && Value4(s[6..]) == d.year
  {
    var s := Pad2(d.day) + "-" + Pad2(d.month) + "-" + Pad4(d.year);
    assert s[..2] == Pad2(d.day) && s[3..5] == Pad2(d.month) && s[6..] == Pad4(d.year);
    Value2OfPad2(d.day);
    Value2OfPad2(d.month);
    Value4OfPad4(d.year);
    s
  }

  /** `strftime('%Y-%m-%d')`. */
  function FormatIso(d: Date): (s: string)
    requires Valid(d)
    ensures |s| == 10 && s[4] == '-' && s[7] == '-'
    ensures AllDigits(s[..4]) && AllDigits(s[5..7]) && AllDigits(s[8..])
    ensures Value4(s[..4]) == d.year && Value2(s[5..7]) == d.month && Value2(s[8..]) == d.day
  {
    var s := Pad4(d.year) + "-" + Pad2(d.month) + "-" + Pad2(d.day);
    assert s[..4] == Pad4(d.year) && s[5..7] == Pad2(d.month) && s[8..] == Pad2(d.day);
    Value4OfPad4(d.year);
    Value2OfPad2(d.month);
    Value2OfPad2(d.day);
    s
  }

  /** `to_datetime(s, format='%d-%b-%y')`: `None` where the source raises
      ValueError. What it accepts is exactly what `FormatDMonYY` writes. */
  function ParseDMonYY(s: string): (r: Option<Date>)
    ensures r.Some? ==> Valid(r.value) && 1969 <= r.value.year <= 2068
    ensures r.Some? ==> FormatDMonYY(r.value) == s
  {
    if |s| == 9 && AllDigits(s[..2]) && s[2] == '-' && s[6] == '-' && AllDigits(s[7..]) then
      match MonthOfAbbr(s[3..6])
      case None => None
      case Some(m) =>
        var d := Date(ExpandYear(Value2(s[7..])), m, Value2(s[..2]));
        if Valid(d) then
          Pad2OfValue2(s[..2]);
          Pad2OfValue2(s[7..]);
          assert s == s[..2] + "-" + s[3..6] + "-" + s[7..];
          Some(d)
        else None
    else None
  }

  /** `to_datetime(s, format='%d-%m-%Y')`; accepts exactly what `FormatDmy` writes. */
  function ParseDmy(s: string): (r: Option<Date>)
    ensures r.Some? ==> Valid(r.value) && FormatDmy(r.value) == s
  {
    if |s| == 10 && AllDigits(s[..2]) && s[2] == '-' && AllDigits(s[3..5]) && s[5] == '-'
       && AllDigits(s[6..]) then
      var d := Date(Value4(s[6..]), Value2(s[3..5]), Value2(s[..2]));
      if Valid(d) then
        Pad2OfValue2(s[..2]);
        Pad2OfValue2(s[3..5]);
        Pad4OfValue4(s[6..]);
        assert s == s[..2] + "-" + s[3..5] + "-" + s[6..];
        Some(d)
      else None
    else None
  }

  /** `to_datetime(s)` on an ISO `YYYY-MM-DD` string; accepts exactly what
      `FormatIso` writes. */
  function ParseIso(s: string): (r: Option<Date>)
    ensures r.Some? ==> Valid(r.value) && FormatIso(r.value) == s
  {
    if |s| == 10 && AllDigits(s[..4]) && s[4] == '-' && AllDigits(s[5..7]) && s[7] == '-'
       && AllDigits(s[8..]) then
      var d := Date(Value4(s[..4]), Value2(s[5..7]), Value2(s[8..]));
      if Valid(d) then
        Pad4OfValue4(s[..4]);
        Pad2OfValue2(s[5..7]);
        Pad2OfValue2(s[8..]);
        assert s == s[..4] + "-" + s[5..7] + "-" + s[8..];
        Some(d)
      else None
    else None
  }

  /** Moving a valid date into the `%y` window keeps it valid; a 29 February
      stays in a leap year because the window maps `00` to 2000. */
  lemma WindowedValid(d: Date)
    requires Valid(d)
    ensures Valid(Windowed(d))
  {
    var yy := d.year % 100;
    var w := ExpandYear(yy);
    assert d.year == 100 * (d.year / 100) + yy;
    if IsLeapYear(d.year) {
      assert yy % 4 == 0;
      assert w % 4 == 0;
      assert w % 100 == 0 ==> w == 2000;
    }
  }

  /** A date survives `DD-Mon-YY` formatting and parsing exactly when its year
      lies in the `%y` window 1969-2068; otherwise the century changes. */
  lemma DMonYYRoundTrip(d: Date)
    requires Valid(d)
    ensures ParseDMonYY(FormatDMonYY(d)) == Some(Windowed(d))
    ensures Windowed(d) == d <==> 1969 <= d.year <= 2068
  {
    var s := FormatDMonYY(d);
    WindowedValid(d);
    assert s[..2] == Pad2(d.day);
    assert s[3..6] == MonthAbbr(d.month);
    assert s[7..] == Pad2(d.year % 100);
    Value2OfPad2(d.day);
    Value2OfPad2(d.year % 100);
    var m := MonthOfAbbr(s[3..6]);
    MonthAbbrInjective(m.value, d.month);
  }

  /** `DD-Mon-YY` rendering forgets only the century, so a windowed date
      renders as the original. */
  lemma WindowedFormat(d: Date)
    requires Valid(d)
    ensures Valid(Windowed(d)) && FormatDMonYY(Windowed(d)) == FormatDMonYY(d)
  {
    WindowedValid(d);
  }

  /** Every valid date survives `DD-MM-YYYY` formatting and parsing. */
  lemma DmyRoundTrip(d: Date)
    requires Valid(d)
    ensures ParseDmy(FormatDmy(d)) == Some(d)
  {
    var s := FormatDmy(d);
    assert s[..2] == Pad2(d.day);
    assert s[3..5] == Pad2(d.month);
    assert s[6..] == Pad4(d.year);
    Value2OfPad2(d.day);
    Value2OfPad2(d.month);
    Value4OfPad4(d.year);
  }

  /** Every valid date survives `YYYY-MM-DD` formatting and parsing. */
  lemma IsoRoundTrip(d: Date)
    requires Valid(d)
    ensures ParseIso(FormatIso(d)) == Some(d)
  {
    var s := FormatIso(d);
    assert s[..4] == Pad4(d.year);
    assert s[5..7] == Pad2(d.month);
    assert s[8..] == Pad2(d.day);
    Value2OfPad2(d.day);
    Value2OfPad2(d.month);
    Value4OfPad4(d.year);
  }
}
