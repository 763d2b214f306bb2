/** Header normalisation (`standardize_column_names`): every column label is
    mapped to the canonical schema in a fixed priority order. */
module Headers {
  import opened Wrappers
  import opened Seqs
  import opened Strings
  import opened Calendar

  /** A column label as a spreadsheet reader yields it: text, a native
      `datetime`/`Timestamp`, or some other scalar (a number, or a plain
      `date`, which is not a `datetime`), kept opaque. */
  datatype Label = Str(text: string) | DateLabel(date: ValidDate) | Other(tag: nat)

  const IdColumn: string := "Employee Code"
  const NameColumn: string := "Employee Name"

  /** The canonical intermediate header of a date column,
      `strftime('Status (%d-%b-%y)')`. */
  function StatusLabel(d: Date): (s: string)
    requires Valid(d)
    ensures |s| == 18
  {
    "Status (" + FormatDMonYY(d) + ")"
  }

  /** `s.split('(')[1].split(')')[0]`: the text after the first `(` up to the
      next `(` or `)`; `None` where the source raises IndexError. */
  function Parenthesised(s: string): (r: Option<string>)
    ensures r.Some? <==> '(' in s
    ensures r.Some? ==>
      var p := IndexOf(s, '(') + 1;
      && p + |r.value| <= |s| && r.value == s[p..p + |r.value|]
      && (forall i :: 0 <= i < |r.value| ==> r.value[i] != '(' && r.value[i] != ')')
      && (p + |r.value| == |s| || s[p + |r.value|] == '(' || s[p + |r.value|] == ')')
  {
    if '(' in s then Some(TakeUntil(s[IndexOf(s, '(') + 1..], {'(', ')'})) else None
  }

  /** The date a text header names, trying `DD-MM-YYYY` first and then a
      parenthesised `DD-Mon-YY`. */
  function HeaderDate(s: string): (r: Option<Date>)
    ensures r.Some? ==> Valid(r.value)
    ensures ParseDmy(s).Some? ==> r == ParseDmy(s)
    ensures r.Some? && ParseDmy(s).None? ==>
      && Parenthesised(s).Some? && FormatDMonYY(r.value) == Parenthesised(s).value
      && 1969 <= r.value.year <= 2068
    ensures r.None? ==>
      ParseDmy(s).None? && (Parenthesised(s).None? || ParseDMonYY(Parenthesised(s).value).None?)
  {
    match ParseDmy(s)
    case Some(d) => Some(d)
    case None =>
      match Parenthesised(s)
      case Some(inner) => ParseDMonYY(inner)
      case None => None
  }

  /** One label of `standardize_column_names`. */
  function NormalizeLabel(l: Label): (r: Label)
    ensures !r.DateLabel?
    ensures l.Other? ==> r == l
    ensures l.DateLabel? ==> r == Str(StatusLabel(l.date))
    ensures l.Str? && !Contains(Lower(l.text), "code") && !Contains(Lower(l.text), "name") ==>
      && (HeaderDate(l.text).None? ==> r == l)
      && (HeaderDate(l.text).Some? ==> r == Str(StatusLabel(HeaderDate(l.text).value)))
  {
    match l
    case Str(s) =>
      if Contains(Lower(s), "code") then Str(IdColumn)
      else if Contains(Lower(s), "name") then Str(NameColumn)
      else (match HeaderDate(s) case Some(d) => Str(StatusLabel(d)) case None => l)
    case DateLabel(d) => Str(StatusLabel(d))
    case Other(_) => l
  }

  /** `standardize_column_names`: one label out per label in, in order. */
  function Standardize(ls: seq<Label>): (r: seq<Label>)
    ensures |r| == |ls|
    ensures forall i :: 0 <= i < |ls| ==> r[i] == NormalizeLabel(ls[i])
  {
    if |ls| == 0 then [] else [NormalizeLabel(ls[0])] + Standardize(ls[1..])
  }

  /** The identity test comes first: a header mentioning "code" in any case
      names the identity column, whatever else it mentions. */
  lemma CodeTakesPriority(s: string)
    requires Contains(Lower(s), "code")
    ensures NormalizeLabel(Str(s)) == Str(IdColumn)
  {
  }

  /** A header mentioning both words is the identity column. */
  lemma NameCodeIsIdentity()
    ensures NormalizeLabel(Str("Name Code")) == Str(IdColumn)
  {
    var low := Lower("Name Code");
    assert low[5..9] == "code";
    assert OccursAt(low, "code", 5);
  }

  /** Second in priority: a header mentioning "name" but not "code" is the
      display column, even if it also holds a date. */
  lemma NameBeforeDates(s: string)
    requires !Contains(Lower(s), "code") && Contains(Lower(s), "name")
    ensures NormalizeLabel(Str(s)) == Str(NameColumn)
  {
  }

  /** The canonical identity and display headers are fixed points. */
  lemma CanonicalColumnsFixed()
    ensures NormalizeLabel(Str(IdColumn)) == Str(IdColumn)
    ensures NormalizeLabel(Str(NameColumn)) == Str(NameColumn)
  {
    var lowId := Lower(IdColumn);
    assert lowId[9..13] == "code";
    assert OccursAt(lowId, "code", 9);
    NotInLowered(NameColumn, "code", 'c');
    var lowName := Lower(NameColumn);
    assert lowName[9..13] == "name";
    assert OccursAt(lowName, "name", 9);
  }

  /** For each month, a letter of "code" and a letter of "name" that its
      abbreviation lacks in both cases. */
  lemma AbsentLetters(m: int) returns (c: char, n: char)
    requires 1 <= m <= 12
    ensures c in "code" && 'a' <= c <= 'z' && c !in MonthAbbr(m) && UpperChar(c) !in MonthAbbr(m)
    ensures n in "name" && 'a' <= n <= 'z' && n !in MonthAbbr(m) && UpperChar(n) !in MonthAbbr(m)
    ensures c !in "status (" && n !in "status ("
  {
    c := if m == 10 then 'd' else if m == 12 then 'o' else 'c';
    n := if m == 1 || m == 6 || m == 11 then 'm' else 'n';
    if m == 1 {} else if m == 2 {} else if m == 3 {} else if m == 4 {}
    else if m == 5 {} else if m == 6 {} else if m == 7 {} else if m == 8 {}
    else if m == 9 {} else if m == 10 {} else if m == 11 {} else {}
  }

  /** A letter absent in both cases from the month abbreviation is absent from
      the whole status header. */
  lemma StatusLabelLacks(d: Date, c: char)
    requires Valid(d) && 'a' <= c <= 'z'
    requires c !in "status (" && c !in MonthAbbr(d.month) && UpperChar(c) !in MonthAbbr(d.month)
    ensures c !in StatusLabel(d) && UpperChar(c) !in StatusLabel(d)
  {
    var dd, mon, yy := Pad2(d.day), MonthAbbr(d.month), Pad2(d.year % 100);
    assert StatusLabel(d) == "Status (" + dd + "-" + mon + "-" + yy + ")";
    NotInDigits(dd, c);
    NotInDigits(yy, c);
    NotInDigits(dd, UpperChar(c));
    NotInDigits(yy, UpperChar(c));
    assert UpperChar(c) !in "Status (";
  }

  /** A canonical status header mentions neither keyword, in any case. */
  lemma StatusLabelHasNoKeyword(d: Date)
    requires Valid(d)
    ensures !Contains(Lower(StatusLabel(d)), "code")
    ensures !Contains(Lower(StatusLabel(d)), "name")
  {
    var c, n := AbsentLetters(d.month);
    StatusLabelLacks(d, c);
    StatusLabelLacks(d, n);
    NotInLowered(StatusLabel(d), "code", c);
    NotInLowered(StatusLabel(d), "name", n);
  }

  /** The parenthesised part of a status header is its `DD-Mon-YY` date. */
  lemma StatusLabelInner(d: Date)
    requires Valid(d)
    ensures Parenthesised(StatusLabel(d)) == Some(FormatDMonYY(d))
  {
    var s := StatusLabel(d);
    var x := FormatDMonYY(d);
    assert s[7] == '(';
    assert '(' !in s[..7];
    IndexOfFirst(s, '(', 7);
    assert x == Pad2(d.day) + "-" + MonthAbbr(d.month) + "-" + Pad2(d.year % 100);
    forall i | 0 <= i < |x|
      ensures x[i] !in {'(', ')'}
    {
    }
    assert s[8..] == x + [')'] + [];
    TakeUntilStops(x, ')', [], {'(', ')'});
  }

  /** A canonical status header normalises to itself (it is re-parsed through
      the `%y` window, which keeps its day, month and two-digit year). */
  lemma StatusLabelFixed(d: Date)
    requires Valid(d)
    ensures NormalizeLabel(Str(StatusLabel(d))) == Str(StatusLabel(d))
  {
    StatusLabelHasNoKeyword(d);
    StatusLabelInner(d);
    DMonYYRoundTrip(d);
    WindowedFormat(d);
    assert ParseDmy(StatusLabel(d)).None?;
  }

  /** A `DD-MM-YYYY` header becomes the status header of the same date. */
  lemma DmyHeaderNormalized(d: Date)
    requires Valid(d)
    ensures NormalizeLabel(Str(FormatDmy(d))) == Str(StatusLabel(d))
  {
    var s := FormatDmy(d);
    assert s == Pad2(d.day) + "-" + Pad2(d.month) + "-" + Pad4(d.year);
    assert 'c' !in s && 'C' !in s && 'n' !in s && 'N' !in s;
    NotInLowered(s, "code", 'c');
    NotInLowered(s, "name", 'n');
    DmyRoundTrip(d);
  }

  /** A text header without keywords, without `(` and not `DD-MM-YYYY` is
      kept verbatim. */
  lemma VerbatimFallback(s: string)
    requires !Contains(Lower(s), "code") && !Contains(Lower(s), "name")
    requires '(' !in s && ParseDmy(s).None?
    ensures NormalizeLabel(Str(s)) == Str(s)
  {
  }

  /** The second pattern does not need the `Status` prefix: any keyword-free
      header whose first parenthesis encloses a `DD-Mon-YY` date becomes the
      canonical status header of that date, read through the `%y` window. */
  lemma ParenthesisedDateNormalized(pre: string, d: Date, post: string)
    requires Valid(d) && '(' !in pre
    requires var s := pre + "(" + FormatDMonYY(d) + ")" + post;
      !Contains(Lower(s), "code") && !Contains(Lower(s), "name")
    ensures NormalizeLabel(Str(pre + "(" + FormatDMonYY(d) + ")" + post)) == Str(StatusLabel(Windowed(d)))
  {
    var x := FormatDMonYY(d);
    var s := pre + "(" + x + ")" + post;
    assert s[|pre|] == '(';
    assert s[..|pre|] == pre;
    IndexOfFirst(s, '(', |pre|);
    assert x == Pad2(d.day) + "-" + MonthAbbr(d.month) + "-" + Pad2(d.year % 100);
    forall i | 0 <= i < |x|
      ensures x[i] !in {'(', ')'}
    {
    }
    assert s[|pre| + 1..] == x + [')'] + post;
    TakeUntilStops(x, ')', post, {'(', ')'});
    DMonYYRoundTrip(d);
  }

  /** The status header of 5 January 2024. */
  lemma Jan5Label()
    ensures Valid(Date(2024, 1, 5))
    ensures FormatDMonYY(Date(2024, 1, 5)) == "05-Jan-24"
    ensures StatusLabel(Date(2024, 1, 5)) == "Status (05-Jan-24)"
    ensures Windowed(Date(2024, 1, 5)) == Date(2024, 1, 5)
  {
    var d := Date(2024, 1, 5);
    assert Pad2(d.day) == "05" && Pad2(d.year % 100) == "24";
  }

  /** A non-canonical wrapper such as `Att (05-Jan-24)` is normalised to
      `Status (05-Jan-24)`. */
  lemma WrappedDateExample()
    ensures NormalizeLabel(Str("Att (05-Jan-24)")) == Str("Status (05-Jan-24)")
  {
    var d := Date(2024, 1, 5);
    var s := "Att (05-Jan-24)";
    Jan5Label();
    assert s == "Att " + "(" + FormatDMonYY(d) + ")" + "";
    assert 'c' !in s && 'C' !in s && 'm' !in s && 'M' !in s;
    NotInLowered(s, "code", 'c');
    NotInLowered(s, "name", 'm');
    ParenthesisedDateNormalized("Att ", d, "");
  }

  /** Normalising a header twice is the same as normalising it once. */
  lemma NormalizeIdempotent(l: Label)
    ensures NormalizeLabel(NormalizeLabel(l)) == NormalizeLabel(l)
  {
    CanonicalColumnsFixed();
    match l
    case Str(s) =>
      if !Contains(Lower(s), "code") && !Contains(Lower(s), "name") && HeaderDate(s).Some? {
        StatusLabelFixed(HeaderDate(s).value);
      }
    case DateLabel(d) =>
      StatusLabelFixed(d);
    case Other(_) =>
  }

  /** Standardising a header row twice is the same as standardising it once. */
  lemma StandardizeIdempotent(ls: seq<Label>)
    ensures Standardize(Standardize(ls)) == Standardize(ls)
  {
    forall i | 0 <= i < |ls|
      ensures Standardize(Standardize(ls))[i] == Standardize(ls)[i]
    {
      NormalizeIdempotent(ls[i]);
    }
  }
}
