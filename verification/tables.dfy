/** Table preparation (`process_dataframe`): standardise the headers, index the
    table by its identity column, rename parseable status columns to
    `YYYY-MM-DD`, and stringify every cell outside the display column. */
module Tables {
  import opened Wrappers
  import opened Seqs
  import opened Strings
  import opened Calendar
  import opened Headers

  /** A cell as read from a spreadsheet: text, or pandas' missing value NaN. */
  datatype Cell = Text(value: string) | Missing

  /** `astype(str)` of one cell: text is kept, NaN becomes the literal `"nan"`. */
  function Stringify(c: Cell): (r: string)
    ensures Text(r) == c <==> c.Text?
    ensures c.Missing? ==> r == "nan"
  {
    match c
    case Text(s) => s
    case Missing => "nan"
  }

  /** A table as the reader yields it: a header row and data rows. */
  datatype RawTable = RawTable(columns: seq<Label>, rows: seq<seq<Cell>>)

  predicate Rectangular(t: RawTable)
  {
    forall i :: 0 <= i < |t.rows| ==> |t.rows[i]| == |t.columns|
  }

  /** A table indexed by its identity column: `index[i]` keys `rows[i]`, and
      `rows[i][j]` is the cell of column `columns[j]`. */
  datatype Frame = Frame(index: seq<Cell>, columns: seq<string>, rows: seq<seq<Cell>>)

  predicate Shaped(f: Frame)
  {
    |f.rows| == |f.index| && forall i :: 0 <= i < |f.rows| ==> |f.rows[i]| == |f.columns|
  }

  /** A frame `.at[key, column]` can read unambiguously: one row per key, one
      column per label. */
  predicate Keyed(f: Frame)
  {
    Shaped(f) && Distinct(f.index) && Distinct(f.columns)
  }

  /** Every cell outside the display column holds text. */
  predicate Stringified(f: Frame)
  {
    Shaped(f) &&
    forall i, j :: 0 <= i < |f.rows| && 0 <= j < |f.columns| && f.columns[j] != NameColumn ==>
      f.rows[i][j].Text?
  }

  /** The renaming step for one remaining header: a header starting with
      "Status" whose parenthesised part parses as `DD-Mon-YY` becomes that
      date as `YYYY-MM-DD`; any other header keeps its name. */
  function RenameStatus(c: string): (r: string)
    ensures r != c <==>
      StartsWith(c, "Status") && Parenthesised(c).Some? && ParseDMonYY(Parenthesised(c).value).Some?
    ensures r != c ==> r == FormatIso(ParseDMonYY(Parenthesised(c).value).value)
    ensures r != c ==> exists d :: Valid(d) && 1969 <= d.year <= 2068 && r == FormatIso(d)
  {
    if StartsWith(c, "Status") then
      match Parenthesised(c)
      case Some(inner) =>
        (match ParseDMonYY(inner)
         case Some(d) => IsoNotStatus(d); FormatIso(d)
         case None => c)
      case None => c
    else c
  }

  /** A `YYYY-MM-DD` name starts with a digit, so never with "Status". */
  lemma IsoNotStatus(d: Date)
    requires Valid(d)
    ensures !StartsWith(FormatIso(d), "Status")
  {
    var r := FormatIso(d);
    assert IsDigit(r[0]) by {
      assert r[0] == Pad4(d.year)[0];
    }
    assert r[..6][0] == r[0];
  }

  /** The source raises when a header left after indexing is not text
      (`col.startswith` on a number, say). */
  datatype PrepError = NonTextColumn(header: Label)

  /** The first label that is not text, if any. */
  function FirstNonText(ls: seq<Label>): (r: Option<Label>)
    ensures r.None? <==> forall i :: 0 <= i < |ls| ==> ls[i].Str?
    ensures r.None? <==> forall l :: l in ls ==> l.Str?
    ensures r.Some? ==> r.value in ls && !r.value.Str?
    ensures r.Some? ==> exists i :: 0 <= i < |ls| && ls[i] == r.value && forall j :: 0 <= j < i ==> ls[j].Str?
  {
    if |ls| == 0 then None
    else if !ls[0].Str? then Some(ls[0])
    else FirstNonText(ls[1..])
  }

  /** `astype(str)` applied to every cell of a row whose column is not the
      display column. */
  function StringifyRow(cells: seq<Cell>, names: seq<string>): (r: seq<Cell>)
    requires |cells| == |names|
    ensures |r| == |cells|
    ensures forall j :: 0 <= j < |r| ==> Stringify(r[j]) == Stringify(cells[j])
    ensures forall j :: 0 <= j < |r| ==> if names[j] == NameColumn then r[j] == cells[j] else r[j].Text?
  {
    seq(|cells|, j requires 0 <= j < |cells| =>
      if names[j] == NameColumn then cells[j] else Text(Stringify(cells[j])))
  }

  /** `set_index` on the column at `p` followed by the `astype(str)` pass,
      with `names` the headers of the remaining columns. */
  function IndexBy(t: RawTable, p: nat, names: seq<string>): (f: Frame)
    requires Rectangular(t) && p < |t.columns| && |names| == |t.columns| - 1
    ensures Shaped(f) && Stringified(f) && f.columns == names
    ensures |f.index| == |t.rows|
    ensures forall i :: 0 <= i < |t.rows| ==> f.index[i] == t.rows[i][p]
    ensures forall i, j :: 0 <= i < |t.rows| && 0 <= j < |names| ==>
      Stringify(f.rows[i][j]) == Stringify(t.rows[i][Shift(j, p)])
    ensures forall i, j :: 0 <= i < |t.rows| && 0 <= j < |names| && names[j] == NameColumn ==>
      f.rows[i][j] == t.rows[i][Shift(j, p)]
  {
    var index := seq(|t.rows|, i requires 0 <= i < |t.rows| => t.rows[i][p]);
    var rows := seq(|t.rows|, i requires 0 <= i < |t.rows| => StringifyRow(RemoveAt(t.rows[i], p), names));
    Frame(index, names, rows)
  }

  /** Taking out a text label keeps every non-text label, and adds none. */
  lemma NonTextSurvives(labels: seq<Label>, p: nat)
    requires p < |labels| && labels[p].Str?
    ensures (exists l :: l in labels && !l.Str?) <==> (exists l :: l in RemoveAt(labels, p) && !l.Str?)
  {
    var rest := RemoveAt(labels, p);
    forall l | l in rest
      ensures l in labels
    {
      var k :| 0 <= k < |rest| && rest[k] == l;
      assert labels[Shift(k, p)] == l;
    }
    forall l | l in labels && !l.Str?
      ensures l in RemoveAt(labels, p)
    {
      var k :| 0 <= k < |labels| && labels[k] == l;
      assert RemoveAt(labels, p)[if k < p then k else k - 1] == l;
    }
  }

  /** The headers after the renaming step: a header is renamed exactly when
      it starts with "Status" and its parenthesised part parses as
      `DD-Mon-YY`, and then to that date as `YYYY-MM-DD`, a date in the `%y`
      window. */
  function HeaderNames(rest: seq<Label>): (names: seq<string>)
    requires forall j :: 0 <= j < |rest| ==> rest[j].Str?
    ensures |names| == |rest|
    ensures forall j :: 0 <= j < |rest| ==>
      var c := rest[j].text;
      && (names[j] != c <==>
            StartsWith(c, "Status") && Parenthesised(c).Some? && ParseDMonYY(Parenthesised(c).value).Some?)
      && (names[j] != c ==> names[j] == FormatIso(ParseDMonYY(Parenthesised(c).value).value))
    ensures forall j :: 0 <= j < |rest| && names[j] != rest[j].text ==>
      && StartsWith(rest[j].text, "Status")
      && exists d :: Valid(d) && 1969 <= d.year <= 2068 && names[j] == FormatIso(d)
  {
    seq(|rest|, j requires 0 <= j < |rest| => RenameStatus(rest[j].text))
  }

  /** `process_dataframe` with `id_col` already a column of the standardised
      table (the interactive correction loop is outside the model). */
  function Prepare(t: RawTable, idCol: string): (r: Result<Frame, PrepError>)
    requires Rectangular(t)
    requires Distinct(Standardize(t.columns))
    requires Str(idCol) in Standardize(t.columns)
    ensures r.Failure? <==> exists l :: l in Standardize(t.columns) && !l.Str?
    ensures r.Success? ==> Shaped(r.value) && Stringified(r.value)
    ensures r.Success? ==>
      var labels := Standardize(t.columns);
      var p := IndexOf(labels, Str(idCol));
      var f := r.value;
      && |f.index| == |t.rows|
      && (forall i :: 0 <= i < |t.rows| ==> f.index[i] == t.rows[i][p])
      && |f.columns| == |t.columns| - 1
      && (forall j :: 0 <= j < |f.columns| ==>
            labels[Shift(j, p)].Str? && f.columns[j] == RenameStatus(labels[Shift(j, p)].text))
      && (forall i, j :: 0 <= i < |t.rows| && 0 <= j < |f.columns| ==>
            Stringify(f.rows[i][j]) == Stringify(t.rows[i][Shift(j, p)]))
      && (forall i, j :: 0 <= i < |t.rows| && 0 <= j < |f.columns| && f.columns[j] == NameColumn ==>
            f.rows[i][j] == t.rows[i][Shift(j, p)])
  {
    var labels := Standardize(t.columns);
    var p := IndexOf(labels, Str(idCol));
    var rest := RemoveAt(labels, p);
    NonTextSurvives(labels, p);
    match FirstNonText(rest)
    case Some(l) => Failure(NonTextColumn(l))
    case None =>
      IndexedFrame(t, labels, p);
      Success(IndexBy(t, p, HeaderNames(rest)))
  }

  /** The frame built once the identity column at `p` is taken out and the
      remaining headers renamed, read back against the standardised labels. */
  lemma IndexedFrame(t: RawTable, labels: seq<Label>, p: nat)
    requires Rectangular(t) && |labels| == |t.columns| && p < |labels|
    requires forall j :: 0 <= j < |labels| - 1 ==> RemoveAt(labels, p)[j].Str?
    ensures
      var f := IndexBy(t, p, HeaderNames(RemoveAt(labels, p)));
      && Shaped(f) && Stringified(f)
      && |f.index| == |t.rows|
      && (forall i :: 0 <= i < |t.rows| ==> f.index[i] == t.rows[i][p])
      && |f.columns| == |t.columns| - 1
      && (forall j :: 0 <= j < |f.columns| ==>
            labels[Shift(j, p)].Str? && f.columns[j] == RenameStatus(labels[Shift(j, p)].text))
      && (forall i, j :: 0 <= i < |t.rows| && 0 <= j < |f.columns| ==>
            Stringify(f.rows[i][j]) == Stringify(t.rows[i][Shift(j, p)]))
      && (forall i, j :: 0 <= i < |t.rows| && 0 <= j < |f.columns| && f.columns[j] == NameColumn ==>
            f.rows[i][j] == t.rows[i][Shift(j, p)])
  {
    HeaderNamesOfRemaining(labels, p);
  }

  /** The renamed headers, read back against the standardised labels. */
  lemma HeaderNamesOfRemaining(labels: seq<Label>, p: nat)
    requires p < |labels| && forall j :: 0 <= j < |labels| - 1 ==> RemoveAt(labels, p)[j].Str?
    ensures forall j :: 0 <= j < |labels| - 1 ==>
      labels[Shift(j, p)].Str? && HeaderNames(RemoveAt(labels, p))[j] == RenameStatus(labels[Shift(j, p)].text)
  {
    var rest := RemoveAt(labels, p);
    forall j | 0 <= j < |labels| - 1
      ensures labels[Shift(j, p)].Str? && HeaderNames(rest)[j] == RenameStatus(labels[Shift(j, p)].text)
    {
      assert rest[j] == labels[Shift(j, p)];
    }
  }

  /** A status header is renamed to its date re-read through the `%y`
      window. */
  lemma RenameStatusLabel(d: Date)
    requires Valid(d)
    ensures RenameStatus(StatusLabel(d)) == FormatIso(Windowed(d))
  {
    StatusLabelInner(d);
    DMonYYRoundTrip(d);
    assert StatusLabel(d)[..6] == "Status";
  }

  /** Distinct dates have distinct `YYYY-MM-DD` names. */
  lemma FormatIsoInjective(a: Date, b: Date)
    requires Valid(a) && Valid(b) && FormatIso(a) == FormatIso(b)
    ensures a == b
  {
    IsoRoundTrip(a);
    IsoRoundTrip(b);
  }

  /** A `DD-MM-YYYY` header, standardised and then renamed, names its own
      date exactly when the year lies in 1969-2068: standardisation keeps only
      two digits of the year and the rename re-reads them through the `%y`
      window. */
  lemma DmyHeaderPrepared(d: Date)
    requires Valid(d)
    ensures NormalizeLabel(Str(FormatDmy(d))).Str?
    ensures RenameStatus(NormalizeLabel(Str(FormatDmy(d))).text) == FormatIso(d)
      <==> 1969 <= d.year <= 2068
  {
    DmyHeaderNormalized(d);
    RenameStatusLabel(d);
    DMonYYRoundTrip(d);
    WindowedValid(d);
    if FormatIso(Windowed(d)) == FormatIso(d) {
      FormatIsoInjective(Windowed(d), d);
    }
  }

  /** Renaming is idempotent: a renamed header is a `YYYY-MM-DD` date, which
      does not start with "Status". */
  lemma RenameStatusIdempotent(c: string)
    ensures RenameStatus(RenameStatus(c)) == RenameStatus(c)
  {
    var r := RenameStatus(c);
    if r != c {
      var d :| Valid(d) && 1969 <= d.year <= 2068 && r == FormatIso(d);
      IsoNotStatus(d);
    }
  }
}
