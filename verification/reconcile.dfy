/** The comparison (`compare_attendance`): one record per submission key and
    submission column other than the display column, in submission row order
    and then column order. */
module Reconcile {
  import opened Wrappers
  import opened Seqs
  import opened Calendar
  import opened Headers
  import opened Tables

  datatype Flag = Yes | No

  /** One line of the discrepancy report: `Emp ID`, `Emp Name`, `Date`,
      `Attn` (submitted), `Qandle` (backend) and `Mismatch`. */
  datatype Record = Record(empId: Cell, empName: Cell, date: string, attn: Cell, qandle: Cell, mismatch: Flag)

  /** Backend value of a date column the backend does not have, and the name
      of an unmatched employee when the submission has no display column. */
  const NotApplicable: string := "N/A"
  /** Backend value reported for an employee the backend does not know. */
  const NotInBackend: string := "Employee not found in backend"

  /** The source's emptiness test `v == 'nan' or pd.isna(v)`: a cell is empty
      exactly when its `astype(str)` text is `"nan"`. */
  predicate IsEmpty(c: Cell): (r: bool)
    ensures r <==> Stringify(c) == "nan"
  {
    c == Text("nan") || c.Missing?
  }

  /** `v if v != 'nan' else ''`. */
  function Shown(c: Cell): (r: Cell)
    ensures r != Text("nan")
    ensures c != Text("nan") ==> r == c
    ensures c == Text("nan") ==> r == Text("")
  {
    if c == Text("nan") then Text("") else c
  }

  /** `v if not (v == 'nan' or pd.isna(v)) else ''`. */
  function Blanked(c: Cell): (r: Cell)
    ensures !IsEmpty(r)
    ensures !IsEmpty(c) ==> r == c
    ensures IsEmpty(c) ==> r == Text("")
  {
    if IsEmpty(c) then Text("") else c
  }

  /** The two displays agree on text and differ only on NaN, which the
      matched branch passes through and the unmatched branch blanks. */
  lemma ShownBlankedAgree(c: Cell)
    ensures Shown(c) == Blanked(c) <==> c.Text?
    ensures c.Missing? ==> Shown(c) == Missing && Blanked(c) == Text("")
  {
  }

  /** The displayed pair and the mismatch flag for one submitted value `v`
      and backend value `q`. */
  datatype Verdict = Verdict(attn: Cell, qandle: Cell, mismatch: Flag)

  /** The mismatch rule: agreement means both empty or exactly equal. */
  function Judge(v: Cell, q: Cell): (r: Verdict)
    ensures r.mismatch == No <==> (IsEmpty(v) && IsEmpty(q)) || v == q
    ensures r.attn != Text("nan") && r.qandle != Text("nan")
    ensures IsEmpty(v) && IsEmpty(q) ==> r.attn == Text("") && r.qandle == Text("")
    ensures !(IsEmpty(v) && IsEmpty(q)) ==> r.attn == Shown(v) && r.qandle == Shown(q)
  {
    if IsEmpty(v) && IsEmpty(q) then Verdict(Text(""), Text(""), No)
    else if v != q then Verdict(Shown(v), Shown(q), Yes)
    else Verdict(Shown(v), Shown(q), No)
  }

  /** The `Date` shown for a column: a `YYYY-MM-DD` header as `DD-Mon-YY`,
      any other header as it is. */
  function DisplayDate(c: string): (r: string)
    ensures ParseIso(c).None? ==> r == c
  {
    match ParseIso(c)
    case Some(d) => FormatDMonYY(d)
    case None => c
  }

  /** The submission columns the comparison walks: all but the display column,
      in order. */
  function DateColumns(cols: seq<string>): (r: seq<string>)
    ensures forall c :: c in r <==> c in cols && c != NameColumn
    ensures Distinct(cols) ==> Distinct(r)
    ensures Distinct(cols) ==> |r| == |cols| - (if NameColumn in cols then 1 else 0)
    ensures Distinct(cols) ==> forall i, j :: 0 <= i < j < |r| ==> IndexOf(cols, r[i]) < IndexOf(cols, r[j])
  {
    if |cols| == 0 then []
    else
      var tail := DateColumns(cols[1..]);
      assert Distinct(cols) ==> Distinct(cols[1..]) && cols[0] !in cols[1..];
      if cols[0] == NameColumn then tail else [cols[0]] + tail
  }

  /** `f.at[k, c]`: on a keyed frame, the cell in the row keyed `k` and the
      column labelled `c`. */
  function At(f: Frame, k: Cell, c: string): (r: Cell)
    requires Shaped(f) && k in f.index && c in f.columns
    ensures Keyed(f) ==> forall i, j ::
      0 <= i < |f.index| && 0 <= j < |f.columns| && f.index[i] == k && f.columns[j] == c ==> r == f.rows[i][j]
  {
    f.rows[IndexOf(f.index, k)][IndexOf(f.columns, c)]
  }

  /** The backend value for key `k` and column `c`, or "N/A" when the backend
      has no such column. */
  function Reference(b: Frame, k: Cell, c: string): (r: Cell)
    requires Shaped(b) && k in b.index
    ensures c in b.columns ==> r == At(b, k, c)
    ensures c !in b.columns ==> r == Text(NotApplicable) && !IsEmpty(r)
  {
    if c in b.columns then At(b, k, c) else Text(NotApplicable)
  }

  /** The `.at[k, 'Employee Name']` reads of the source succeed: either no
      submission key is in the backend, or both tables have a display column. */
  predicate NamesReadable(b: Frame, s: Frame): (r: bool)
    ensures r <==> forall k :: k in s.index && k in b.index ==>
      NameColumn in s.columns && NameColumn in b.columns
  {
    (forall k :: k in s.index ==> k !in b.index) || (NameColumn in s.columns && NameColumn in b.columns)
  }

  /** The record for submission key `k` and submission column `c`. */
  function RecordFor(b: Frame, s: Frame, k: Cell, c: string): (r: Record)
    requires Shaped(b) && Shaped(s) && k in s.index && c in s.columns
    requires k in b.index ==> NameColumn in s.columns
    ensures r.empId == k && r.date == DisplayDate(c)
    ensures r.attn != Text("nan") && r.qandle != Text("nan")
    ensures k !in b.index ==>
      && r.qandle == Text(NotInBackend) && r.mismatch == Yes && r.attn == Blanked(At(s, k, c))
      && r.empName == (if NameColumn in s.columns then At(s, k, NameColumn) else Text(NotApplicable))
    ensures k in b.index ==> r.empName == At(s, k, NameColumn)
    ensures k in b.index ==>
      var v, q := At(s, k, c), Reference(b, k, c);
      && (r.mismatch == No <==> (IsEmpty(v) && IsEmpty(q)) || v == q)
      && (IsEmpty(v) && IsEmpty(q) ==> r.attn == Text("") && r.qandle == Text(""))
      && (!(IsEmpty(v) && IsEmpty(q)) ==> r.attn == Shown(v) && r.qandle == Shown(q))
  {
    var v := At(s, k, c);
    if k in b.index then
      var j := Judge(v, Reference(b, k, c));
      Record(k, At(s, k, NameColumn), DisplayDate(c), j.attn, j.qandle, j.mismatch)
    else
      var name := if NameColumn in s.columns then At(s, k, NameColumn) else Text(NotApplicable);
      Record(k, name, DisplayDate(c), Blanked(v), Text(NotInBackend), Yes)
  }

  /** A (submission key, submission column) pair the comparison visits. */
  datatype Slot = Slot(key: Cell, column: string)

  /** The pairs visited for keys `index` and columns `cols`: key by key, and
      within a key column by column. */
  function Slots(index: seq<Cell>, cols: seq<string>): (r: seq<Slot>)
    ensures forall x :: 0 <= x < |r| ==> r[x].key in index && r[x].column in cols
  {
    if |index| == 0 then []
    else seq(|cols|, j requires 0 <= j < |cols| => Slot(index[0], cols[j])) + Slots(index[1..], cols)
  }

  lemma {:induction false} SlotsLength(index: seq<Cell>, cols: seq<string>)
    ensures |Slots(index, cols)| == |index| * |cols|
  {
    if |index| > 0 {
      SlotsLength(index[1..], cols);
      assert |index| * |cols| == |cols| + (|index| - 1) * |cols|;
    }
  }

  /** The position of row `k`, column `j` in a walk that visits `w` columns
      per row, row by row. */
  function RowMajor(k: nat, w: nat, j: nat): nat
  {
    k * w + j
  }

  /** Pair `k * |cols| + j` is key `k` with column `j`: row order first, then
      column order. */
  lemma {:induction false} SlotsOrder(index: seq<Cell>, cols: seq<string>, k: nat, j: nat)
    requires k < |index| && j < |cols|
    ensures RowMajor(k, |cols|, j) < |Slots(index, cols)|
    ensures Slots(index, cols)[RowMajor(k, |cols|, j)] == Slot(index[k], cols[j])
  {
    SlotsLength(index, cols);
    if k > 0 {
      SlotsOrder(index[1..], cols, k - 1, j);
      assert k * |cols| + j == |cols| + ((k - 1) * |cols| + j);
    }
  }

  /** Every key with every column is visited, and nothing else is. */
  lemma {:induction false} SlotsMembers(index: seq<Cell>, cols: seq<string>, sl: Slot)
    ensures sl in Slots(index, cols) <==> sl.key in index && sl.column in cols
  {
    if |index| > 0 {
      SlotsMembers(index[1..], cols, sl);
      var row := seq(|cols|, j requires 0 <= j < |cols| => Slot(index[0], cols[j]));
      assert Slots(index, cols) == row + Slots(index[1..], cols);
      if sl.key == index[0] && sl.column in cols {
        var j :| 0 <= j < |cols| && cols[j] == sl.column;
        assert row[j] == sl;
      }
      assert sl in row ==> sl.key == index[0];
    }
  }

  /** The pairs the comparison visits for a submission: keys × columns other
      than the display column. */
  function Visits(s: Frame): (r: seq<Slot>)
    ensures |r| == |s.index| * |DateColumns(s.columns)|
    ensures forall x :: 0 <= x < |r| ==>
      r[x].key in s.index && r[x].column in s.columns && r[x].column != NameColumn
  {
    SlotsLength(s.index, DateColumns(s.columns));
    Slots(s.index, DateColumns(s.columns))
  }

  /** Every pair `(k, j)` sits at position `k * |cols| + j`. */
  lemma SlotsOrderAll(index: seq<Cell>, cols: seq<string>)
    ensures forall k, j :: 0 <= k < |index| && 0 <= j < |cols| ==>
      RowMajor(k, |cols|, j) < |Slots(index, cols)| && Slots(index, cols)[RowMajor(k, |cols|, j)] == Slot(index[k], cols[j])
  {
    forall k: nat, j: nat | k < |index| && j < |cols| {
      SlotsOrder(index, cols, k, j);
    }
  }

  /** The source raises KeyError when a matched employee's name cannot be
      read from either table. */
  datatype CompareError = MissingNameColumn

  /** `compare_attendance(backend, submission)`. */
  function Compare(b: Frame, s: Frame): (r: Result<seq<Record>, CompareError>)
    requires Keyed(b) && Keyed(s)
    ensures r.Failure? <==>
      exists k :: k in s.index && k in b.index && (NameColumn !in s.columns || NameColumn !in b.columns)
    ensures r.Success? ==> |r.value| == |s.index| * |DateColumns(s.columns)|
    ensures r.Success? ==> forall k, j :: 0 <= k < |s.index| && 0 <= j < |DateColumns(s.columns)| ==>
      var w := |DateColumns(s.columns)|;
      RowMajor(k, w, j) < |r.value| && r.value[RowMajor(k, w, j)] == RecordFor(b, s, s.index[k], DateColumns(s.columns)[j])
  {
    if NamesReadable(b, s) then
      var v := Visits(s);
      SlotsOrderAll(s.index, DateColumns(s.columns));
      Success(seq(|v|, x requires 0 <= x < |v| => RecordFor(b, s, v[x].key, v[x].column)))
    else Failure(MissingNameColumn)
  }

  /** A `YYYY-MM-DD` column is shown as the same date in `DD-Mon-YY`. */
  lemma DisplayDateIso(d: Date)
    requires Valid(d)
    ensures DisplayDate(FormatIso(d)) == FormatDMonYY(d)
  {
    IsoRoundTrip(d);
  }

  /** A status column renamed during preparation is shown with the date its
      header carried, whatever century the rename chose. */
  lemma DisplayDateOfRenamed(d: Date)
    requires Valid(d)
    ensures DisplayDate(RenameStatus(StatusLabel(d))) == FormatDMonYY(d)
  {
    RenameStatusLabel(d);
    WindowedValid(d);
    DisplayDateIso(Windowed(d));
    WindowedFormat(d);
  }

  /** One record per submission row per submission column other than the
      display column, whatever the backend holds. */
  lemma RecordCount(b: Frame, s: Frame)
    requires Keyed(b) && Keyed(s) && NamesReadable(b, s)
    ensures |Compare(b, s).value| ==
      |s.index| * (|s.columns| - (if NameColumn in s.columns then 1 else 0))
  {
    SlotsLength(s.index, DateColumns(s.columns));
  }

  /** Records follow the submission's row order, then its column order. */
  lemma RecordOrder(b: Frame, s: Frame, k: nat, j: nat)
    requires Keyed(b) && Keyed(s) && NamesReadable(b, s)
    requires k < |s.index| && j < |DateColumns(s.columns)|
    ensures var x, rs := RowMajor(k, |DateColumns(s.columns)|, j), Compare(b, s).value;
      && x < |rs|
      && rs[x] == RecordFor(b, s, s.index[k], DateColumns(s.columns)[j])
      && rs[x].empId == s.index[k]
      && rs[x].date == DisplayDate(DateColumns(s.columns)[j])
  {
    assert Compare(b, s).Success?;
  }

  /** The layout of the report (which employee and which date on each line)
      depends on the submission alone: two backends give the same lines in
      the same order. */
  lemma LayoutIndependentOfBackend(b1: Frame, b2: Frame, s: Frame)
    requires Keyed(b1) && Keyed(b2) && Keyed(s)
    requires NamesReadable(b1, s) && NamesReadable(b2, s)
    ensures |Compare(b1, s).value| == |Compare(b2, s).value|
    ensures forall x :: 0 <= x < |Compare(b1, s).value| ==>
      Compare(b1, s).value[x].empId == Compare(b2, s).value[x].empId &&
      Compare(b1, s).value[x].date == Compare(b2, s).value[x].date
  {
  }

  /** Each record is the record of some visited pair. */
  lemma RecordFromVisit(b: Frame, s: Frame, r: Record) returns (k: Cell, c: string)
    requires Keyed(b) && Keyed(s) && NamesReadable(b, s) && r in Compare(b, s).value
    ensures k in s.index && c in s.columns && c != NameColumn && r == RecordFor(b, s, k, c)
  {
    var rs := Compare(b, s).value;
    var v := Visits(s);
    var x :| 0 <= x < |rs| && rs[x] == r;
    k, c := v[x].key, v[x].column;
  }

  /** Each visited pair has its record in the report. */
  lemma VisitHasRecord(b: Frame, s: Frame, k: Cell, c: string)
    requires Keyed(b) && Keyed(s) && NamesReadable(b, s)
    requires k in s.index && c in s.columns && c != NameColumn
    ensures RecordFor(b, s, k, c) in Compare(b, s).value
  {
    var rs := Compare(b, s).value;
    var v := Visits(s);
    SlotsMembers(s.index, DateColumns(s.columns), Slot(k, c));
    var x :| 0 <= x < |v| && v[x] == Slot(k, c);
    assert rs[x] == RecordFor(b, s, v[x].key, v[x].column);
  }

  /** Every record belongs to a submission key and a submission date column,
      and every such pair has its record: keys only the backend knows produce
      nothing. */
  lemma RecordsCoverSubmission(b: Frame, s: Frame, r: Record)
    requires Keyed(b) && Keyed(s) && NamesReadable(b, s)
    ensures r in Compare(b, s).value <==>
      exists k, c :: k in s.index && c in s.columns && c != NameColumn && r == RecordFor(b, s, k, c)
  {
    if r in Compare(b, s).value {
      var k, c := RecordFromVisit(b, s, r);
    }
    if exists k, c :: k in s.index && c in s.columns && c != NameColumn && r == RecordFor(b, s, k, c) {
      var k, c :| k in s.index && c in s.columns && c != NameColumn && r == RecordFor(b, s, k, c);
      VisitHasRecord(b, s, k, c);
    }
  }

  /** Every employee id in the report is a submission key. */
  lemma ReportedKeysFromSubmission(b: Frame, s: Frame)
    requires Keyed(b) && Keyed(s) && NamesReadable(b, s)
    ensures forall r :: r in Compare(b, s).value ==> r.empId in s.index
  {
    forall r | r in Compare(b, s).value
      ensures r.empId in s.index
    {
      var k, c := RecordFromVisit(b, s, r);
    }
  }

  /** An employee the backend does not know is reported on every line as
      "Employee not found in backend" and as a mismatch, under the submission's
      name, or "N/A" when the submission has no display column. */
  lemma UnknownEmployee(b: Frame, s: Frame)
    requires Keyed(b) && Keyed(s) && NamesReadable(b, s)
    ensures forall r :: r in Compare(b, s).value && r.empId !in b.index ==>
      && r.qandle == Text(NotInBackend) && r.mismatch == Yes
      && r.empName == (if NameColumn in s.columns then At(s, r.empId, NameColumn) else Text(NotApplicable))
  {
    forall r | r in Compare(b, s).value && r.empId !in b.index
      ensures r.qandle == Text(NotInBackend) && r.mismatch == Yes
      ensures r.empName == (if NameColumn in s.columns then At(s, r.empId, NameColumn) else Text(NotApplicable))
    {
      var k, c := RecordFromVisit(b, s, r);
    }
  }

  /** For an employee both tables know, a line is a mismatch exactly when the
      submitted and backend values differ and are not both empty; the name
      always comes from the submission, and each value is displayed with
      `"nan"` blanked. */
  lemma MatchedEmployee(b: Frame, s: Frame, k: Cell, c: string)
    requires Keyed(b) && Keyed(s) && NamesReadable(b, s)
    requires k in s.index && k in b.index && c in s.columns && c != NameColumn
    ensures RecordFor(b, s, k, c) in Compare(b, s).value
    ensures var r, v, q := RecordFor(b, s, k, c), At(s, k, c), Reference(b, k, c);
      && r.empName == At(s, k, NameColumn)
      && (r.mismatch == Yes <==> v != q && !(IsEmpty(v) && IsEmpty(q)))
      && (IsEmpty(v) && IsEmpty(q) ==> r.attn == Text("") && r.qandle == Text(""))
      && (!(IsEmpty(v) && IsEmpty(q)) ==> r.attn == Shown(v) && r.qandle == Shown(q))
  {
    VisitHasRecord(b, s, k, c);
  }

  /** A date column the backend lacks reads "N/A", which is not empty: an
      empty submitted value there is a mismatch. */
  lemma MissingBackendColumn(b: Frame, s: Frame, k: Cell, c: string)
    requires Keyed(b) && Keyed(s) && NamesReadable(b, s)
    requires k in s.index && k in b.index && c in s.columns && c !in b.columns
    requires At(s, k, c) == Text("nan")
    ensures RecordFor(b, s, k, c).qandle == Text(NotApplicable)
    ensures RecordFor(b, s, k, c).attn == Text("")
    ensures RecordFor(b, s, k, c).mismatch == Yes
  {
  }

  /** No displayed value is ever the literal "nan". */
  lemma NoNanDisplayed(b: Frame, s: Frame)
    requires Keyed(b) && Keyed(s) && NamesReadable(b, s)
    ensures forall r :: r in Compare(b, s).value ==> r.attn != Text("nan") && r.qandle != Text("nan")
  {
    forall r | r in Compare(b, s).value
      ensures r.attn != Text("nan") && r.qandle != Text("nan")
    {
      var k, c := RecordFromVisit(b, s, r);
    }
  }

  /** On prepared tables a cell outside the display column is empty exactly
      when it is the text "nan", and every displayed value is text. */
  lemma PreparedDisplaysText(b: Frame, s: Frame)
    requires Keyed(b) && Keyed(s) && Stringified(b) && Stringified(s) && NamesReadable(b, s)
    ensures forall k, c :: k in s.index && c in s.columns && c != NameColumn ==>
      (IsEmpty(At(s, k, c)) <==> At(s, k, c) == Text("nan"))
    ensures forall r :: r in Compare(b, s).value ==> r.attn.Text? && r.qandle.Text?
  {
    forall k, c | k in s.index && c in s.columns && c != NameColumn
      ensures IsEmpty(At(s, k, c)) <==> At(s, k, c) == Text("nan")
    {
      PreparedCellIsText(s, k, c);
    }
    forall r | r in Compare(b, s).value
      ensures r.attn.Text? && r.qandle.Text?
    {
      var k, c := RecordFromVisit(b, s, r);
      PreparedCellIsText(s, k, c);
      if k in b.index && c in b.columns {
        PreparedCellIsText(b, k, c);
      }
    }
  }

  /** A prepared cell outside the display column is text. */
  lemma PreparedCellIsText(f: Frame, k: Cell, c: string)
    requires Stringified(f) && k in f.index && c in f.columns && c != NameColumn
    ensures At(f, k, c).Text?
  {
    var i, j := IndexOf(f.index, k), IndexOf(f.columns, c);
    assert f.columns[j] != NameColumn;
  }

  /** Reconciling a table against itself fails only for want of a display
      column, and otherwise reports no mismatch. */
  lemma SelfReconcile(a: Frame)
    requires Keyed(a)
    ensures Compare(a, a).Success? <==> |a.index| == 0 || NameColumn in a.columns
    ensures Compare(a, a).Success? ==> forall r :: r in Compare(a, a).value ==> r.mismatch == No
  {
    if |a.index| > 0 {
      assert a.index[0] in a.index;
    }
    if Compare(a, a).Success? {
      forall r | r in Compare(a, a).value
        ensures r.mismatch == No
      {
        var k, c := RecordFromVisit(a, a, r);
      }
    }
  }
}
