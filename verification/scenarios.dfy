/** Worked examples of the comparison on one employee and one date. */
module Scenarios {
  import opened Wrappers
  import opened Calendar
  import opened Headers
  import opened Tables
  import opened Reconcile

  /** The header of the 5 January 2024 column after preparation. */
  const Jan5: string := "2024-01-05"

  /** A backend that has employee E1 present on 5 January 2024. */
  const Backend: Frame := Frame([Text("E1")], [NameColumn, Jan5], [[Text("Backend Name"), Text("P")]])

  /** A submission that has E1 absent that day. */
  const Differing: Frame := Frame([Text("E1")], [NameColumn, Jan5], [[Text("Sheet Name"), Text("A")]])

  /** A submission for an employee E2 the backend does not know. */
  const Newcomer: Frame := Frame([Text("E2")], [NameColumn, Jan5], [[Text("New Hire"), Text("P")]])

  lemma Jan5Display()
    ensures DisplayDate(Jan5) == "05-Jan-24"
  {
    var d := Date(2024, 1, 5);
    assert FormatIso(d) == Jan5;
    DisplayDateIso(d);
    assert FormatDMonYY(d) == "05-Jan-24";
  }

  /** A one-row, one-date submission visits its single pair. */
  lemma SingleVisit(s: Frame, k: Cell)
    requires s.index == [k] && s.columns == [NameColumn, Jan5]
    ensures Visits(s) == [Slot(k, Jan5)]
  {
    assert DateColumns(s.columns) == [Jan5];
    assert s.index[1..] == [];
    var row := seq(1, j requires 0 <= j < 1 => Slot(k, [Jan5][j]));
    assert row == [Slot(k, Jan5)];
    assert Visits(s) == row + Slots([], [Jan5]);
  }

  /** A one-row, one-date submission yields exactly the record of its pair. */
  lemma SingleRecord(b: Frame, s: Frame, k: Cell)
    requires Keyed(b) && Keyed(s) && NamesReadable(b, s)
    requires s.index == [k] && s.columns == [NameColumn, Jan5]
    ensures Compare(b, s) == Success([RecordFor(b, s, k, Jan5)])
  {
    SingleVisit(s, k);
    var v := Visits(s);
    assert Compare(b, s).Success?;
    var rs := Compare(b, s).value;
    assert |rs| == 1;
    assert rs[0] == RecordFor(b, s, v[0].key, v[0].column);
    assert rs == [RecordFor(b, s, k, Jan5)];
  }

  lemma DifferingRecord()
    ensures Keyed(Backend) && Keyed(Differing) && Text("E1") in Backend.index
    ensures RecordFor(Backend, Differing, Text("E1"), Jan5)
      == Record(Text("E1"), Text("Sheet Name"), "05-Jan-24", Text("A"), Text("P"), Yes)
  {
    var b, s := Backend, Differing;
    Jan5Display();
    assert At(s, Text("E1"), Jan5) == Text("A");
    assert At(s, Text("E1"), NameColumn) == Text("Sheet Name");
    assert Reference(b, Text("E1"), Jan5) == Text("P");
    assert Judge(Text("A"), Text("P")) == Verdict(Text("A"), Text("P"), Yes);
  }

  /** The backend says present, the submission says absent: one line, a
      mismatch, under the submission's name. */
  lemma DifferingValue()
    ensures Keyed(Backend) && Keyed(Differing)
    ensures Compare(Backend, Differing) ==
      Success([Record(Text("E1"), Text("Sheet Name"), "05-Jan-24", Text("A"), Text("P"), Yes)])
  {
    DifferingRecord();
    SingleRecord(Backend, Differing, Text("E1"));
  }

  lemma NewcomerRecord()
    ensures Keyed(Backend) && Keyed(Newcomer) && Text("E2") !in Backend.index
    ensures RecordFor(Backend, Newcomer, Text("E2"), Jan5)
      == Record(Text("E2"), Text("New Hire"), "05-Jan-24", Text("P"), Text(NotInBackend), Yes)
  {
    var s := Newcomer;
    Jan5Display();
    assert At(s, Text("E2"), Jan5) == Text("P");
    assert At(s, Text("E2"), NameColumn) == Text("New Hire");
  }

  /** An employee the backend does not know: one line, a mismatch, reported as
      not found. */
  lemma UnknownInBackend()
    ensures Keyed(Backend) && Keyed(Newcomer)
    ensures Compare(Backend, Newcomer) ==
      Success([Record(Text("E2"), Text("New Hire"), "05-Jan-24", Text("P"), Text(NotInBackend), Yes)])
  {
    NewcomerRecord();
    assert NamesReadable(Backend, Newcomer);
    SingleRecord(Backend, Newcomer, Text("E2"));
  }
}
