/** The part of `generate_report` the model keeps: the number of mismatching
    lines, and the "no data" outcome for an empty report. */
module Report {
  import opened Wrappers
  import opened Tables
  import opened Reconcile

  /** The number of records flagged `Yes`. */
  function MismatchCount(rs: seq<Record>): (n: nat)
    ensures n <= |rs|
  {
    if |rs| == 0 then 0
    else (if rs[0].mismatch == Yes then 1 else 0) + MismatchCount(rs[1..])
  }

  /** What `generate_report` reports: nothing for an empty report, the
      mismatch count otherwise. */
  function Summary(rs: seq<Record>): (r: Option<nat>)
    ensures r.None? <==> |rs| == 0
    ensures r.Some? ==> r.value == MismatchCount(rs) && r.value <= |rs|
    ensures r.Some? && r.value == 0 ==> forall x :: 0 <= x < |rs| ==> rs[x].mismatch == No
  {
    if |rs| == 0 then None
    else
      MismatchCountZero(rs);
      Some(MismatchCount(rs))
  }

  /** Counting distributes over concatenation. */
  lemma {:induction false} MismatchCountAppend(a: seq<Record>, b: seq<Record>)
    ensures MismatchCount(a + b) == MismatchCount(a) + MismatchCount(b)
  {
    if |a| > 0 {
      assert (a + b)[1..] == a[1..] + b;
      MismatchCountAppend(a[1..], b);
    } else {
      assert a + b == b;
    }
  }

  /** The count is zero exactly when no record is flagged `Yes`. */
  lemma {:induction false} MismatchCountZero(rs: seq<Record>)
    ensures MismatchCount(rs) == 0 <==> forall x :: 0 <= x < |rs| ==> rs[x].mismatch == No
  {
    if |rs| > 0 {
      MismatchCountZero(rs[1..]);
      assert forall x :: 1 <= x < |rs| ==> rs[x] == rs[1..][x - 1];
    }
  }

  /** The count is the length exactly when every record is flagged `Yes`. */
  lemma {:induction false} MismatchCountAll(rs: seq<Record>)
    ensures MismatchCount(rs) == |rs| <==> forall x :: 0 <= x < |rs| ==> rs[x].mismatch == Yes
  {
    if |rs| > 0 {
      MismatchCountAll(rs[1..]);
      assert forall x :: 1 <= x < |rs| ==> rs[x] == rs[1..][x - 1];
    }
  }

  /** A table reconciled against itself has no mismatches. */
  lemma SelfReconcileCount(a: Frame)
    requires Keyed(a) && NamesReadable(a, a)
    ensures MismatchCount(Compare(a, a).value) == 0
  {
    SelfReconcile(a);
    MismatchCountZero(Compare(a, a).value);
  }

  /** When the backend knows none of the submitted employees, every line is a
      mismatch: the count is the number of lines. */
  lemma AllUnknownCount(b: Frame, s: Frame)
    requires Keyed(b) && Keyed(s)
    requires forall k :: k in s.index ==> k !in b.index
    ensures Compare(b, s).Success?
    ensures MismatchCount(Compare(b, s).value) == |Compare(b, s).value|
  {
    var rs := Compare(b, s).value;
    UnknownEmployee(b, s);
    ReportedKeysFromSubmission(b, s);
    forall x | 0 <= x < |rs|
      ensures rs[x].mismatch == Yes
    {
      assert rs[x] in rs;
    }
    MismatchCountAll(rs);
  }
}
