/** The roster: the rows of the grade sheet after loading, and the login
    lookup that finds a student's row by secret code. */
module Roster {
  import opened Cells

  datatype Option<T> = None | Some(value: T)

  /** A row as read from the sheet. The login code is read as text, so it is
      compared character by character and leading zeros are kept. A code cell
      the reader reads as missing (an empty field, or a default missing-value
      marker such as `NA` even under text reading) is represented by the empty
      string: like the reader's NaN, it equals no non-empty key. */
  datatype RawRow = RawRow(
    code: string,
    name: string,
    midterm: Cell,
    formative: Cell,
    report: Cell,
    discussion: Cell,
    total: Cell)

  /** A row of the loaded roster: the total column has been coerced to a
      number, the component columns are still as read. */
  datatype Record = Record(
    code: string,
    name: string,
    midterm: Cell,
    formative: Cell,
    report: Cell,
    discussion: Cell,
    total: real)

  function LoadRow(row: RawRow): Record
  {
    Record(row.code, row.name, row.midterm, row.formative, row.report,
           row.discussion, Coerce(row.total))
  }

  /** Loading keeps every row, in order, with its code, name and components
      unchanged; only the total is coerced, and it becomes 0 exactly when the
      cell did not hold a number. */
  function Load(raw: seq<RawRow>): (roster: seq<Record>)
    ensures |roster| == |raw|
    ensures forall i :: 0 <= i < |raw| ==>
      && roster[i].code == raw[i].code
      && roster[i].name == raw[i].name
      && roster[i].midterm == raw[i].midterm
      && roster[i].formative == raw[i].formative
      && roster[i].report == raw[i].report
      && roster[i].discussion == raw[i].discussion
      && (raw[i].total.Number? ==> roster[i].total == raw[i].total.value)
      && (!raw[i].total.Number? ==> roster[i].total == 0.0)
  {
    seq(|raw|, i requires 0 <= i < |raw| => LoadRow(raw[i]))
  }

  /** Position of the first row whose code equals `code`, if any. */
  function FirstWithCode(rows: seq<Record>, code: string): (r: Option<nat>)
    ensures r.Some? ==>
      && r.value < |rows|
      && rows[r.value].code == code
      && forall j :: 0 <= j < r.value ==> rows[j].code != code
    ensures r.None? <==> forall j :: 0 <= j < |rows| ==> rows[j].code != code
  {
    if |rows| == 0 then None
    else if rows[0].code == code then Some(0)
    else match FirstWithCode(rows[1..], code)
      case None => None
      case Some(i) => Some(i + 1)
  }

  /** What pressing the login button yields. */
  datatype Login = MissingKey | InvalidKey | LoggedIn(student: Record)

  /** An empty key asks for a key and searches nothing; otherwise the first
      row whose code equals the key exactly logs in, and a key no row carries
      is rejected. */
  function LogIn(roster: seq<Record>, key: string): (r: Login)
    ensures r.MissingKey? <==> key == ""
    ensures r.InvalidKey? <==> key != "" && forall j :: 0 <= j < |roster| ==> roster[j].code != key
    ensures r.LoggedIn? ==>
      && r.student.code == key
      && exists i :: 0 <= i < |roster| && roster[i] == r.student
           && forall j :: 0 <= j < i ==> roster[j].code != key
  {
    if key == "" then MissingKey
    else match FirstWithCode(roster, key)
      case None => InvalidKey
      case Some(i) => LoggedIn(roster[i])
  }

  /** A row whose code cell is missing can never be the one that logs in. */
  lemma BlankCodeNeverLogsIn(roster: seq<Record>, key: string)
    ensures LogIn(roster, key).LoggedIn? ==> LogIn(roster, key).student.code != ""
  {
  }

  /** Codes are compared as text: "7" does not open the row of "007". */
  lemma LeadingZerosMatter(r: Record)
    requires r.code == "007"
    ensures LogIn([r], "7") == InvalidKey
    ensures LogIn([r], "007") == LoggedIn(r)
  {
  }

  /** Rows after the first match play no part in the search. */
  lemma {:induction false} FirstWithCodeIgnoresSuffix(rows: seq<Record>, more: seq<Record>, code: string)
    requires FirstWithCode(rows, code).Some?
    ensures FirstWithCode(rows + more, code) == FirstWithCode(rows, code)
  {
    if rows[0].code != code {
      assert (rows + more)[1..] == rows[1..] + more;
      FirstWithCodeIgnoresSuffix(rows[1..], more, code);
    }
  }

  /** Appending rows to the sheet does not change who a working code logs in
      as, so a duplicated code always resolves to its first row. */
  lemma LogInIgnoresLaterRows(roster: seq<Record>, more: seq<Record>, key: string)
    requires LogIn(roster, key).LoggedIn?
    ensures LogIn(roster + more, key) == LogIn(roster, key)
  {
    FirstWithCodeIgnoresSuffix(roster, more, key);
    var i := FirstWithCode(roster, key).value;
    assert (roster + more)[i] == roster[i];
  }
}
