/** The "Add Marks" dialog: between one and five editable subject/score rows,
    the parent id field, and the checks made before the marks are sent. */
module MarkForm {
  import opened Common
  import opened MarkRules

  /** One editable row: the subject text and the score field. */
  datatype Row = Row(subject: string, score: NumberInput)

  const EmptyRow := Row("", Blank)
  const MaxRows := 5

  /** Which field of a row an input event changes, with its new value. */
  datatype Field = SubjectText(text: string) | ScoreInput(input: NumberInput)

  /** The message the dialog shows; `NoError` is the empty string. */
  datatype FormError =
    | NoError
    | ParentIdRequired
    | NoValidMarks
    | ScoreNotInRange(subject: string)
    | RequestFailed(message: string)

  /** How the two requests that follow a successful check end: the marks are
      created (201), another success status comes back, or either request fails
      with the given message. */
  datatype Reply = Created | OtherSuccess | Failed(message: string)

  /** `handleMarkChange`: one field of one row takes the new value. */
  function WithField(rows: seq<Row>, index: int, f: Field): (r: seq<Row>)
    requires 0 <= index < |rows|
    ensures |r| == |rows|
    ensures forall j :: 0 <= j < |rows| && j != index ==> r[j] == rows[j]
    ensures f.SubjectText? ==> r[index].subject == f.text && r[index].score == rows[index].score
    ensures f.ScoreInput? ==> r[index].score == f.input && r[index].subject == rows[index].subject
  {
    var row := rows[index];
    rows[index := match f
                  case SubjectText(t) => row.(subject := t)
                  case ScoreInput(v) => row.(score := v)]
  }

  /** `addMarkField`: a new empty row at the end, unless five rows are shown. */
  function Appended(rows: seq<Row>): (r: seq<Row>)
    ensures rows <= r && |r| <= |rows| + 1
    ensures |r| > |rows| <==> |rows| < MaxRows
    ensures |r| > |rows| ==> r[|rows|] == EmptyRow
  {
    if |rows| < MaxRows then rows + [EmptyRow] else rows
  }

  /** `removeMarkField`: the row at `index` goes, unless it is the only row. */
  function Removed(rows: seq<Row>, index: int): (r: seq<Row>)
    ensures |rows| > 1 && 0 <= index < |rows| ==>
              && |r| == |rows| - 1
              && r[..index] == rows[..index] && r[index..] == rows[index + 1..]
              && multiset(r) + multiset{rows[index]} == multiset(rows)
    ensures !(|rows| > 1 && 0 <= index < |rows|) ==> r == rows
  {
    if |rows| > 1 && 0 <= index < |rows| then
      assert rows == rows[..index] + [rows[index]] + rows[index + 1..];
      rows[..index] + rows[index + 1..]
    else rows
  }

  /** `mark.subject && mark.score`: both fields filled in. A score field holds a
      string, so a typed 0 is filled in. */
  predicate Filled(row: Row) {
    row.subject != [] && row.score.Typed?
  }

  /** `validMarks`: the filled-in rows, in order. */
  function FilledRows(rows: seq<Row>): (r: seq<Row>)
    ensures |r| <= |rows|
    ensures forall x :: x in r <==> x in rows && Filled(x)
    ensures forall i :: 0 <= i < |r| ==> Filled(r[i])
    ensures forall x :: Filled(x) ==> multiset(r)[x] == multiset(rows)[x]
  {
    if rows == [] then []
    else
      var rest := FilledRows(rows[1..]);
      assert forall x :: x in rows ==> x == rows[0] || x in rows[1..];
      assert rows == [rows[0]] + rows[1..];
      (if Filled(rows[0]) then [rows[0]] else []) + rest
  }

  /** The filter keeps the order: filtering two parts and joining them is
      filtering the whole. */
  lemma {:induction false} FilledRowsAppend(a: seq<Row>, b: seq<Row>)
    ensures FilledRows(a + b) == FilledRows(a) + FilledRows(b)
  {
    if a == [] {
      assert a + b == b;
    } else {
      var head := if Filled(a[0]) then [a[0]] else [];
      var tail := a[1..];
      FilledRowsAppend(tail, b);
      SplitHead(a, b);
      FilledRowsCons(a[0], tail + b);
      FilledRowsCons(a[0], tail);
      AppendAssociates(head, FilledRows(tail), FilledRows(b));
    }
  }

  lemma SplitHead<T>(a: seq<T>, b: seq<T>)
    requires a != []
    ensures [a[0]] + a[1..] == a
    ensures [a[0]] + (a[1..] + b) == a + b
  {
  }

  lemma AppendAssociates<T>(a: seq<T>, b: seq<T>, c: seq<T>)
    ensures a + (b + c) == (a + b) + c
  {
  }

  lemma FilledRowsCons(x: Row, rest: seq<Row>)
    ensures FilledRows([x] + rest) == (if Filled(x) then [x] else []) + FilledRows(rest)
  {
    assert ([x] + rest)[1..] == rest;
  }

  predicate InRange(row: Row) {
    row.score.Typed? && 0 <= row.score.value <= 100
  }

  /** The subject of the first row whose score is outside [0, 100], if any. */
  function FirstOutOfRange(rows: seq<Row>): (r: Option<string>)
    ensures r.None? <==> forall i :: 0 <= i < |rows| ==> InRange(rows[i])
    ensures r.Some? ==> exists k :: 0 <= k < |rows| && r.value == rows[k].subject
                                    && !InRange(rows[k])
                                    && forall j :: 0 <= j < k ==> InRange(rows[j])
  {
    if rows == [] then None
    else if !InRange(rows[0]) then Some(rows[0].subject)
    else
      var r := FirstOutOfRange(rows[1..]);
      assert r.Some? ==> exists k :: 1 <= k < |rows| && r.value == rows[k].subject
                                     && !InRange(rows[k])
                                     && forall j :: 0 <= j < k ==> InRange(rows[j]) by {
        if r.Some? {
          var k :| 0 <= k < |rows| - 1 && r.value == rows[1..][k].subject
                   && !InRange(rows[1..][k])
                   && forall j :: 0 <= j < k ==> InRange(rows[1..][j]);
          assert forall j :: 1 <= j < k + 1 ==> rows[j] == rows[1..][j - 1];
        }
      }
      r
  }

  /** The `marks` payload: every kept row as `{subject, Number(score)}`. */
  function PayloadOf(rows: seq<Row>): seq<Entry>
    requires forall x :: x in rows ==> x.score.Typed?
  {
    seq(|rows|, i requires 0 <= i < |rows| => Entry(rows[i].subject, Number(rows[i].score.value)))
  }

  /** The checks `handleSubmit` makes before any request, in their order: a
      parent id, at least one filled-in row, every filled-in score in range. */
  function SubmitCheck(parentId: string, rows: seq<Row>): (r: Result<seq<Entry>, FormError>)
    ensures parentId == [] <==> r == Err(ParentIdRequired)
    ensures parentId != [] && FilledRows(rows) == [] ==> r == Err(NoValidMarks)
    ensures r.Ok? <==> && parentId != []
                       && (exists x :: x in rows && Filled(x))
                       && (forall x :: x in rows && Filled(x) ==> InRange(x))
    ensures r.Err? ==> r.error in {ParentIdRequired, NoValidMarks} || r.error.ScoreNotInRange?
    ensures r.Err? && r.error.ScoreNotInRange? ==>
              && (exists x :: x in rows && Filled(x) && !InRange(x) && x.subject == r.error.subject)
              && FirstOutOfRange(FilledRows(rows)) == Some(r.error.subject)
    ensures r.Ok? ==> && |r.value| == |FilledRows(rows)|
                      && forall i :: 0 <= i < |r.value| ==>
                           r.value[i].subject == FilledRows(rows)[i].subject
                           && r.value[i].score == Number(FilledRows(rows)[i].score.value)
  {
    if parentId == [] then Err(ParentIdRequired)
    else
      var valid := FilledRows(rows);
      var r := CheckFilled(valid);
      assert (exists x :: x in rows && Filled(x)) <==> valid != [] by {
        if valid != [] {
          assert valid[0] in valid;
        }
      }
      assert (forall x :: x in rows && Filled(x) ==> InRange(x)) <==> (forall x :: x in valid ==> InRange(x));
      r
  }

  /** The checks after the parent id, on the filled-in rows. */
  function CheckFilled(valid: seq<Row>): (r: Result<seq<Entry>, FormError>)
    requires forall i :: 0 <= i < |valid| ==> valid[i].subject != [] && valid[i].score.Typed?
    ensures r == Err(NoValidMarks) <==> valid == []
    ensures r.Ok? <==> valid != [] && forall x :: x in valid ==> InRange(x)
    ensures r.Err? ==> r.error == NoValidMarks || r.error.ScoreNotInRange?
    ensures r.Err? && r.error.ScoreNotInRange? ==>
              && (exists x :: x in valid && !InRange(x) && x.subject == r.error.subject)
              && FirstOutOfRange(valid) == Some(r.error.subject)
    ensures r.Ok? ==> && |r.value| == |valid|
                      && forall i :: 0 <= i < |r.value| ==>
                           r.value[i].subject == valid[i].subject
                           && r.value[i].score == Number(valid[i].score.value)
  {
    if |valid| == 0 then Err(NoValidMarks)
    else
      match FirstOutOfRange(valid)
      case Some(subject) =>
        assert exists k :: 0 <= k < |valid| && valid[k].subject == subject && !InRange(valid[k]);
        var k :| 0 <= k < |valid| && valid[k].subject == subject && !InRange(valid[k]);
        assert valid[k] in valid;
        Err(ScoreNotInRange(subject))
      case None =>
        assert forall x :: x in valid ==> InRange(x) by {
          forall x | x in valid ensures InRange(x) {
            var i :| 0 <= i < |valid| && valid[i] == x;
          }
        }
        assert forall x :: x in valid ==> x.score.Typed?;
        Ok(PayloadOf(valid))
  }

  /** The score loop of `handleSubmit`: the first row out of range, if any. */
  method FindOutOfRange(valid: seq<Row>) returns (bad: Option<string>)
    ensures bad == FirstOutOfRange(valid)
  {
    var i := 0;
    while i < |valid|
      invariant 0 <= i <= |valid|
      invariant forall j :: 0 <= j < i ==> InRange(valid[j])
    {
      if !InRange(valid[i]) {
        FirstOutOfRangeIs(valid, i);
        return Some(valid[i].subject);
      }
      i := i + 1;
    }
    return None;
  }

  /** A filled-in row out of range: the first one is reported. */
  lemma SubmitCheckReportsFirst(parentId: string, rows: seq<Row>)
    requires parentId != [] && FilledRows(rows) != []
    requires FirstOutOfRange(FilledRows(rows)).Some?
    ensures SubmitCheck(parentId, rows) == Err(ScoreNotInRange(FirstOutOfRange(FilledRows(rows)).value))
  {
  }

  /** Every filled-in row in range: the payload is every filled-in row. */
  lemma SubmitCheckPasses(parentId: string, rows: seq<Row>)
    requires parentId != [] && FilledRows(rows) != []
    requires FirstOutOfRange(FilledRows(rows)).None?
    ensures SubmitCheck(parentId, rows) == Ok(PayloadOf(FilledRows(rows)))
  {
  }

  /** Whatever the dialog sends passes the server's count and score checks:
      the dialog never shows more than five rows and lets through only scores
      in [0, 100]. Subjects are not checked by the dialog and may still be refused. */
  lemma SentPayloadPassesCountAndScoreChecks(parentId: string, rows: seq<Row>, existing: seq<string>)
    requires |rows| <= MaxRows
    requires SubmitCheck(parentId, rows).Ok?
    ensures var r := CheckEntries(SubmitCheck(parentId, rows).value, existing);
            r != Err(WrongCount) && !(r.Err? && r.error.ScoreOutOfRange?)
  {
    var es := SubmitCheck(parentId, rows).value;
    var valid := FilledRows(rows);
    forall i | 0 <= i < |es| ensures ScoreAccepted(es[i].score) {
      assert valid[i] in valid;
    }
    CheckEntriesFailures(es, existing);
  }

  /** The dialog's state: the rows, the message, the in-flight flag and the
      parent id field. */
  class Form {
    var marks: seq<Row>
    var error: FormError
    var isSubmitting: bool
    var localParentId: string

    ghost predicate Valid()
      reads this
    {
      1 <= |marks| <= MaxRows
    }

    /** A fresh dialog: one empty row, no message, the parent id it was opened for
        (`parentId || ''`). */
    constructor (parentId: string)
      ensures Valid()
      ensures marks == [EmptyRow] && error == NoError && !isSubmitting && localParentId == parentId
    {
      marks := [EmptyRow];
      error := NoError;
      isSubmitting := false;
      localParentId := parentId;
    }

    /** The effect run when the dialog is shown or its parent id changes, and the
        close button: back to one empty row and no message. */
    method Reset(parentId: string)
      modifies this
      ensures Valid()
      ensures marks == [EmptyRow] && error == NoError && localParentId == parentId
      ensures isSubmitting == old(isSubmitting)
    {
      localParentId := parentId;
      marks := [EmptyRow];
      error := NoError;
    }

    method SetParentId(text: string)
      requires Valid()
      modifies this
      ensures Valid()
      ensures localParentId == text
      ensures marks == old(marks) && error == old(error) && isSubmitting == old(isSubmitting)
    {
      localParentId := text;
    }

    method ChangeMark(index: int, f: Field)
      requires Valid() && 0 <= index < |marks|
      modifies this
      ensures Valid()
      ensures marks == WithField(old(marks), index, f)
      ensures error == old(error) && isSubmitting == old(isSubmitting) && localParentId == old(localParentId)
    {
      marks := WithField(marks, index, f);
    }

    method AddRow()
      requires Valid()
      modifies this
      ensures Valid()
      ensures marks == Appended(old(marks))
      ensures error == old(error) && isSubmitting == old(isSubmitting) && localParentId == old(localParentId)
    {
      if |marks| < MaxRows {
        marks := marks + [EmptyRow];
      }
    }

    method RemoveRow(index: int)
      requires Valid()
      modifies this
      ensures Valid()
      ensures marks == Removed(old(marks), index)
      ensures error == old(error) && isSubmitting == old(isSubmitting) && localParentId == old(localParentId)
    {
      if |marks| > 1 {
        if 0 <= index < |marks| {
          marks := marks[..index] + marks[index + 1..];
        }
      }
    }

    /** `handleSubmit` up to the requests: ignored while a submission is in
        flight; otherwise every failed check shows its message and clears the
        in-flight flag, and a passing form yields the payload to send with the
        flag still set until `Complete`. The rows are never changed here. */
    method Submit() returns (request: Option<seq<Entry>>)
      requires Valid()
      modifies this
      ensures Valid()
      ensures marks == old(marks) && localParentId == old(localParentId)
      ensures old(isSubmitting) ==> request.None? && isSubmitting && error == old(error)
      ensures !old(isSubmitting) ==>
                match SubmitCheck(old(localParentId), old(marks))
                case Err(e) => request.None? && error == e && !isSubmitting
                case Ok(payload) => request == Some(payload) && isSubmitting && error == old(error)
    {
      if isSubmitting {
        return None;
      }
      isSubmitting := true;
      if localParentId == [] {
        error := ParentIdRequired;
        isSubmitting := false;
        return None;
      }
      var valid := FilledRows(marks);
      if |valid| == 0 {
        error := NoValidMarks;
        isSubmitting := false;
        return None;
      }
      var bad := FindOutOfRange(valid);
      if bad.Some? {
        SubmitCheckReportsFirst(localParentId, marks);
        error := ScoreNotInRange(bad.value);
        isSubmitting := false;
        return None;
      }
      SubmitCheckPasses(localParentId, marks);
      request := Some(PayloadOf(valid));
    }

    /** The end of `handleSubmit`: after a 201 the dialog starts over; a failure
        shows the server's or the network's message; on every path the in-flight
        flag is cleared. */
    method Complete(reply: Reply, parentId: string)
      requires Valid()
      modifies this
      ensures Valid() && !isSubmitting
      ensures reply.Created? ==> marks == [EmptyRow] && error == NoError && localParentId == parentId
      ensures reply.Failed? ==> error == RequestFailed(reply.message)
                                && marks == old(marks) && localParentId == old(localParentId)
      ensures reply.OtherSuccess? ==> marks == old(marks) && error == old(error) && localParentId == old(localParentId)
    {
      isSubmitting := false;
      match reply
      case Created =>
        marks := [EmptyRow];
        error := NoError;
        localParentId := parentId;
      case OtherSuccess =>
      case Failed(message) =>
        error := RequestFailed(message);
    }
  }

  /** The loop's first offender is the one `FirstOutOfRange` names. */
  lemma FirstOutOfRangeIs(rows: seq<Row>, i: int)
    requires 0 <= i < |rows| && !InRange(rows[i])
    requires forall j :: 0 <= j < i ==> InRange(rows[j])
    ensures FirstOutOfRange(rows) == Some(rows[i].subject)
  {
    var r := FirstOutOfRange(rows);
    var k :| 0 <= k < |rows| && r.value == rows[k].subject
             && !InRange(rows[k]) && forall j :: 0 <= j < k ==> InRange(rows[j]);
    assert k == i;
  }
}
