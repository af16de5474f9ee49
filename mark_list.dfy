/** The marks table on the students page: the five subject columns built from a
    student's marks, and the in-row editor with its per-subject edit and save. */
module MarkList {
  import opened Common

  /** A mark as the listing delivers it; the score may be missing. */
  datatype Shown = Shown(subject: string, score: Option<int>)

  /** What a subject cell shows: `'-'`, or the score. */
  datatype Cell = Dash | Score(value: int)

  /** A row of the listing: a student and their marks. */
  datatype StudentRow = StudentRow(parentId: int, name: string, marks: seq<Shown>)

  const Columns: seq<string> := ["Biology", "English", "Chemistry", "Physics", "Maths"]

  /** `mark.subject && mark.score !== undefined`: the entry is written into the cells. */
  predicate Displayed(e: Shown) {
    e.subject != [] && e.score.Some?
  }

  /** The score of the last displayed entry for `subject`, if any. */
  function LastScore(marks: seq<Shown>, subject: string): Option<int> {
    if marks == [] then None
    else
      var e := marks[|marks| - 1];
      if Displayed(e) && e.subject == subject then e.score else LastScore(marks[..|marks| - 1], subject)
  }

  /** A subject has a score exactly when some displayed entry names it, and
      then it is the score of the last such entry. */
  lemma {:induction false} LastScoreIsLastDisplayed(marks: seq<Shown>, subject: string)
    ensures LastScore(marks, subject).Some? <==>
              exists i :: 0 <= i < |marks| && Displayed(marks[i]) && marks[i].subject == subject
    ensures LastScore(marks, subject).Some? ==>
              exists i :: && 0 <= i < |marks| && Displayed(marks[i])
                          && marks[i].subject == subject && marks[i].score == LastScore(marks, subject)
                          && forall j :: i < j < |marks| ==> !(Displayed(marks[j]) && marks[j].subject == subject)
  {
    if marks != [] {
      var n := |marks| - 1;
      var front := marks[..n];
      LastScoreIsLastDisplayed(front, subject);
      assert forall i :: 0 <= i < n ==> front[i] == marks[i];
      if !(Displayed(marks[n]) && marks[n].subject == subject) {
        if LastScore(front, subject).Some? {
          var i :| && 0 <= i < n && Displayed(front[i])
                   && front[i].subject == subject && front[i].score == LastScore(front, subject)
                   && forall j :: i < j < n ==> !(Displayed(front[j]) && front[j].subject == subject);
          assert marks[i] == front[i];
        }
      }
    }
  }

  function CellOf(marks: seq<Shown>, subject: string): Cell {
    match LastScore(marks, subject)
    case Some(v) => Score(v)
    case None => Dash
  }

  /** `transformMarks`: a `'-'` cell per column, then each displayed entry, in
      order, sets the cell of its subject, so a later entry for a subject wins
      and an unknown subject adds a key of its own. */
  method TransformMarks(marks: seq<Shown>) returns (cells: map<string, Cell>)
    ensures forall k :: k in cells <==>
              k in Columns || exists i :: 0 <= i < |marks| && Displayed(marks[i]) && marks[i].subject == k
    ensures forall k :: k in cells ==> cells[k] == CellOf(marks, k)
  {
    cells := map["Biology" := Dash, "English" := Dash, "Chemistry" := Dash, "Physics" := Dash, "Maths" := Dash];
    var i := 0;
    while i < |marks|
      invariant 0 <= i <= |marks|
      invariant forall k :: k in cells <==> k in Columns || LastScore(marks[..i], k).Some?
      invariant forall k :: k in cells ==> cells[k] == CellOf(marks[..i], k)
    {
      var m := marks[i];
      assert marks[..i + 1][..i] == marks[..i];
      if m.subject != [] && m.score.Some? {
        cells := cells[m.subject := Score(m.score.value)];
      }
      i := i + 1;
    }
    assert marks[..i] == marks;
    forall k {
      LastScoreIsLastDisplayed(marks, k);
    }
  }

  /** `handleEditChange` takes the empty field or a score in [0, 100]. */
  predicate AcceptsInput(input: NumberInput) {
    input.Blank? || 0 <= input.value <= 100
  }

  /** The entries for other subjects, in order. */
  function WithoutSubject(marks: seq<Shown>, subject: string): (r: seq<Shown>)
    ensures forall e :: e in r <==> e in marks && e.subject != subject
    ensures |r| <= |marks|
  {
    if marks == [] then []
    else
      var n := |marks| - 1;
      var front := WithoutSubject(marks[..n], subject);
      assert forall e :: e in marks ==> e in marks[..n] || e == marks[n];
      front + (if marks[n].subject != subject then [marks[n]] else [])
  }

  /** An accepted edit: every entry for the subject goes, and a typed score is
      added back as the subject's one entry. */
  function EditedMarks(marks: seq<Shown>, subject: string, input: NumberInput): (r: seq<Shown>)
    ensures forall e :: e in r && e.subject != subject <==> e in marks && e.subject != subject
    ensures (exists e :: e in r && e.subject == subject) <==> input.Typed?
    ensures forall i, j :: 0 <= i < |r| && 0 <= j < |r| && r[i].subject == subject && r[j].subject == subject ==> i == j
    ensures forall e :: e in r && e.subject == subject ==> e == Shown(subject, Some(input.value))
  {
    var kept := WithoutSubject(marks, subject);
    if input.Typed? then
      var r := kept + [Shown(subject, Some(input.value))];
      assert r[|kept|] in r;
      assert forall i :: 0 <= i < |kept| ==> r[i] in kept;
      r
    else
      assert forall i :: 0 <= i < |kept| ==> kept[i] in kept;
      kept
  }

  /** After an edit the subject's cell shows the typed score, or `'-'` when the
      field was cleared, whatever the entries held before. */
  lemma EditShowsInCell(marks: seq<Shown>, subject: string, input: NumberInput)
    requires subject != []
    ensures CellOf(EditedMarks(marks, subject, input), subject)
            == if input.Typed? then Score(input.value) else Dash
  {
    var r := EditedMarks(marks, subject, input);
    if input.Typed? {
      var n := |r| - 1;
      assert r[n] in r && r[n].subject == subject;
      assert Displayed(r[n]);
    } else {
      forall i | 0 <= i < |r| ensures r[i].subject != subject {
        assert r[i] in r;
      }
      LastScoreIsLastDisplayed(r, subject);
    }
  }

  /** Editing a subject leaves the cells of every other subject as they were. */
  lemma EditKeepsOtherCells(marks: seq<Shown>, subject: string, input: NumberInput, other: string)
    requires other != subject
    ensures CellOf(EditedMarks(marks, subject, input), other) == CellOf(marks, other)
  {
    var kept := WithoutSubject(marks, subject);
    WithoutSubjectKeepsLastScore(marks, subject, other);
    if input.Typed? {
      var added := kept + [Shown(subject, Some(input.value))];
      assert EditedMarks(marks, subject, input) == added;
      assert added[..|added| - 1] == kept;
      assert LastScore(added, other) == LastScore(kept, other);
    } else {
      assert EditedMarks(marks, subject, input) == kept;
    }
  }

  lemma {:induction false} WithoutSubjectKeepsLastScore(marks: seq<Shown>, subject: string, other: string)
    requires other != subject
    ensures LastScore(WithoutSubject(marks, subject), other) == LastScore(marks, other)
  {
    if marks != [] {
      var n := |marks| - 1;
      var front := WithoutSubject(marks[..n], subject);
      WithoutSubjectKeepsLastScore(marks[..n], subject, other);
      if marks[n].subject != subject {
        assert (front + [marks[n]])[..|front|] == front;
      } else {
        assert front + [] == front;
      }
    }
  }

  /** `handleEditSubmit`'s filter: a subject and a score in [0, 100]. */
  predicate Submittable(e: Shown) {
    e.subject != [] && e.score.Some? && 0 <= e.score.value <= 100
  }

  function SubmittableOnly(marks: seq<Shown>): (r: seq<Shown>)
    ensures forall e :: e in r <==> e in marks && Submittable(e)
    ensures forall e :: Submittable(e) ==> multiset(r)[e] == multiset(marks)[e]
    ensures |r| <= |marks|
  {
    if marks == [] then []
    else
      var rest := SubmittableOnly(marks[1..]);
      assert forall e :: e in marks ==> e == marks[0] || e in marks[1..];
      assert marks == [marks[0]] + marks[1..];
      (if Submittable(marks[0]) then [marks[0]] else []) + rest
  }

  /** The table's own state: the student row being edited, if any. */
  class Table {
    var editMark: Option<StudentRow>

    constructor ()
      ensures editMark == None
    {
      editMark := None;
    }

    /** The Edit button: the row's current marks become the edited copy. */
    method StartEdit(student: StudentRow)
      modifies this
      ensures editMark == Some(student)
    {
      editMark := Some(student);
    }

    /** The Cancel button. */
    method Cancel()
      modifies this
      ensures editMark == None
    {
      editMark := None;
    }

    /** `handleEditChange`: an accepted input replaces the subject's entries; any
        other input leaves the edited copy as it was. */
    method EditChange(subject: string, input: NumberInput)
      requires editMark.Some?
      modifies this
      ensures AcceptsInput(input) ==>
                editMark == Some(old(editMark).value.(marks := EditedMarks(old(editMark).value.marks, subject, input)))
      ensures !AcceptsInput(input) ==> editMark == old(editMark)
    {
      if input.Blank? || (0 <= input.value && input.value <= 100) {
        var row := editMark.value;
        var updated := WithoutSubject(row.marks, subject);
        if input.Typed? {
          updated := updated + [Shown(subject, Some(input.value))];
        }
        editMark := Some(row.(marks := updated));
      }
    }

    /** `handleEditSubmit`: with no submittable entry the editor stays open and
        nothing is sent; otherwise the row with only its submittable entries is
        handed to the update callback and the editor closes. */
    method EditSubmit() returns (update: Option<StudentRow>)
      requires editMark.Some?
      modifies this
      ensures var row := old(editMark).value;
              var valid := SubmittableOnly(row.marks);
              if valid == [] then update.None? && editMark == old(editMark)
              else update == Some(row.(marks := valid)) && editMark.None?
    {
      var row := editMark.value;
      var valid := SubmittableOnly(row.marks);
      if |valid| == 0 {
        return None;
      }
      update := Some(row.(marks := valid));
      editMark := None;
    }
  }
}
