/** The marks table and the five mark handlers that act on it: create, view,
    replace-by-subject, delete-all and the paged listing grouped by student. */
module MarkStore {
  import opened Common
  import opened Text
  import opened MarkModel
  import opened MarkRules
  import opened MarkPaging

  /** What every stored row satisfies: the schema's column constraints, an id
      below the next one to be assigned, an existing student, and a subject
      from the whitelist (compared case-insensitively). */
  predicate RowInvariant(students: Directory, nextId: int, m: Mark) {
    && WellFormed(m)
    && m.id < nextId
    && m.parentId in students
    && IsAllowed(ToLower(m.subject))
  }

  /** A student has at most one row per subject, subjects compared case-insensitively. */
  predicate OneMarkPerSubject(rows: seq<Mark>) {
    forall a, b ::
      (a in rows && b in rows && a.parentId == b.parentId && ToLower(a.subject) == ToLower(b.subject)) ==> a == b
  }

  predicate TableInvariant(students: Directory, rows: seq<Mark>, nextId: int) {
    && (forall m :: m in rows ==> RowInvariant(students, nextId, m))
    && UniqueIds(rows)
    && OneMarkPerSubject(rows)
  }

  /** The rows `bulkCreate` inserts for a validated batch: the subject trimmed
      with its case kept, the score as an integer, ids assigned from `firstId` on. */
  function NewRows(es: seq<Entry>, parentId: int, firstId: int): seq<Mark>
    requires forall i :: 0 <= i < |es| ==> es[i].score.Number?
  {
    seq(|es|, i requires 0 <= i < |es| => Mark(firstId + i, Trim(es[i].subject), es[i].score.n, parentId))
  }

  /** The rows that survive the delete step of an update: the student's rows
      whose subject matches a requested one (case-insensitively) are removed. */
  function Kept(rows: seq<Mark>, parentId: int, subjects: seq<string>): (r: seq<Mark>)
    ensures forall m :: m in r <==> m in rows && !(m.parentId == parentId && ToLower(m.subject) in subjects)
  {
    if rows == [] then []
    else
      var rest := Kept(rows[1..], parentId, subjects);
      assert forall m :: m in rows ==> m == rows[0] || m in rows[1..];
      var m := rows[0];
      if m.parentId == parentId && ToLower(m.subject) in subjects then rest else [m] + rest
  }

  lemma {:induction false} KeptKeepsUniqueIds(rows: seq<Mark>, parentId: int, subjects: seq<string>)
    requires UniqueIds(rows)
    ensures UniqueIds(Kept(rows, parentId, subjects))
  {
    if rows != [] {
      TailKeepsUniqueIds(rows);
      KeptKeepsUniqueIds(rows[1..], parentId, subjects);
      if !(rows[0].parentId == parentId && ToLower(rows[0].subject) in subjects) {
        ConsKeepsUniqueIds(rows, Kept(rows[1..], parentId, subjects));
      }
    }
  }

  lemma {:induction false} KeptAppend(a: seq<Mark>, b: seq<Mark>, parentId: int, subjects: seq<string>)
    ensures Kept(a + b, parentId, subjects) == Kept(a, parentId, subjects) + Kept(b, parentId, subjects)
  {
    if a == [] {
      assert a + b == b;
    } else {
      assert (a + b)[0] == a[0] && (a + b)[1..] == a[1..] + b;
      KeptAppend(a[1..], b, parentId, subjects);
    }
  }

  /** The delete step of `updateMarks` as written: rows are removed only when
      their stored subject equals a trimmed requested subject exactly. */
  function KeptAsWritten(rows: seq<Mark>, parentId: int, trimmed: seq<string>): (r: seq<Mark>)
    ensures forall m :: m in r <==> m in rows && !(m.parentId == parentId && m.subject in trimmed)
  {
    if rows == [] then []
    else
      var m := rows[0];
      (if m.parentId == parentId && m.subject in trimmed then [] else [m])
        + KeptAsWritten(rows[1..], parentId, trimmed)
  }

  /** The requested subjects trimmed but with their case kept. */
  function Trimmed(es: seq<Entry>): seq<string> {
    seq(|es|, i requires 0 <= i < |es| => Trim(es[i].subject))
  }

  /** Each inserted row satisfies the row invariant, and its lower-cased subject
      is the normalised requested subject. */
  lemma NewRowsValid(students: Directory, nextId: int, parentId: int, es: seq<Entry>)
    requires parentId in students
    requires Acceptable(es, [])
    ensures var added := NewRows(es, parentId, nextId);
            forall i :: 0 <= i < |added| ==>
              && RowInvariant(students, nextId + |es|, added[i])
              && added[i].id == nextId + i && added[i].parentId == parentId
              && added[i].score == es[i].score.n
              && ToLower(added[i].subject) == Subjects(es)[i]
  {
    var added := NewRows(es, parentId, nextId);
    forall i | 0 <= i < |added|
      ensures && RowInvariant(students, nextId + |es|, added[i])
              && added[i].id == nextId + i && added[i].parentId == parentId
              && added[i].score == es[i].score.n
              && ToLower(added[i].subject) == Subjects(es)[i]
    {
      assert Subjects(es)[i] in Subjects(es);
      NewRowValid(students, nextId, parentId, es, i);
    }
  }

  /** One inserted row: a whitelisted subject and an accepted score make it valid. */
  lemma NewRowValid(students: Directory, nextId: int, parentId: int, es: seq<Entry>, i: int)
    requires parentId in students
    requires forall j :: 0 <= j < |es| ==> es[j].score.Number?
    requires 0 <= i < |es| && ScoreAccepted(es[i].score) && IsAllowed(Subjects(es)[i])
    ensures var m := NewRows(es, parentId, nextId)[i];
            && RowInvariant(students, nextId + |es|, m)
            && m.id == nextId + i && m.parentId == parentId && m.score == es[i].score.n
            && ToLower(m.subject) == Subjects(es)[i]
  {
    var m := NewRows(es, parentId, nextId)[i];
    var subject := Trim(es[i].subject);
    assert m == Mark(nextId + i, subject, es[i].score.n, parentId);
    assert ToLower(subject) == Normalize(es[i].subject) == Subjects(es)[i];
    AllowedIsNonEmpty(Subjects(es)[i]);
    assert |ToLower(subject)| == |subject|;
    assert WellFormed(m);
  }

  lemma AppendKeepsUniqueIds(kept: seq<Mark>, added: seq<Mark>, nextId: int)
    requires UniqueIds(kept) && forall m :: m in kept ==> m.id < nextId
    requires forall i :: 0 <= i < |added| ==> added[i].id == nextId + i
    ensures UniqueIds(kept + added)
  {
    var all := kept + added;
    forall i, j | 0 <= i < j < |all| ensures all[i].id != all[j].id {
      if j < |kept| {
        assert all[i] == kept[i] && all[j] == kept[j];
      } else if i < |kept| {
        assert all[i] in kept && all[j] == added[j - |kept|];
      } else {
        assert all[i] == added[i - |kept|] && all[j] == added[j - |kept|];
      }
    }
  }

  lemma AppendKeepsOneMarkPerSubject(kept: seq<Mark>, added: seq<Mark>, parentId: int, subjects: seq<string>)
    requires OneMarkPerSubject(kept)
    requires |added| == |subjects| && Distinct(subjects)
    requires forall i :: 0 <= i < |added| ==> added[i].parentId == parentId && ToLower(added[i].subject) == subjects[i]
    requires forall m :: m in kept && m.parentId == parentId ==> ToLower(m.subject) !in subjects
    ensures OneMarkPerSubject(kept + added)
  {
    forall a, b | a in kept && b in added && a.parentId == b.parentId
      ensures ToLower(a.subject) != ToLower(b.subject)
    {
      var j :| 0 <= j < |added| && added[j] == b;
      assert ToLower(b.subject) in subjects;
    }
    forall a, b | a in added && b in added && ToLower(a.subject) == ToLower(b.subject)
      ensures a == b
    {
      var i :| 0 <= i < |added| && added[i] == a;
      var j :| 0 <= j < |added| && added[j] == b;
      assert subjects[i] == subjects[j];
    }
  }

  lemma AppendKeepsRowInvariant(students: Directory, kept: seq<Mark>, added: seq<Mark>, nextId: int, newNext: int)
    requires nextId <= newNext
    requires forall m :: m in kept ==> RowInvariant(students, nextId, m)
    requires forall i :: 0 <= i < |added| ==> RowInvariant(students, newNext, added[i])
    ensures forall m :: m in kept + added ==> RowInvariant(students, newNext, m)
  {
    forall m | m in kept + added ensures RowInvariant(students, newNext, m) {
      if m !in kept {
        var i :| 0 <= i < |added| && added[i] == m;
      }
    }
  }

  /** Appending a validated batch keeps the table invariant, provided none of
      the rows kept for the student already holds one of the batch's subjects. */
  lemma AddBatchKeepsInvariant(students: Directory, kept: seq<Mark>, nextId: int, parentId: int, es: seq<Entry>)
    requires TableInvariant(students, kept, nextId)
    requires parentId in students
    requires Acceptable(es, [])
    requires forall m :: m in kept && m.parentId == parentId ==> ToLower(m.subject) !in Subjects(es)
    ensures TableInvariant(students, kept + NewRows(es, parentId, nextId), nextId + |es|)
  {
    var added := NewRows(es, parentId, nextId);
    var subjects := Subjects(es);
    NewRowsValid(students, nextId, parentId, es);
    assert Distinct(subjects) && |added| == |subjects|;
    assert forall i :: 0 <= i < |added| ==> added[i].id == nextId + i && added[i].parentId == parentId;
    AppendKeepsRowInvariant(students, kept, added, nextId, nextId + |es|);
    AppendKeepsUniqueIds(kept, added, nextId);
    AppendKeepsOneMarkPerSubject(kept, added, parentId, subjects);
  }

  /** A successful create keeps the table invariant: in particular no student
      ends up with two rows for one subject. */
  lemma CreateKeepsInvariant(students: Directory, rows: seq<Mark>, nextId: int, parentId: int, body: Body)
    requires TableInvariant(students, rows, nextId)
    requires ValidateCreate(students, rows, parentId, body).Ok?
    ensures var es := CreateEntries(body);
            TableInvariant(students, rows + NewRows(es, parentId, nextId), nextId + |es|)
  {
    var es := CreateEntries(body);
    var existing := ExistingSubjects(rows, parentId);
    assert Acceptable(es, existing);
    AddBatchKeepsInvariant(students, rows, nextId, parentId, es);
  }

  /** A successful update (with the case-insensitive delete) keeps the table invariant. */
  lemma UpdateKeepsInvariant(students: Directory, rows: seq<Mark>, nextId: int, parentId: int, body: Body)
    requires TableInvariant(students, rows, nextId)
    requires ValidateUpdate(students, parentId, body).Ok?
    ensures var es := UpdateEntries(body).value;
            TableInvariant(students, Kept(rows, parentId, Subjects(es)) + NewRows(es, parentId, nextId), nextId + |es|)
  {
    var es := UpdateEntries(body).value;
    var kept := Kept(rows, parentId, Subjects(es));
    assert TableInvariant(students, kept, nextId) by {
      KeptKeepsUniqueIds(rows, parentId, Subjects(es));
      assert forall a, b :: a in kept && b in kept ==> a in rows && b in rows;
    }
    AddBatchKeepsInvariant(students, kept, nextId, parentId, es);
  }

  /** Replacing the same subjects twice leaves the same rows as replacing them
      once; only the ids of the new rows differ. */
  lemma ReplaceIsIdempotent(rows: seq<Mark>, parentId: int, es: seq<Entry>, firstId: int, secondId: int)
    requires forall i :: 0 <= i < |es| ==> es[i].score.Number?
    ensures var s := Subjects(es);
            Kept(Kept(rows, parentId, s) + NewRows(es, parentId, firstId), parentId, s) + NewRows(es, parentId, secondId)
            == Kept(rows, parentId, s) + NewRows(es, parentId, secondId)
  {
    var s := Subjects(es);
    var once := Kept(rows, parentId, s);
    var added := NewRows(es, parentId, firstId);
    assert Kept(once + added, parentId, s) == Kept(once, parentId, s) + Kept(added, parentId, s) by {
      KeptAppend(once, added, parentId, s);
    }
    assert Kept(once, parentId, s) == once by {
      KeptUnchanged(once, parentId, s);
    }
    assert Kept(added, parentId, s) == [] by {
      NewRowsAllReplaced(es, parentId, firstId);
    }
    assert Kept(once + added, parentId, s) == once;
  }

  /** An update's own new rows are exactly the ones a repeat of it deletes. */
  lemma NewRowsAllReplaced(es: seq<Entry>, parentId: int, firstId: int)
    requires forall i :: 0 <= i < |es| ==> es[i].score.Number?
    ensures Kept(NewRows(es, parentId, firstId), parentId, Subjects(es)) == []
  {
    var s := Subjects(es);
    var added := NewRows(es, parentId, firstId);
    forall m | m in added ensures m.parentId == parentId && ToLower(m.subject) in s {
      var i :| 0 <= i < |added| && added[i] == m;
      assert ToLower(m.subject) == s[i];
    }
    KeptNone(added, parentId, s);
  }

  lemma {:induction false} KeptUnchanged(rows: seq<Mark>, parentId: int, subjects: seq<string>)
    requires forall m :: m in rows ==> !(m.parentId == parentId && ToLower(m.subject) in subjects)
    ensures Kept(rows, parentId, subjects) == rows
  {
    if rows != [] {
      KeptUnchanged(rows[1..], parentId, subjects);
    }
  }

  lemma {:induction false} KeptNone(rows: seq<Mark>, parentId: int, subjects: seq<string>)
    requires forall m :: m in rows ==> m.parentId == parentId && ToLower(m.subject) in subjects
    ensures Kept(rows, parentId, subjects) == []
  {
    if rows != [] {
      KeptNone(rows[1..], parentId, subjects);
    }
  }

  const SampleStudents: Directory := map[7 := "Asha"]
  const SampleRows: seq<Mark> := [Mark(1, "maths", 50, 7)]
  const SampleEntries: seq<Entry> := [Entry("Maths", Number(90))]
  const SampleAfter: seq<Mark> := [Mark(1, "maths", 50, 7), Mark(2, "Maths", 90, 7)]

  /** The delete step as written breaks the one-mark-per-subject rule: a row
      stored as "maths" (which the create handler accepts) is not removed by an
      update for "Maths", so the student ends up with two Maths rows. */
  lemma UpdateAsWrittenDuplicatesSubject()
    ensures TableInvariant(SampleStudents, SampleRows, 2)
    ensures ValidateUpdate(SampleStudents, 7, Wrapped(Many(SampleEntries))) == Ok(SampleEntries)
    ensures KeptAsWritten(SampleRows, 7, Trimmed(SampleEntries)) + NewRows(SampleEntries, 7, 2) == SampleAfter
    ensures !OneMarkPerSubject(SampleAfter)
  {
    SampleTableIsValid();
    SampleUpdateIsAccepted();
    SampleUpdateKeepsOldRow();
    SampleAfterHasTwoMaths();
  }

  lemma LowerMaths()
    ensures ToLower("Maths") == "maths" && ToLower("maths") == "maths"
  {
    var a, b := ToLower("Maths"), ToLower("maths");
    assert |a| == 5 && |b| == 5;
    assert a[0] == 'm' && a[1] == 'a' && a[2] == 't' && a[3] == 'h' && a[4] == 's';
    assert b[0] == 'm' && b[1] == 'a' && b[2] == 't' && b[3] == 'h' && b[4] == 's';
  }

  lemma TrimMaths()
    ensures Trim("Maths") == "Maths"
  {
    assert TrimStart("Maths") == "Maths";
    assert TrimEnd("Maths") == "Maths";
  }

  lemma MathsIsAllowed()
    ensures IsAllowed("maths")
  {
    AllowedSubjectsSpelledOut();
  }

  lemma SampleTableIsValid()
    ensures TableInvariant(SampleStudents, SampleRows, 2)
  {
    var m := SampleRows[0];
    LowerMaths();
    MathsIsAllowed();
    assert RowInvariant(SampleStudents, 2, m);
    assert forall a :: a in SampleRows ==> a == m;
  }

  lemma SampleUpdateIsAccepted()
    ensures ValidateUpdate(SampleStudents, 7, Wrapped(Many(SampleEntries))) == Ok(SampleEntries)
  {
    var es := SampleEntries;
    LowerMaths();
    TrimMaths();
    MathsIsAllowed();
    assert Subjects(es) == ["maths"];
    SetSizeDetectsRepeats(Subjects(es));
    assert Acceptable(es, []);
  }

  lemma SampleUpdateKeepsOldRow()
    ensures KeptAsWritten(SampleRows, 7, Trimmed(SampleEntries)) + NewRows(SampleEntries, 7, 2) == SampleAfter
  {
    SampleTrimmed();
    SampleStoredRowSurvives();
    SampleNewRow();
  }

  lemma SampleTrimmed()
    ensures Trimmed(SampleEntries) == ["Maths"]
  {
    var t := Trimmed(SampleEntries);
    var subject := SampleEntries[0].subject;
    assert subject == "Maths";
    TrimMaths();
    assert |t| == 1 && t[0] == Trim(subject);
  }

  lemma SampleStoredRowSurvives()
    ensures KeptAsWritten(SampleRows, 7, ["Maths"]) == SampleRows
  {
    assert "maths" != "Maths" by {
      assert "maths"[0] != "Maths"[0];
    }
    assert SampleRows[1..] == [];
  }

  lemma SampleNewRow()
    ensures NewRows(SampleEntries, 7, 2) == [Mark(2, "Maths", 90, 7)]
  {
    var added := NewRows(SampleEntries, 7, 2);
    var subject := SampleEntries[0].subject;
    assert subject == "Maths";
    TrimMaths();
    assert |added| == 1 && added[0] == Mark(2, Trim(subject), 90, 7);
  }

  lemma SampleAfterHasTwoMaths()
    ensures !OneMarkPerSubject(SampleAfter)
  {
    LowerMaths();
    var a, b := SampleAfter[0], SampleAfter[1];
    assert a in SampleAfter && b in SampleAfter && a != b;
    assert ToLower(a.subject) == ToLower(b.subject);
  }

  /** Every student has at most five rows: one per whitelisted subject. */
  lemma AtMostFiveMarksPerStudent(students: Directory, rows: seq<Mark>, nextId: int, parentId: int)
    requires TableInvariant(students, rows, nextId)
    ensures |RowsOf(rows, parentId)| <= 5
  {
    var own := RowsOf(rows, parentId);
    RowsOfKeepsUniqueIds(rows, parentId);
    var lowered := LoweredSubjects(own);
    LoweredSubjectsDistinct(own, parentId);
    assert Elements(lowered) <= Elements(AllowedSubjects()) by {
      forall s | s in Elements(lowered) ensures s in Elements(AllowedSubjects()) {
        var i :| 0 <= i < |lowered| && lowered[i] == s;
        assert own[i] in rows;
      }
    }
    DistinctWithinBound(lowered, AllowedSubjects());
  }

  function LoweredSubjects(own: seq<Mark>): seq<string> {
    seq(|own|, i requires 0 <= i < |own| => ToLower(own[i].subject))
  }

  /** One student's rows with distinct ids name distinct subjects. */
  lemma LoweredSubjectsDistinct(own: seq<Mark>, parentId: int)
    requires UniqueIds(own) && OneMarkPerSubject(own)
    requires forall m :: m in own ==> m.parentId == parentId
    ensures Distinct(LoweredSubjects(own))
  {
    var lowered := LoweredSubjects(own);
    forall i, j | 0 <= i < j < |lowered| ensures lowered[i] != lowered[j] {
      assert own[i] in own && own[j] in own;
      assert own[i].id != own[j].id;
    }
  }

  /** A repeat-free sequence drawn from `ys` is no longer than `ys`. */
  lemma DistinctWithinBound(xs: seq<string>, ys: seq<string>)
    requires Distinct(xs) && Elements(xs) <= Elements(ys)
    ensures |xs| <= |ys|
  {
    SetSizeDetectsRepeats(xs);
    SetSizeDetectsRepeats(ys);
    var big := Elements(ys);
    assert big == Elements(xs) + (big - Elements(xs));
  }

  /** A student's data as the create, update and view handlers return it:
      the id and name, then the rows. */
  datatype Saved = Saved(parentId: int, name: string, marks: seq<Mark>)

  datatype SubjectScore = SubjectScore(subject: string, score: int)

  /** One entry of the listing: a student and all of their marks. */
  datatype Group = Group(parentId: int, name: string, marks: seq<SubjectScore>)

  datatype Listing = Listing(groups: seq<Group>, total: nat, page: int, limit: int, totalPages: nat)

  function Scores(rows: seq<Mark>): seq<SubjectScore> {
    seq(|rows|, i requires 0 <= i < |rows| => SubjectScore(rows[i].subject, rows[i].score))
  }

  lemma ScoresAppendOne(rows: seq<Mark>, m: Mark)
    ensures Scores(rows + [m]) == Scores(rows) + [SubjectScore(m.subject, m.score)]
  {
    var all := rows + [m];
    assert forall i :: 0 <= i < |rows| ==> all[i] == rows[i];
  }

  /** One more fetched row extends its own student's group by one score and
      leaves every other student's group alone. */
  lemma GroupGrows(prefix: seq<Mark>, m: Mark, parentId: int)
    ensures Scores(RowsOf(prefix + [m], parentId))
            == if m.parentId == parentId then Scores(RowsOf(prefix, parentId)) + [SubjectScore(m.subject, m.score)]
               else Scores(RowsOf(prefix, parentId))
    ensures RowsOf(prefix + [m], parentId) != [] <==> RowsOf(prefix, parentId) != [] || m.parentId == parentId
  {
    RowsOfAppend(prefix, [m], parentId);
    assert RowsOf([m], parentId) == if m.parentId == parentId then [m] else [];
    if m.parentId == parentId {
      ScoresAppendOne(RowsOf(prefix, parentId), m);
    } else {
      assert RowsOf(prefix, parentId) + [] == RowsOf(prefix, parentId);
    }
  }

  /** `grouped` holds one group per student among `rows`, with the student's
      name and scores in row order. */
  ghost predicate GroupedAs(students: Directory, grouped: map<int, Group>, rows: seq<Mark>) {
    && (forall pid :: pid in grouped <==> RowsOf(rows, pid) != [])
    && (forall pid :: pid in grouped ==>
          grouped[pid] == Group(pid, DisplayName(students, pid), Scores(RowsOf(rows, pid))))
  }

  /** The group a row is appended to: the student's existing one, or a fresh
      empty one named after the student. */
  function GroupFor(students: Directory, grouped: map<int, Group>, parentId: int): Group {
    if parentId in grouped then grouped[parentId] else Group(parentId, DisplayName(students, parentId), [])
  }

  lemma GroupStep(students: Directory, before: map<int, Group>, prefix: seq<Mark>, m: Mark)
    requires GroupedAs(students, before, prefix)
    ensures var g := GroupFor(students, before, m.parentId);
            GroupedAs(students, before[m.parentId := g.(marks := g.marks + [SubjectScore(m.subject, m.score)])], prefix + [m])
  {
    var g := GroupFor(students, before, m.parentId);
    var after := before[m.parentId := g.(marks := g.marks + [SubjectScore(m.subject, m.score)])];
    forall pid ensures (pid in after <==> RowsOf(prefix + [m], pid) != [])
      && (pid in after ==> after[pid] == Group(pid, DisplayName(students, pid), Scores(RowsOf(prefix + [m], pid))))
    {
      GroupGrows(prefix, m, pid);
    }
  }

  /** Grouping the rows fetched for a window of student ids gives each student
      of the window all of their marks. */
  lemma WindowGroupsComplete(students: Directory, rows: seq<Mark>, w: seq<int>, grouped: map<int, Group>)
    requires forall x :: x in w ==> x in StudentIds(rows)
    requires GroupedAs(students, grouped, RowsIn(rows, w))
    ensures forall k :: 0 <= k < |w| ==>
              w[k] in grouped && grouped[w[k]] == Group(w[k], DisplayName(students, w[k]), Scores(RowsOf(rows, w[k])))
  {
    forall k | 0 <= k < |w|
      ensures w[k] in grouped && grouped[w[k]] == Group(w[k], DisplayName(students, w[k]), Scores(RowsOf(rows, w[k])))
    {
      var pid := w[k];
      assert pid in w;
      assert pid in ParentIds(rows);
      var m :| m in rows && m.parentId == pid;
      RowsOfRowsIn(rows, w, pid);
      assert m in RowsOf(rows, pid);
    }
  }

  /** The marks table next to the student directory it references. */
  class Store {
    const students: Directory
    var rows: seq<Mark>
    var nextId: int

    ghost predicate Valid()
      reads this
    {
      TableInvariant(students, rows, nextId)
    }

    constructor (students: Directory)
      ensures Valid()
      ensures this.students == students && rows == [] && nextId == 1
    {
      this.students := students;
      rows := [];
      nextId := 1;
    }

    /** `createMarks`: validate, then insert one row per entry; on any failure
        the table is left as it was. */
    method Create(parentId: int, body: Body) returns (r: Result<Saved, Failure>)
      requires Valid()
      modifies this
      ensures Valid()
      ensures match ValidateCreate(students, old(rows), parentId, body)
        case Err(e) => r == Err(e) && rows == old(rows) && nextId == old(nextId)
        case Ok(es) =>
          var added := NewRows(es, parentId, old(nextId));
          && rows == old(rows) + added
          && nextId == old(nextId) + |es|
          && r == Ok(Saved(parentId, students[parentId], added))
    {
      if parentId !in students {
        return Err(StudentNotFound);
      }
      var es := CreateEntries(body);
      var checked := RunChecks(es, ExistingSubjects(rows, parentId));
      if checked.Err? {
        return Err(checked.error);
      }
      CreateKeepsInvariant(students, rows, nextId, parentId, body);
      var added := NewRows(es, parentId, nextId);
      rows := rows + added;
      nextId := nextId + |es|;
      r := Ok(Saved(parentId, students[parentId], added));
    }

    /** `getMarksByParentId`: every row of the student, or 404 when there is
        none; the student lookup only supplies the name. */
    method View(parentId: int) returns (r: Result<Saved, Failure>)
      ensures r.Err? <==> RowsOf(rows, parentId) == []
      ensures r.Err? ==> r.error == NoMarksFound
      ensures r.Ok? ==> r.value == Saved(parentId, DisplayName(students, parentId), RowsOf(rows, parentId))
    {
      var own := RowsOf(rows, parentId);
      if |own| == 0 {
        return Err(NoMarksFound);
      }
      r := Ok(Saved(parentId, DisplayName(students, parentId), own));
    }

    /** `updateMarks`: validate, delete the student's rows for the requested
        subjects, insert the new rows; rows of other students and of other
        subjects stay. */
    method Update(parentId: int, body: Body) returns (r: Result<Saved, Failure>)
      requires Valid()
      modifies this
      ensures Valid()
      ensures match ValidateUpdate(students, parentId, body)
        case Err(e) => r == Err(e) && rows == old(rows) && nextId == old(nextId)
        case Ok(es) =>
          var added := NewRows(es, parentId, old(nextId));
          && rows == Kept(old(rows), parentId, Subjects(es)) + added
          && nextId == old(nextId) + |es|
          && r == Ok(Saved(parentId, students[parentId], added))
    {
      if parentId !in students {
        return Err(StudentNotFound);
      }
      if !(body.Wrapped? && body.marks.Many?) {
        return Err(WrongCount);
      }
      var es := body.marks.entries;
      var checked := RunChecks(es, []);
      if checked.Err? {
        return Err(checked.error);
      }
      UpdateKeepsInvariant(students, rows, nextId, parentId, body);
      rows := Kept(rows, parentId, Subjects(es));
      var added := NewRows(es, parentId, nextId);
      rows := rows + added;
      nextId := nextId + |es|;
      r := Ok(Saved(parentId, students[parentId], added));
    }

    /** `deleteMarks`: remove every row of the student and report how many;
        404 when the student is unknown or had no rows. */
    method Delete(parentId: int) returns (r: Result<nat, Failure>)
      requires Valid()
      modifies this
      ensures Valid() && nextId == old(nextId)
      ensures parentId !in students ==> r == Err(StudentNotFound) && rows == old(rows)
      ensures parentId in students ==> rows == RowsNotOf(old(rows), parentId)
      ensures parentId in students && RowsOf(old(rows), parentId) == [] ==> r == Err(NoMarksFound) && rows == old(rows)
      ensures parentId in students && RowsOf(old(rows), parentId) != [] ==> r == Ok(|RowsOf(old(rows), parentId)|)
      ensures r.Ok? ==> r.value == |RowsOf(old(rows), parentId)| > 0
      ensures r.Err? ==> r.error in {StudentNotFound, NoMarksFound}
    {
      if parentId !in students {
        return Err(StudentNotFound);
      }
      var before := rows;
      rows := RowsNotOf(rows, parentId);
      RowsNotOfKeepsUniqueIds(before, parentId);
      SplitByStudent(before, parentId);
      var deleted := |before| - |rows|;
      if deleted == 0 {
        RowsNotOfNothingToDelete(before, parentId);
        return Err(NoMarksFound);
      }
      r := Ok(deleted);
    }

    /** The grouping pass of the listing: one group per student among the
        fetched rows, holding that student's name and scores in row order. */
    method GroupByStudent(fetched: seq<Mark>) returns (grouped: map<int, Group>)
      ensures GroupedAs(students, grouped, fetched)
    {
      grouped := map[];
      var i := 0;
      while i < |fetched|
        invariant 0 <= i <= |fetched|
        invariant GroupedAs(students, grouped, fetched[..i])
      {
        var m := fetched[i];
        assert fetched[..i + 1] == fetched[..i] + [m];
        GroupStep(students, grouped, fetched[..i], m);
        var g := GroupFor(students, grouped, m.parentId);
        grouped := grouped[m.parentId := g.(marks := g.marks + [SubjectScore(m.subject, m.score)])];
        i := i + 1;
      }
      assert fetched[..i] == fetched;
    }

    /** `getAllStudentsWithMarks`: the page of ascending student ids, and for
        each of them, in that order, the student's name and all of their marks. */
    method ListPage(page: Option<int>, limit: Option<int>) returns (r: Result<Listing, Failure>)
      ensures var p, l := page.GetOr(1), limit.GetOr(5);
        if l == 0 then r == Err(NoMarksFound)
        else if p < 1 || l < 0 then r == Err(PagingFailed)
        else
          var ids := StudentIds(rows);
          var w := PageWindow(ids, p, l);
          && (r.Err? <==> w == [])
          && (r.Err? ==> r.error == NoMarksFound)
          && (r.Ok? ==>
                && r.value.total == |ids| && r.value.page == p && r.value.limit == l
                && r.value.totalPages == TotalPages(|ids|, l)
                && |r.value.groups| == |w|
                && forall k :: 0 <= k < |w| ==>
                     r.value.groups[k] == Group(w[k], DisplayName(students, w[k]), Scores(RowsOf(rows, w[k]))))
    {
      var p, l := page.GetOr(1), limit.GetOr(5);
      if l == 0 {
        // `LIMIT 0` at offset `(p - 1) * 0 == 0` finds no id.
        return Err(NoMarksFound);
      }
      if p < 1 || l < 0 {
        return Err(PagingFailed);
      }
      var ids := StudentIds(rows);
      var total := |ids|;
      var w := PageWindow(ids, p, l);
      if |w| == 0 {
        return Err(NoMarksFound);
      }
      var fetched := RowsIn(rows, w);
      var grouped := GroupByStudent(fetched);
      WindowGroupsComplete(students, rows, w, grouped);
      var groups := seq(|w|, k requires 0 <= k < |w| => grouped[w[k]]);
      r := Ok(Listing(groups, total, p, l, TotalPages(total, l)));
    }
  }
}
