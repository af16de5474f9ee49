/** The `Mark` record of the marks table and its association with students. */
module MarkModel {

  /** One row of the `marks` table. */
  datatype Mark = Mark(id: int, subject: string, score: int, parentId: int)

  /** The student directory the mark handlers consult: `parentId` to display name.
      The mark handlers only read it. */
  type Directory = map<int, string>

  /** The column constraints of the schema: a non-empty subject and an integer
      score between 0 and 100. */
  predicate WellFormed(m: Mark) {
    m.subject != [] && 0 <= m.score <= 100
  }

  /** The auto-incremented primary key: no two rows share an id. */
  predicate UniqueIds(rows: seq<Mark>) {
    forall i, j :: 0 <= i < j < |rows| ==> rows[i].id != rows[j].id
  }

  /** `Student.hasMany(Mark)`: the marks of one student, in table order. */
  function RowsOf(rows: seq<Mark>, parentId: int): (r: seq<Mark>)
    ensures forall m :: m in r <==> m in rows && m.parentId == parentId
    ensures (forall m :: m in rows ==> m.parentId != parentId) ==> r == []
  {
    if rows == [] then []
    else
      var rest := RowsOf(rows[1..], parentId);
      assert forall m :: m in rows ==> m == rows[0] || m in rows[1..];
      if rows[0].parentId == parentId then [rows[0]] + rest else rest
  }

  /** The rows that do not belong to the given student, in table order. */
  function RowsNotOf(rows: seq<Mark>, parentId: int): (r: seq<Mark>)
    ensures forall m :: m in r <==> m in rows && m.parentId != parentId
  {
    if rows == [] then []
    else
      var rest := RowsNotOf(rows[1..], parentId);
      assert forall m :: m in rows ==> m == rows[0] || m in rows[1..];
      if rows[0].parentId != parentId then [rows[0]] + rest else rest
  }

  /** Dropping rows from behind the first keeps the ids unique. */
  lemma ConsKeepsUniqueIds(rows: seq<Mark>, rest: seq<Mark>)
    requires rows != [] && UniqueIds(rows) && UniqueIds(rest)
    requires forall m :: m in rest ==> m in rows[1..]
    ensures UniqueIds([rows[0]] + rest)
  {
    var r := [rows[0]] + rest;
    forall i, j | 0 <= i < j < |r| ensures r[i].id != r[j].id {
      if i > 0 {
        assert r[i] == rest[i - 1] && r[j] == rest[j - 1];
      } else {
        assert r[j] == rest[j - 1] && rest[j - 1] in rest;
        var k :| 0 <= k < |rows| - 1 && rows[1..][k] == r[j];
        assert rows[k + 1] == r[j];
      }
    }
  }

  lemma TailKeepsUniqueIds(rows: seq<Mark>)
    requires rows != [] && UniqueIds(rows)
    ensures UniqueIds(rows[1..])
  {
    var t := rows[1..];
    forall i, j | 0 <= i < j < |t| ensures t[i].id != t[j].id {
      assert t[i] == rows[i + 1] && t[j] == rows[j + 1];
    }
  }

  lemma {:induction false} RowsOfKeepsUniqueIds(rows: seq<Mark>, parentId: int)
    requires UniqueIds(rows)
    ensures UniqueIds(RowsOf(rows, parentId))
  {
    if rows != [] {
      TailKeepsUniqueIds(rows);
      RowsOfKeepsUniqueIds(rows[1..], parentId);
      if rows[0].parentId == parentId {
        ConsKeepsUniqueIds(rows, RowsOf(rows[1..], parentId));
      }
    }
  }

  lemma {:induction false} RowsNotOfKeepsUniqueIds(rows: seq<Mark>, parentId: int)
    requires UniqueIds(rows)
    ensures UniqueIds(RowsNotOf(rows, parentId))
  {
    if rows != [] {
      TailKeepsUniqueIds(rows);
      RowsNotOfKeepsUniqueIds(rows[1..], parentId);
      if rows[0].parentId != parentId {
        ConsKeepsUniqueIds(rows, RowsNotOf(rows[1..], parentId));
      }
    }
  }

  /** Every row belongs either to the student or to someone else, so deleting a
      student's rows removes exactly `|RowsOf(rows, parentId)|` of them. */
  lemma {:induction false} SplitByStudent(rows: seq<Mark>, parentId: int)
    ensures |RowsOf(rows, parentId)| + |RowsNotOf(rows, parentId)| == |rows|
  {
    if rows != [] {
      SplitByStudent(rows[1..], parentId);
    }
  }

  lemma {:induction false} RowsOfAppend(a: seq<Mark>, b: seq<Mark>, parentId: int)
    ensures RowsOf(a + b, parentId) == RowsOf(a, parentId) + RowsOf(b, parentId)
  {
    if a == [] {
      assert a + b == b;
    } else {
      calc {
        RowsOf(a + b, parentId);
        { assert (a + b)[0] == a[0] && (a + b)[1..] == a[1..] + b; }
        (if a[0].parentId == parentId then [a[0]] else []) + RowsOf(a[1..] + b, parentId);
        { RowsOfAppend(a[1..], b, parentId); }
        (if a[0].parentId == parentId then [a[0]] else []) + (RowsOf(a[1..], parentId) + RowsOf(b, parentId));
      }
    }
  }

  /** A student with no rows loses nothing when their rows are deleted. */
  lemma {:induction false} RowsNotOfNothingToDelete(rows: seq<Mark>, parentId: int)
    requires RowsOf(rows, parentId) == []
    ensures RowsNotOf(rows, parentId) == rows
  {
    if rows != [] {
      assert rows[0] !in RowsOf(rows, parentId);
      RowsNotOfNothingToDelete(rows[1..], parentId);
    }
  }

  /** The name shown next to a student's marks: `student?.name || 'N/A'`, so a
      missing student and an empty name both read 'N/A'. */
  function DisplayName(students: Directory, parentId: int): (name: string)
    ensures name != []
    ensures parentId in students && students[parentId] != [] ==> name == students[parentId]
    ensures !(parentId in students && students[parentId] != []) ==> name == "N/A"
  {
    if parentId in students && students[parentId] != [] then students[parentId] else "N/A"
  }
}
