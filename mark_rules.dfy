/** The request validation of the create and update mark handlers: the fixed
    subject whitelist and the ordered chain of checks a batch of marks passes
    before anything is written. */
module MarkRules {
  import opened Common
  import opened Text
  import opened MarkModel

  /** `FIXED_SUBJECTS`. */
  const FixedSubjects: seq<string> := ["Maths", "Physics", "Chemistry", "English", "Biology"]

  /** The whitelist as the handlers compare against it: every fixed subject lower-cased. */
  function AllowedSubjects(): seq<string> {
    seq(|FixedSubjects|, i requires 0 <= i < |FixedSubjects| => ToLower(FixedSubjects[i]))
  }

  predicate IsAllowed(subject: string) {
    subject in AllowedSubjects()
  }

  lemma AllowedSubjectsSpelledOut()
    ensures AllowedSubjects() == ["maths", "physics", "chemistry", "english", "biology"]
  {
    assert ToLower("Maths") == "maths";
    assert ToLower("Physics") == "physics";
    assert ToLower("Chemistry") == "chemistry";
    assert ToLower("English") == "english";
    assert ToLower("Biology") == "biology";
  }

  /** Whitelisted subjects are non-empty, so a row stored for one is too. */
  lemma AllowedIsNonEmpty(subject: string)
    requires IsAllowed(subject)
    ensures subject != []
  {
    AllowedSubjectsSpelledOut();
  }

  /** A JSON score: the handlers only accept a value of JavaScript type number. */
  datatype ScoreValue = Number(n: int) | NotNumber

  /** One requested mark, `{ subject, score }`. */
  datatype Entry = Entry(subject: string, score: ScoreValue)

  /** What the handler finds where it looks for marks: an array or a single object. */
  datatype Payload = Many(entries: seq<Entry>) | One(entry: Entry)

  /** A request body: `{ marks: ... }`, or the marks themselves with no `marks` key. */
  datatype Body = Wrapped(marks: Payload) | Bare(payload: Payload)

  /** The error responses of the mark handlers. */
  datatype Failure =
    | StudentNotFound
    | WrongCount
    | InvalidSubjects(subjects: seq<string>)
    | DuplicateInRequest
    | AlreadyExists(subjects: seq<string>)
    | ScoreOutOfRange(subject: string)
    | NoMarksFound
    | PagingFailed

  /** The HTTP status each failure is answered with. */
  function Status(f: Failure): (code: int)
    ensures code == 404 <==> f == StudentNotFound || f == NoMarksFound
    ensures code == 500 <==> f == PagingFailed
    ensures code in {400, 404, 500}
  {
    match f
    case StudentNotFound => 404
    case NoMarksFound => 404
    case PagingFailed => 500
    case _ => 400
  }

  /** How the create handler reads its body: `marks` if present, else the whole
      body, and a lone object becomes a one-element list. */
  function CreateEntries(body: Body): seq<Entry> {
    var p := match body case Wrapped(marks) => marks case Bare(payload) => payload;
    match p
    case Many(entries) => entries
    case One(entry) => [entry]
  }

  /** How the update handler reads its body: only an array under `marks` is accepted. */
  function UpdateEntries(body: Body): Option<seq<Entry>> {
    if body.Wrapped? && body.marks.Many? then Some(body.marks.entries) else None
  }

  /** The requested subjects, trimmed and lower-cased. */
  function Subjects(es: seq<Entry>): seq<string> {
    seq(|es|, i requires 0 <= i < |es| => Normalize(es[i].subject))
  }

  /** The subjects outside the whitelist, in request order. */
  function InvalidOf(subjects: seq<string>): (r: seq<string>)
    ensures forall s :: s in r <==> s in subjects && !IsAllowed(s)
    ensures r == [] <==> forall s :: s in subjects ==> IsAllowed(s)
  {
    if subjects == [] then []
    else (if IsAllowed(subjects[0]) then [] else [subjects[0]]) + InvalidOf(subjects[1..])
  }

  /** The subjects that also occur in `existing`, in request order. */
  function CommonOf(subjects: seq<string>, existing: seq<string>): (r: seq<string>)
    ensures forall s :: s in r <==> s in subjects && s in existing
    ensures r == [] <==> forall s :: s in subjects ==> s !in existing
  {
    if subjects == [] then []
    else (if subjects[0] in existing then [subjects[0]] else []) + CommonOf(subjects[1..], existing)
  }

  /** The lower-cased subjects already stored for a student. */
  function ExistingSubjects(rows: seq<Mark>, parentId: int): (r: seq<string>)
    ensures forall m :: m in rows && m.parentId == parentId ==> ToLower(m.subject) in r
    ensures forall s :: s in r ==> exists m :: m in rows && m.parentId == parentId && s == ToLower(m.subject)
  {
    var own := RowsOf(rows, parentId);
    var r := seq(|own|, i requires 0 <= i < |own| => ToLower(own[i].subject));
    assert forall m :: m in own ==> ToLower(m.subject) in r by {
      forall m | m in own ensures ToLower(m.subject) in r {
        var i :| 0 <= i < |own| && own[i] == m;
        assert r[i] == ToLower(m.subject);
      }
    }
    r
  }

  /** `typeof score === 'number' && 0 <= score <= 100`. */
  predicate ScoreAccepted(v: ScoreValue) {
    v.Number? && 0 <= v.n <= 100
  }

  /** The subject of the first entry whose score is refused, if any. */
  function FirstRejectedScore(es: seq<Entry>): (r: Option<string>)
    ensures r.None? <==> forall i :: 0 <= i < |es| ==> ScoreAccepted(es[i].score)
    ensures r.Some? ==> exists k :: 0 <= k < |es| && r.value == es[k].subject
                                    && !ScoreAccepted(es[k].score)
                                    && forall j :: 0 <= j < k ==> ScoreAccepted(es[j].score)
  {
    if es == [] then None
    else if !ScoreAccepted(es[0].score) then Some(es[0].subject)
    else
      var r := FirstRejectedScore(es[1..]);
      assert r.Some? ==> exists k :: 1 <= k < |es| && r.value == es[k].subject
                                     && !ScoreAccepted(es[k].score)
                                     && forall j :: 0 <= j < k ==> ScoreAccepted(es[j].score) by {
        if r.Some? {
          var k :| 0 <= k < |es| - 1 && r.value == es[1..][k].subject
                   && !ScoreAccepted(es[1..][k].score)
                   && forall j :: 0 <= j < k ==> ScoreAccepted(es[1..][j].score);
          assert forall j :: 1 <= j < k + 1 ==> es[j] == es[1..][j - 1];
        }
      }
      r
  }

  /** The `for` loop over the entries that answers with the first refused score. */
  method FindRejectedScore(es: seq<Entry>) returns (bad: Option<string>)
    ensures bad == FirstRejectedScore(es)
  {
    var i := 0;
    while i < |es|
      invariant 0 <= i <= |es|
      invariant forall j :: 0 <= j < i ==> ScoreAccepted(es[j].score)
    {
      if !ScoreAccepted(es[i].score) {
        return Some(es[i].subject);
      }
      i := i + 1;
    }
    return None;
  }

  /** Everything a batch of entries must satisfy to be written, given the
      lower-cased subjects the student already has. */
  predicate Acceptable(es: seq<Entry>, existing: seq<string>) {
    && 1 <= |es| <= 5
    && (forall s :: s in Subjects(es) ==> IsAllowed(s))
    && Distinct(Subjects(es))
    && (forall s :: s in Subjects(es) ==> s !in existing)
    && (forall i :: 0 <= i < |es| ==> ScoreAccepted(es[i].score))
  }

  /** The checks shared by both handlers, in their order: count, whitelist,
      repeats within the request, subjects already stored (`existing`; the update
      handler passes none), scores. */
  function CheckEntries(es: seq<Entry>, existing: seq<string>): (r: Result<seq<Entry>, Failure>)
    ensures r == Err(WrongCount) <==> !(1 <= |es| <= 5)
    ensures r.Ok? ==> r.value == es
  {
    if |es| == 0 || |es| > 5 then Err(WrongCount)
    else
      var subjects := Subjects(es);
      var invalid := InvalidOf(subjects);
      if |invalid| > 0 then Err(InvalidSubjects(invalid))
      else if |Elements(subjects)| != |subjects| then Err(DuplicateInRequest)
      else
        var clash := CommonOf(subjects, existing);
        if |clash| > 0 then Err(AlreadyExists(clash))
        else
          match FirstRejectedScore(es)
          case Some(subject) => Err(ScoreOutOfRange(subject))
          case None => Ok(es)
  }

  /** The checks let through exactly the acceptable batches. */
  lemma CheckEntriesAcceptsExactly(es: seq<Entry>, existing: seq<string>)
    ensures CheckEntries(es, existing).Ok? <==> Acceptable(es, existing)
  {
    SetSizeDetectsRepeats(Subjects(es));
  }

  /** Each error names what the source's message names, and is only reached once
      every earlier check has passed: a subject outside the whitelist is
      reported before a repeated one, a repeat before a clash with a stored
      subject, and a score only when all subject checks pass. */
  lemma CheckEntriesFailures(es: seq<Entry>, existing: seq<string>)
    ensures var r := CheckEntries(es, existing);
      && (r.Err? && r.error.InvalidSubjects? ==>
            && 1 <= |es| <= 5 && r.error.subjects != []
            && forall s :: s in r.error.subjects <==> s in Subjects(es) && !IsAllowed(s))
      && (r == Err(DuplicateInRequest) ==>
            && 1 <= |es| <= 5 && (forall s :: s in Subjects(es) ==> IsAllowed(s))
            && !Distinct(Subjects(es)))
      && (r.Err? && r.error.AlreadyExists? ==>
            && 1 <= |es| <= 5 && (forall s :: s in Subjects(es) ==> IsAllowed(s))
            && Distinct(Subjects(es)) && r.error.subjects != []
            && forall s :: s in r.error.subjects <==> s in Subjects(es) && s in existing)
      && (r.Err? && r.error.ScoreOutOfRange? ==>
            && 1 <= |es| <= 5 && (forall s :: s in Subjects(es) ==> IsAllowed(s))
            && Distinct(Subjects(es)) && (forall s :: s in Subjects(es) ==> s !in existing)
            && exists k :: 0 <= k < |es| && r.error.subject == es[k].subject
                           && !ScoreAccepted(es[k].score)
                           && forall j :: 0 <= j < k ==> ScoreAccepted(es[j].score))
      && (r.Err? ==> r.error in {WrongCount, DuplicateInRequest}
                     || r.error.InvalidSubjects? || r.error.AlreadyExists? || r.error.ScoreOutOfRange?)
  {
    var subjects := Subjects(es);
    SetSizeDetectsRepeats(subjects);
    if 1 <= |es| <= 5 {
      var invalid := InvalidOf(subjects);
      if |invalid| > 0 {
        assert CheckEntries(es, existing) == Err(InvalidSubjects(invalid));
      } else if |Elements(subjects)| != |subjects| {
        assert CheckEntries(es, existing) == Err(DuplicateInRequest);
      } else {
        var clash := CommonOf(subjects, existing);
        if |clash| > 0 {
          assert CheckEntries(es, existing) == Err(AlreadyExists(clash));
        } else if FirstRejectedScore(es).Some? {
          assert CheckEntries(es, existing) == Err(ScoreOutOfRange(FirstRejectedScore(es).value));
        }
      }
    }
  }

  /** The shared checks as the handlers run them: the early-return form of
      `CheckEntries`, one return per check, with the score loop last. */
  method RunChecks(es: seq<Entry>, existing: seq<string>) returns (r: Result<seq<Entry>, Failure>)
    ensures r == CheckEntries(es, existing)
  {
    if |es| == 0 || |es| > 5 {
      return Err(WrongCount);
    }
    var subjects := Subjects(es);
    var invalid := InvalidOf(subjects);
    if |invalid| > 0 {
      return Err(InvalidSubjects(invalid));
    }
    if |Elements(subjects)| != |subjects| {
      return Err(DuplicateInRequest);
    }
    var clash := CommonOf(subjects, existing);
    if |clash| > 0 {
      return Err(AlreadyExists(clash));
    }
    var bad := FindRejectedScore(es);
    if bad.Some? {
      return Err(ScoreOutOfRange(bad.value));
    }
    return Ok(es);
  }

  /** `createMarks` up to the insert: the student must exist (checked before
      anything about the marks), then every check, including that no requested
      subject is already stored for the student. */
  function ValidateCreate(students: Directory, rows: seq<Mark>, parentId: int, body: Body)
    : (r: Result<seq<Entry>, Failure>)
    ensures parentId !in students ==> r == Err(StudentNotFound)
    ensures r.Ok? <==> parentId in students
                       && Acceptable(CreateEntries(body), ExistingSubjects(rows, parentId))
    ensures r.Ok? ==> r.value == CreateEntries(body)
  {
    if parentId !in students then Err(StudentNotFound)
    else
      CheckEntriesAcceptsExactly(CreateEntries(body), ExistingSubjects(rows, parentId));
      CheckEntries(CreateEntries(body), ExistingSubjects(rows, parentId))
  }

  /** For a known student, create's validation is the shared checks against
      the student's stored subjects. */
  lemma ValidateCreateRunsChecks(students: Directory, rows: seq<Mark>, parentId: int, body: Body)
    requires parentId in students
    ensures ValidateCreate(students, rows, parentId, body)
            == CheckEntries(CreateEntries(body), ExistingSubjects(rows, parentId))
  {
  }

  /** `updateMarks` up to the delete: the student must exist, the body must carry
      an array under `marks`, and the checks run without the already-stored one. */
  function ValidateUpdate(students: Directory, parentId: int, body: Body)
    : (r: Result<seq<Entry>, Failure>)
    ensures parentId !in students ==> r == Err(StudentNotFound)
    ensures parentId in students && UpdateEntries(body).None? ==> r == Err(WrongCount)
    ensures r.Ok? <==> parentId in students && UpdateEntries(body).Some?
                       && Acceptable(UpdateEntries(body).value, [])
    ensures r.Ok? ==> UpdateEntries(body) == Some(r.value)
  {
    if parentId !in students then Err(StudentNotFound)
    else match UpdateEntries(body)
      case None => Err(WrongCount)
      case Some(es) =>
        CheckEntriesAcceptsExactly(es, []);
        CheckEntries(es, [])
  }

  /** A batch the create handler accepts in `{ marks: [...] }` form is also
      accepted by the update handler: update drops exactly one check. */
  lemma CreateAcceptedImpliesUpdateAccepted(students: Directory, rows: seq<Mark>, parentId: int, es: seq<Entry>)
    requires ValidateCreate(students, rows, parentId, Wrapped(Many(es))).Ok?
    ensures ValidateUpdate(students, parentId, Wrapped(Many(es))) == Ok(es)
  {
  }
}
