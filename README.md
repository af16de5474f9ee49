# Student marks: the marks store, its validation, and the two mark components

This project models the marks part of a small student-records application.

The server side is an Express controller over a Sequelize `marks` table. Each row is a
subject and an integer score in [0, 100] for one student (`parentId`). There are five handlers:
- create marks for a student;
- view one student's marks;
- replace some subjects of a student;
- delete all of a student's marks;
- list the students with marks, a page at a time, grouped by student.

Create and replace validate a batch of one to five entries before writing. The checks run in
a fixed order:
- the student must exist;
- the entry count must be 1 to 5;
- every subject, trimmed and lower-cased, must be one of Maths, Physics, Chemistry, English
  and Biology;
- no subject may appear twice in the request;
- for create only, no subject may already be stored for the student;
- every score must be a number in [0, 100].

The browser side has two React components:
- The "Add Marks" dialog keeps one to five editable rows and checks them before sending.
- The marks table turns a student's marks into five subject cells, and edits one subject at
  a time in place.

Modules:
- `Common`, in `common.dfy`: Option and Result, the number-input value, and distinctness
  versus `new Set(xs).size`.
- `Text`, in `text.dfy`: `trim` and `toLowerCase`.
- `MarkModel`, in `mark_model.dfy`: the `Mark` row, the per-student row filters and the
  displayed name.
- `MarkRules`, in `mark_rules.dfy`: the whitelist, the request shapes, the ordered checks,
  the HTTP status of each failure, and the create/update validation.
- `MarkPaging`, in `mark_paging.dfy`: ascending distinct student ids, the
  `LIMIT`/`OFFSET` window, the page count, and the rows fetched for a window.
- `MarkStore`, in `mark_store.dfy`:
  - the table invariant: schema constraints, unique ids, existing students, whitelisted
    subjects, and one mark per subject per student;
  - its preservation by create and update;
  - a `Store` class whose methods are the five handlers.
- `MarkForm`, in `mark_form.dfy`: the dialog's row transforms, its submit-time checks, and a
  `Form` class holding `marks`, `error`, `isSubmitting` and `localParentId`.
- `MarkList`, in `mark_list.dfy`: the cell map `transformMarks` builds, the per-subject edit
  and the save filter, and a `Table` class holding `editMark`.

The database, the HTTP layer and the network are not modelled:
- The student table is a parameter, a map from `parentId` to name.
- Auto-increment ids come from a `nextId` counter.
- The outcome of the dialog's two requests is a `Reply` value passed to `Form.Complete`.

## Model

| member | source | states |
|---|---|---|
| Common.SetSizeDetectsRepeats | backend/controllers/markController.js:35-38 | the `Set` size differs from the list length exactly when some subject is repeated |
| Text.TrimStart | backend/controllers/markController.js:29 | the result is a suffix of the input that does not start with white space, and everything dropped is white space |
| Text.TrimEnd | backend/controllers/markController.js:29 | the result is a prefix of the input that does not end with white space, and everything dropped is white space |
| Text.ToLower | backend/controllers/markController.js:29 | lower-casing keeps the length |
| Text.ToLowerLowersAscii | backend/controllers/markController.js:29 | lower-casing leaves no ASCII capital, turns each capital into the small letter at the same place in the alphabet, and leaves every other character as it was |
| Text.ToLowerIdempotent | backend/controllers/markController.js:29 | lower-casing an already lower-cased subject changes nothing |
| MarkModel.RowsOf | backend/models/Mark.js:40-41 | a student's rows are exactly the table rows with that `parentId`; there are none when no row has it |
| MarkModel.RowsOfKeepsUniqueIds | backend/models/Mark.js:6-10 | a student's rows, taken from a table with a unique primary key, have unique ids |
| MarkModel.RowsNotOf | backend/controllers/markController.js:202 | after deleting a student's rows, exactly the other students' rows remain |
| MarkModel.RowsNotOfKeepsUniqueIds | backend/controllers/markController.js:202 | the rows left after a delete still have unique ids |
| MarkModel.SplitByStudent | backend/controllers/markController.js:202-206 | the deleted count plus the remaining count is the old table size |
| MarkModel.RowsNotOfNothingToDelete | backend/controllers/markController.js:202-206 | deleting for a student with no rows leaves the table as it was |
| MarkModel.DisplayName | backend/controllers/markController.js:107 | the name shown is never empty: the student's name when it is present and non-empty, and 'N/A' in every other case |
| MarkRules.AllowedSubjectsSpelledOut | backend/controllers/markController.js:5 | the whitelist compared against is the five subjects lower-cased |
| MarkRules.AllowedIsNonEmpty | backend/models/Mark.js:11-17 | a whitelisted subject satisfies the schema's non-empty subject rule |
| MarkRules.Status | backend/controllers/markController.js:17-53 | 404 exactly for an unknown student or no marks; 500 only for a failed paging query; 400 for every other validation failure |
| MarkRules.InvalidOf | backend/controllers/markController.js:29-33 | the reported invalid subjects are exactly the requested ones outside the whitelist, and none are reported exactly when all are allowed |
| MarkRules.ExistingSubjects | backend/controllers/markController.js:40-44 | the stored subjects compared against are exactly the student's stored subjects, lower-cased |
| MarkRules.CommonOf | backend/controllers/markController.js:45-48 | the reported clashes are exactly the requested subjects already stored, and none are reported exactly when there is no clash |
| MarkRules.FirstRejectedScore | backend/controllers/markController.js:50-54 | no subject is reported exactly when every score is a number in [0, 100]; otherwise the first offending entry's subject is reported |
| MarkRules.FindRejectedScore | backend/controllers/markController.js:50-54 | the `for` loop with an early return reports the same subject as the specification |
| MarkRules.RunChecks | backend/controllers/markController.js:25-54 | the chain of checks with early returns gives the same outcome as the specification `CheckEntries` |
| MarkRules.CheckEntries | backend/controllers/markController.js:25-54 | the count error comes exactly when there are not 1 to 5 entries; an accepted batch is passed on unchanged |
| MarkRules.CheckEntriesAcceptsExactly | backend/controllers/markController.js:25-54 | the checks accept a batch exactly when it has 1 to 5 entries, allowed and distinct subjects, none already stored, and valid scores |
| MarkRules.CheckEntriesFailures | backend/controllers/markController.js:25-54 | each error carries what its message names and is reached only after every earlier check passed |
| MarkRules.ValidateCreate | backend/controllers/markController.js:16-54 | an unknown student is refused before anything else; otherwise a body with or without the `marks` wrapper is accepted exactly when its entries are acceptable against the student's stored subjects |
| MarkRules.ValidateUpdate | backend/controllers/markController.js:128-153 | an unknown student is refused first; a body that is not a `marks` array is a count error; otherwise the shared checks, with no stored-subject check, decide |
| MarkRules.CreateAcceptedImpliesUpdateAccepted | backend/controllers/markController.js:134-153 | any `marks` array the create checks accept is also accepted by the update checks |
| MarkPaging.SortedDistinct | backend/controllers/markController.js:229-236 | `GROUP BY parentId ORDER BY parentId` yields each id once, strictly ascending, and no others |
| MarkPaging.StudentIdsCountDistinct | backend/controllers/markController.js:223-226 | the distinct count reported as `total` equals the length of the id list the pages are cut from |
| MarkPaging.Window | backend/controllers/markController.js:233-234 | `LIMIT`/`OFFSET` gives at most `limit` ids, nothing past the end, and otherwise the contiguous slice at the offset |
| MarkPaging.TotalPagesIsCeiling | backend/controllers/markController.js:287 | `totalPages` is the ceiling of total over limit: enough pages for every student, and one fewer would not be |
| MarkPaging.WindowEmptyIffPastLastPage | backend/controllers/markController.js:238-241 | a page answers 404 exactly when it lies past the last page |
| MarkPaging.EveryIdOnItsPage | backend/controllers/markController.js:219-236 | every student with marks is shown on exactly the page its position determines |
| MarkPaging.RowsIn | backend/controllers/markController.js:244-248 | the fetched rows are exactly those whose student is on the page |
| MarkPaging.RowsOfRowsIn | backend/controllers/markController.js:244-248 | fetching the page's rows loses none of a listed student's rows |
| MarkStore.NewRowsValid | backend/controllers/markController.js:56-62 | the i-th inserted row meets the schema, has the fresh id `nextId + i`, the student's id and the requested score, and a whitelisted subject whose lower-cased form is the normalised requested one |
| MarkStore.AppendKeepsUniqueIds | backend/models/Mark.js:6-10 | auto-incremented ids above every existing id keep the primary key unique |
| MarkStore.AppendKeepsOneMarkPerSubject | backend/controllers/markController.js:35-48 | a batch of distinct subjects, none already held by the student, keeps one mark per subject per student |
| MarkStore.AppendKeepsRowInvariant | backend/models/Mark.js:5-38 | appending rows that meet the schema, reference students and use whitelisted subjects keeps every row valid when the id counter grows |
| MarkStore.AddBatchKeepsInvariant | backend/controllers/markController.js:56-62 | inserting a validated batch keeps the whole table invariant |
| MarkStore.CreateKeepsInvariant | backend/controllers/markController.js:40-62 | a create that passes validation keeps the table invariant, so a student never holds a subject twice |
| MarkStore.Kept | backend/controllers/markController.js:155-160 | the update's delete step removes exactly the student's rows for the requested subjects, compared case-insensitively |
| MarkStore.KeptKeepsUniqueIds | backend/controllers/markController.js:155-160 | the rows left by the update's delete still have unique ids |
| MarkStore.UpdateKeepsInvariant | backend/controllers/markController.js:155-168 | an update that passes validation, with the case-insensitive delete, keeps the table invariant |
| MarkStore.ReplaceIsIdempotent | backend/controllers/markController.js:155-168 | sending the same update twice leaves the same rows as sending it once, apart from the new ids |
| MarkStore.NewRowsAllReplaced | backend/controllers/markController.js:155-166 | an update's own inserted rows are exactly what a repeat of it deletes |
| MarkStore.KeptAsWritten | backend/controllers/markController.js:155-160 | the delete as written removes exactly the student's rows whose subject equals a trimmed requested subject character for character |
| MarkStore.UpdateAsWrittenDuplicatesSubject | backend/controllers/markController.js:155-160 | a valid table holding "maths" and an accepted update for "Maths" end, as written, with two rows for one subject |
| MarkStore.AtMostFiveMarksPerStudent | backend/controllers/markController.js:5 | under the table invariant no student has more than five rows |
| MarkStore.GroupStep | backend/controllers/markController.js:257-269 | one step of the `forEach` turns the grouping of the rows seen so far into the grouping of those rows plus the next one |
| MarkStore.GroupGrows | backend/controllers/markController.js:257-269 | one more row adds its score at the end of its own student's group, creates the group if it was missing, and leaves the other groups alone |
| MarkStore.WindowGroupsComplete | backend/controllers/markController.js:243-276 | grouping the fetched rows gives every student of the page a group holding all of their marks |
| MarkStore.Store.constructor | backend/models/Mark.js:5-38 | an empty table satisfies the invariant |
| MarkStore.Store.Create | backend/controllers/markController.js:16-74 | on a validation failure nothing changes; otherwise one row per entry is appended with fresh ids, and the student and the new rows are returned; the invariant is kept |
| MarkStore.Store.View | backend/controllers/markController.js:93-114 | 404 exactly when the student has no rows; otherwise all of their rows, with the displayed name |
| MarkStore.Store.Update | backend/controllers/markController.js:128-180 | on a validation failure nothing changes; otherwise the student's rows for the requested subjects are replaced by the new rows, and all other rows stay |
| MarkStore.Store.Delete | backend/controllers/markController.js:196-210 | unknown student is 404 with no change; otherwise the student's rows are removed, the reply is 200 with the number of rows the student had when there were any, and 404 when there were none |
| MarkStore.Store.GroupByStudent | backend/controllers/markController.js:256-270 | the `forEach` builds exactly one group per student among the fetched rows, with their scores in row order |
| MarkStore.Store.ListPage | backend/controllers/markController.js:219-283 | `limit` 0 is a 404 (`LIMIT 0` finds no id); otherwise 404 exactly when the page is empty; otherwise one group per id of the window, in ascending id order, with every mark of that student, and the total, page, limit and page count |
| MarkForm.WithField | frontend/src/components/MarkForm.jsx:16-20 | one field of one row takes the new value; every other row and the other field are unchanged |
| MarkForm.Appended | frontend/src/components/MarkForm.jsx:22-26 | a row is added, empty and at the end, exactly when fewer than five are shown |
| MarkForm.Removed | frontend/src/components/MarkForm.jsx:28-32 | with more than one row, exactly the row at the index goes and the others keep their order; otherwise nothing changes |
| MarkForm.FilledRows | frontend/src/components/MarkForm.jsx:45 | the kept rows are exactly those with a subject and a non-empty score, each as many times as it occurs in the input |
| MarkForm.FilledRowsAppend | frontend/src/components/MarkForm.jsx:45 | the filter keeps the rows' order: filtering a concatenation is concatenating the filtered parts |
| MarkForm.FirstOutOfRange | frontend/src/components/MarkForm.jsx:52-58 | no row is reported exactly when every kept score is in [0, 100]; otherwise the first offender's subject is reported |
| MarkForm.FindOutOfRange | frontend/src/components/MarkForm.jsx:52-58 | the `for` loop with an early return reports the same subject as `FirstOutOfRange`: the first row out of range, or none |
| MarkForm.FirstOutOfRangeIs | frontend/src/components/MarkForm.jsx:52-58 | the reported subject is that of the first row out of range, whatever rows follow it |
| MarkForm.SubmitCheck | frontend/src/components/MarkForm.jsx:39-60 | a missing parent id, and only that, gives the parent-id message; with a parent id and no filled-in row the message is 'no valid marks'; otherwise the form passes exactly when all filled-in scores are in range, and the subject reported is the first out-of-range filled-in row's; the payload is the kept rows with numeric scores |
| MarkForm.CheckFilled | frontend/src/components/MarkForm.jsx:45-60 | on the filled-in rows: 'no valid marks' exactly when there are none; the form passes exactly when all are in range, with one numeric entry per row; otherwise the first out-of-range row's subject is reported |
| MarkForm.SentPayloadPassesCountAndScoreChecks | frontend/src/components/MarkForm.jsx:45-60 | whatever the dialog sends never fails the server's count or score check |
| MarkForm.Form.constructor | frontend/src/components/MarkForm.jsx:5-8 | the dialog starts with exactly one empty row, no message and nothing in flight |
| MarkForm.Form.Reset | frontend/src/components/MarkForm.jsx:10-14 | reopening resets to one empty row and no message |
| MarkForm.Form.SetParentId | frontend/src/components/MarkForm.jsx:120 | the parent id field takes the typed text; nothing else changes |
| MarkForm.Form.ChangeMark | frontend/src/components/MarkForm.jsx:16-20 | the rows become `WithField` of the old rows, still one to five of them |
| MarkForm.Form.AddRow | frontend/src/components/MarkForm.jsx:22-26 | the rows become `Appended` of the old rows, never more than five |
| MarkForm.Form.RemoveRow | frontend/src/components/MarkForm.jsx:28-32 | the rows become `Removed` of the old rows, never fewer than one |
| MarkForm.Form.Submit | frontend/src/components/MarkForm.jsx:34-60 | ignored while in flight; otherwise a failed check sets its message and clears the flag, and a passing form yields the `SubmitCheck` payload |
| MarkForm.Form.Complete | frontend/src/components/MarkForm.jsx:63-84 | the in-flight flag is cleared on every outcome; a 201 starts the dialog over; a failure shows its message |
| MarkList.LastScoreIsLastDisplayed | frontend/src/components/MarkList.jsx:9-13 | a subject has a score exactly when some displayed entry names it, and it is the score of the last such entry |
| MarkList.TransformMarks | frontend/src/components/MarkList.jsx:7-15 | the keys are the five columns plus every displayed subject; each cell shows the last displayed score for its subject, or '-' |
| MarkList.WithoutSubject | frontend/src/components/MarkList.jsx:21 | exactly the entries for other subjects remain |
| MarkList.EditedMarks | frontend/src/components/MarkList.jsx:21-25 | other subjects' entries are untouched; the edited subject has exactly one entry, holding the typed score, or none when the field was cleared |
| MarkList.WithoutSubjectKeepsLastScore | frontend/src/components/MarkList.jsx:21 | removing one subject's entries leaves the last displayed score of every other subject as it was |
| MarkList.EditShowsInCell | frontend/src/components/MarkList.jsx:21-25 | after an edit the subject's cell shows the typed score, or '-' when cleared |
| MarkList.EditKeepsOtherCells | frontend/src/components/MarkList.jsx:21-25 | an edit leaves every other subject's cell as it was |
| MarkList.SubmittableOnly | frontend/src/components/MarkList.jsx:31-33 | exactly the entries with a subject and a score in [0, 100] are kept, each as many times as it occurs |
| MarkList.Table.constructor | frontend/src/components/MarkList.jsx:4 | no row is being edited at first |
| MarkList.Table.StartEdit | frontend/src/components/MarkList.jsx:118 | the Edit button makes the row's data the edited copy |
| MarkList.Table.Cancel | frontend/src/components/MarkList.jsx:94 | Cancel leaves edit mode |
| MarkList.Table.EditChange | frontend/src/components/MarkList.jsx:17-27 | an empty input or a score in [0, 100] replaces the subject's entries as `EditedMarks` says; any other input changes nothing |
| MarkList.Table.EditSubmit | frontend/src/components/MarkList.jsx:29-40 | with no submittable entry nothing is sent and editing goes on; otherwise only the submittable entries are sent and edit mode ends |

## Left out

- The `!parentId` checks (400) and `parseInt` of the route parameter: the route always
  supplies an id, and `parentId` is modelled as an integer.
- Logging, and the 500 replies of the `catch` blocks for database errors. The
  `SequelizeValidationError` branch is also left out: the table invariant shows that
  validated rows always meet the schema.
- Concurrency: two requests racing between validation and insert are not modelled. Each
  handler runs atomically on the `Store`.
- JavaScript coercions outside the modelled shapes are not modelled: a subject that is not a
  string (which throws in `trim`, giving 500), and query strings that are not numbers.
- MarkRules.ScoreAccepted: scores are integers or "not a number". A fractional score passes
  `typeof` and is then cut by `parseInt`; this is not modelled.
- Text.Trim and Text.ToLower: ASCII white space and ASCII letters only. Unicode white space
  and non-ASCII case mapping are not modelled.
- MarkStore.Store.ListPage: a negative offset (`page < 1` with `limit > 0`) or a negative
  `limit` is one abstract failure (`PagingFailed`). Whether the database rejects these or
  reads them as 0 or "no limit" depends on the driver. `limit` 0 is modelled: it is a 404.
- MarkStore.Store.ListPage: the second 404 ("no marks for the selected ids") is not modelled
  as a separate branch, because every id in a window has rows. Groups come out in window
  order because `Object.values` lists integer keys in ascending order. That assumes
  non-negative `parentId`s.
- MarkStore.Store.Update: uses the case-insensitive delete (`Kept`); the code as written is
  `KeptAsWritten` (see Findings).
- MarkForm.Form.ChangeMark: requires an index of a shown row. Only the rendered rows call
  it, so the array growth JavaScript would allow for other indices is not modelled.
- MarkForm.Filled: a number input hands over `''` or a number the browser has parsed.
  Scores are integers, so the `isNaN` test can never fire and is not modelled separately.
- MarkList.Table.EditChange and MarkList.Table.EditSubmit: require edit mode. Only the
  inputs rendered in edit mode call them.
- JSX rendering, modals, `alert`, and the axios requests of both components. The requests'
  outcome enters as `MarkForm.Reply`.
- `frontend/src/pages/Marks.jsx` and `frontend/src/pages/Students.jsx` are not part of this
  model.

## Findings

| source | as written | input that shows it | evidently intended | confidence | as-written member | corrected member |
|---|---|---|---|---|---|---|
| backend/controllers/markController.js:155-160 | the update deletes the student's rows whose subject equals the trimmed requested subject exactly, while validation compares subjects lower-cased | the student 7 has a stored row "maths" (accepted by create), then an update with `{ marks: [{ subject: "Maths", score: 90 }] }` | remove the student's existing row for that subject compared case-insensitively, so the student keeps one mark per subject | medium, not executed; under a case-insensitive database collation the delete already matches | MarkStore.UpdateAsWrittenDuplicatesSubject | MarkStore.UpdateKeepsInvariant |
