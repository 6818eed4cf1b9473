# Sharpmarks access layer and client helpers, in Dafny

Sharpmarks is a gradebook. Teachers and admins manage classes, weighted
assessments and per-student component marks; students read their own
results. This project models two parts of it.

- **The role-scoped data routes of the Express backend.** The caller
  comes from a bearer token as a `(userId, role)` pair. Each route is a
  pure decision over that caller and the current rows of the store. It
  either refuses with a status code or answers with a selection of rows.
  A write route answers with the store plus one appended row. The SQL
  queries become selections and joins over sequences of rows.
- **The pure helpers of the React client.** These are the pronoun label,
  the marks table indexed by student, the list of students that can still
  be enrolled, the two field-update reducers, the assessment form's
  resets, and the request body that `saveMark` builds.

Modules:

| file | module | contents |
|---|---|---|
| wrappers.dfy | `Wrappers` | `Option`, `Reply` (status and value, or error status), `Outcome`, status codes |
| seqs.dfy | `Seqs` | order-preserving `Filter` (a `WHERE` clause) and its lemmas |
| strings.dfy | `Strings` | JavaScript `split`/`join` on one character, both round trips |
| auth.dfy | `Auth` | roles, callers, `authenticateToken`, `authorizeRoles` |
| store.dfy | `Store` | rows, the store `Db`, ownership predicates, the invariant `WellFormed` |
| handlers.dfy | `Handlers` | the six data routes |
| facts.dfy | `HandlerFacts` | properties that relate several routes |
| routes.dfy | `Routes` | the pipeline: authentication, then the route |
| js.dfy | `Js` | objects as maps, object spread, `Number(v) \|\| 0` |
| client.dfy | `Client` | the client helpers |

## Modelling choices

- Serial ids are the counters `nextClassId` and `nextAssessmentId` of the
  store. A successful insert takes the counter's value as the new id and
  advances the counter; a failed insert leaves it alone, unlike
  PostgreSQL (see "## Left out"). `WellFormed` says that ids are increasing and below their
  counter. It also says that `assessments.class_id` and
  `marks.assessment_id` refer to existing rows.
- backend/server.js and backend/db.js do not define the database schema.
  The model assumes
  two foreign keys: `assessments.class_id` references `classes.id`, and
  `marks.assessment_id` references `assessments.id`. The server's catch
  blocks turn database errors into 500. The model keeps exactly two of
  them: the failures of these two keys. An admin reaches them by
  inserting under a missing class or assessment.
- SQL returns rows in no promised order. The model returns them in store
  order, which is one order the database may use. The student class list
  is the inner join itself, so it holds one copy of a class per matching
  enrollment row.
- Token signature checking is an oracle `verify: string -> Option<Claims>`
  passed to `Authenticate` and `Serve`. It yields the token's user id and
  its role string. `Authenticate` reads the role string with `ParseRole`,
  as the server's `===` comparisons do. The role type `Role` admits an
  unknown role only under a name other than "admin", "teacher" and
  "student".
- JavaScript `Number()` is modelled on integers only:
  - `undefined` is NaN;
  - `null` and `""` are 0;
  - a decimal string with an optional sign is its value;
  - any other string is NaN.

Behaviours of the code that the model keeps as written:

- Marks are inserted, never upserted (backend/server.js:244-261). A
  second mark for the same student and assessment is a second row
  (`AddMarkTwiceKeepsBoth`). That holds only if `marks` has no unique key
  on (assessment_id, student_id). With such a key the second insert fails
  with 500, a database error the model leaves out.
- A role claim other than "teacher" and "student" is not refused by the
  assessment list (`UncheckedRolesListAssessments`). Unknown roles are
  refused by the class list and the marks list.
- There is no not-found outcome. For a missing assessment, a teacher gets
  403, while an admin or a student gets an empty list
  (`MissingAssessmentMarks`).
- A class an admin creates is owned by the admin
  (`AdminCreatedClassLocksOutTeachers`).
- The enrollment check compares `enrollments.student_id` with the
  caller's user id, not with a separate roster id.

## Model

| member | source | states |
|---|---|---|
| Auth.ParseRole | backend/server.js:112-123 | every role claim denotes a role whose name spells the claim back, so the `===` comparisons on the claim and on the role agree |
| Auth.ParseRoleName | backend/server.js:115-123 | reading back a role's name gives the role |
| Auth.ClaimDecidesRole | backend/server.js:112-123 | a verified caller is admin, teacher or student exactly when its role claim is that string |
| Auth.ExtractToken | backend/server.js:15-16 | a token, when found, is non-empty, space-free and comes from a present header |
| Auth.TokenAfterFirstSpace | backend/server.js:15-16 | the token is the space-free run after the first space, whatever word precedes it; an empty run is no token |
| Auth.NoSpaceNoToken | backend/server.js:15-20 | a header without a space carries no token |
| Auth.BearerRoundTrip | frontend/src/App.js:55 | the `Bearer ${token}` header the client sends yields that token back on the server |
| Auth.Authenticate | backend/server.js:14-31 | 401 exactly when no token is found, 403 exactly when the token does not verify, otherwise the caller with the token's user id and role claim |
| Auth.AuthorizeRoles | backend/server.js:34-41 | passes iff a caller is present and its role is allowed; otherwise 403 |
| Auth.StaffGate | backend/server.js:145 | the write routes' gate admits exactly teachers and admins |
| Strings.Split | backend/server.js:16 | `split(' ')` yields at least one piece and no piece holds the separator |
| Strings.JoinSplit | backend/server.js:16 | joining the pieces of a split gives the header back |
| Strings.SplitJoin | backend/server.js:16 | splitting a join of separator-free pieces gives the pieces back |
| Handlers.EnrolledClasses | backend/server.js:126-131 | a class is in the join iff it is a class row with an enrollment of the caller |
| Handlers.ListClasses | backend/server.js:110-142 | admin gets every class; teacher exactly the classes they teach; student exactly the enrolled classes; any other role 403 |
| Handlers.CreateClass | backend/server.js:145-156 | only teacher or admin; the new class has a fresh serial id and is owned by the caller; nothing else changes |
| Handlers.ListAssessments | backend/server.js:161-191 | 403 iff a teacher does not teach the class or a student is not enrolled; otherwise exactly the class's assessments |
| Handlers.CreateAssessment | backend/server.js:194-216 | only teacher or admin; a teacher must teach the class; admin unchecked; exactly one row appended; nothing else changes |
| Handlers.AddMark | backend/server.js:222-266 | only teacher or admin; a teacher must teach the assessment's class; exactly one row with the ten values appended; existing marks untouched |
| Handlers.ListMarks | backend/server.js:269-304 | student gets only own rows with no enrollment check; teacher 403 unless teaching the class; admin all rows; other roles 403 |
| HandlerFacts.CreateClassKeepsWellFormed | backend/server.js:148-151 | a class insert keeps the store invariant and its id differs from every existing class id |
| HandlerFacts.CreateAssessmentKeepsWellFormed | backend/server.js:200-211 | an assessment insert keeps the store invariant and only lands in an existing class |
| HandlerFacts.AddMarkKeepsWellFormed | backend/server.js:231-261 | a mark insert keeps the store invariant and only lands on an existing assessment |
| HandlerFacts.CreatedClassVisibility | backend/server.js:115-152 | a teacher's new class shows in their list and the admin list; no other teacher's list changes |
| HandlerFacts.AdminCreatedClassLocksOutTeachers | backend/server.js:145-206 | an admin-created class is owned by the admin, so every teacher is refused its assessments |
| HandlerFacts.UncheckedRolesListAssessments | backend/server.js:166-186 | every role claim other than "teacher" and "student" passes the assessment-list check |
| HandlerFacts.MissingAssessmentMarks | backend/server.js:276-298 | for a missing assessment a teacher gets 403 while admin and student get an empty list |
| HandlerFacts.StudentViewIsOwnRows | backend/server.js:276-295 | a student's answer is the admin's answer restricted to the student's rows, in order |
| HandlerFacts.AddMarkTwiceKeepsBoth | backend/server.js:244-261 | two adds for the same student and assessment leave both rows, in order |
| HandlerFacts.CreatedAssessmentListed | backend/server.js:186-211 | a new assessment is appended to its class's list for every caller the list admits, and the insert admits and refuses the same callers as before |
| HandlerFacts.AddedMarkReachesOnlyItsStudent | backend/server.js:245-280 | a new mark reaches exactly its own student's answer |
| Routes.Serve | backend/server.js:110-304 | an unauthenticated request is refused with the store unchanged; reads never write; the store changes iff the answer is 201 and only for staff |
| Routes.ServeKeepsWellFormed | backend/server.js:110-304 | every request keeps a well-formed store well formed |
| Routes.StudentNeverWrites | backend/server.js:145-222 | a student with a valid token never changes the store and is refused every write |
| Routes.AdminClaimListsEveryClass | backend/server.js:110-117 | a valid token whose role claim is "admin" is answered with every class |
| Js.Assign | frontend/src/App.js:143 | object spread with a computed key sets that key and keeps every other key |
| Js.ParseDecimal | frontend/src/App.js:185-192 | a string is a number iff it is an optionally signed run of digits, and its value is the signed positional value of the digits |
| Js.PlusSignKeepsValue | frontend/src/App.js:185-192 | a leading `+` does not change the value |
| Js.LeadingZerosKeepValue | frontend/src/App.js:185-192 | leading zeros do not change the value |
| Js.NonDigitIsNaN | frontend/src/App.js:185-192 | a non-digit after the optional sign makes the string not a number |
| Js.ToNumber | frontend/src/App.js:185-192 | `Number(v)`: undefined is NaN, null and the empty string are 0, a number is itself, any other string is parsed |
| Js.ParseShow | frontend/src/App.js:185-192 | parsing the canonical spelling of an integer gives it back |
| Js.NumberOrZero | frontend/src/App.js:185-192 | `Number(v) \|\| 0` is the number `v` denotes, or 0 when it is not a number |
| Js.CoerceTyped | frontend/src/App.js:185-192 | a typed canonical decimal, or a number, coerces to itself |
| Client.PronounLabel | frontend/src/App.js:7-9 | "he/him" iff 1, "she/her" iff 2, "they/them" for every other value |
| Client.PronounOptionsMatchLabels | frontend/src/App.js:91-93 | the option value strings "1", "2", "3", stored as `Number(value)`, label back to their captions |
| Client.EnrollmentCandidates | frontend/src/App.js:221 | a student is offered iff listed and its id is not enrolled |
| Client.CandidatesKeepOrder | frontend/src/App.js:221 | the offer keeps the order and multiplicity of the student list |
| Client.NoCandidatesWhenAllEnrolled | frontend/src/App.js:221 | nobody is offered once every student is enrolled |
| Client.IndexBy | frontend/src/App.js:123-124 | every key present, the last element with a key wins, every entry comes from an element with that key |
| Client.IndexMarks | frontend/src/App.js:123-124 | every student with a mark is a key, holding that student's last mark, whose `student_id` is the key |
| Client.UpdateMarkField | frontend/src/App.js:172-177 | sets one field of one student's entry; other fields and other students unchanged |
| Client.UpdateMarkFieldLastWins | frontend/src/App.js:172-177 | of two writes to one field the later wins |
| Client.UpdateMarkFieldCommutes | frontend/src/App.js:172-177 | writes to different fields or students commute |
| Client.UpdateAssessmentForm | frontend/src/App.js:142-144 | changes only the given form field |
| Client.FormStep | frontend/src/App.js:142-235 | typing changes one field; Edit loads the assessment's name and weight; a completed update or Cancel resets to `{name: "", weight: 1}` and stops editing; a completed add resets the form and keeps `editing` |
| Client.SavedResetsForm | frontend/src/App.js:146-154 | after any events, a completed add or update leaves the blank form; an update also stops editing, an add keeps the assessment being edited |
| Client.ComponentsOf | frontend/src/App.js:185-192 | each of the eight components is the coerced value of its field |
| Client.SaveMark | frontend/src/App.js:179-193 | nothing is sent without a truthy assessment id or a student entry; otherwise the body carries the assessment, the student and the eight coerced components |
| Client.EntryComponents | frontend/src/App.js:183-192 | coercing a received mark row's fields gives the mark's components back |
| Client.SaveUneditedRoundTrip | frontend/src/App.js:122-192 | a fetched mark saved without edits is sent back with the same components |
| Client.SaveAfterTyping | frontend/src/App.js:172-192 | typing a number into a component sends that number and leaves the other components as they were |

## Left out

- `/register` and `/login` (backend/server.js:59-99) are left out. Password hashing and token signing are calls into libraries. Token verification is the `verify` oracle.
- `/`, `/test-db` and `/profile` are left out: they have no access logic.
- Express routing, `app.listen`, the asynchronous pool calls and logging are left out.
- Database errors other than the two foreign-key failures are left out. These include unique or NOT NULL violations and non-numeric path parameters, which reach the 500 catch blocks. Path parameters and body fields arrive as already-parsed integers and strings, and every body field is present.
- Handlers.ListClasses and the other list routes: the model returns rows in store order, while SQL promises no order.
- backend/db.js (pool configuration), the root server.js (a hello-world stub) and sharpmarks-frontend/src/App.js are not part of this model. The last one's only pure helper is the same `pronounLabel`.
- Routes the client calls that backend/server.js does not define are not modelled: `/students`, `POST /classes/:id/students`, `PUT` and `DELETE /assessments/:id`. `FormEvent.AddDone` and `FormEvent.UpdateDone` stand only for the completion of the add or update request.
- Handlers.CreateAssessment: a failed insert also uses up a serial value in PostgreSQL, because `nextval` is not rolled back. After the 500 path the next assessment's id is one higher than the model's `nextAssessmentId`. The model keeps the store, counter included, unchanged on every refusal, so ids are only modelled as fresh and increasing, not as the exact values the database hands out.
- React rendering, hooks, axios, `alert`/`confirm`, `localStorage` and the default student selection (frontend/src/App.js:127-130) are not modelled.
- Js.NumberOrZero: floating-point JavaScript numbers are not modelled. Fractional, exponent, hexadecimal, padded and `Infinity` strings coerce to 0 here, while `Number()` gives a float for them. The model assumes marks and weights are integers; neither the client nor the server enforces that, and a number input accepts `8.5`.
- Client.PronounLabel: JSON booleans, arrays and objects are not modelled as values. They would all read "they/them".
