/** The six data routes of the server, each a pure decision over the
    verified caller and the current store. A read route answers with rows;
    a write route answers with the store after the insert and the inserted
    row (`RETURNING *`). Every SQL query becomes a selection over the store's
    sequences, kept in store order. */
module Handlers {
  import opened Wrappers
  import opened Seqs
  import opened Auth
  import opened Store

  /** The result of an insert: the new store and the row `RETURNING *` gives back. */
  datatype Created<R> = Created(db: Db, row: R)

  /** One copy of class `c` per enrollment row of `userId` in it: the inner
      join of `classes` with `enrollments` for a single class row. */
  function JoinEnrollments(c: ClassRow, es: seq<Enrollment>, userId: int): (r: seq<ClassRow>)
    ensures forall i :: 0 <= i < |r| ==> r[i] == c
    ensures |r| > 0 <==> exists e :: e in es && e.classId == c.id && e.studentId == userId
  {
    if |es| == 0 then []
    else
      (if es[0].classId == c.id && es[0].studentId == userId then [c] else [])
      + JoinEnrollments(c, es[1..], userId)
  }

  /** `SELECT c.* FROM classes c JOIN enrollments e ON c.id = e.class_id
      WHERE e.student_id = userId`, over the class rows `cs`. */
  function EnrolledClasses(cs: seq<ClassRow>, db: Db, userId: int): (r: seq<ClassRow>)
    ensures forall c :: c in r <==> c in cs && IsEnrolled(db, userId, c.id)
  {
    if |cs| == 0 then []
    else
      var rest := EnrolledClasses(cs[1..], db, userId);
      var here := JoinEnrollments(cs[0], db.enrollments, userId);
      assert forall c :: c in cs <==> c == cs[0] || c in cs[1..];
      assert forall c :: c in here ==> c == cs[0];
      assert |here| > 0 <==> IsEnrolled(db, userId, cs[0].id);
      assert |here| > 0 ==> here[0] == cs[0] && cs[0] in here;
      here + rest
  }

  /** `SELECT * FROM classes WHERE teacher_id = userId`, in store order. */
  function TaughtBy(cs: seq<ClassRow>, userId: int): (r: seq<ClassRow>)
  {
    Filter(cs, (c: ClassRow) => c.teacherId == userId)
  }

  /** GET /classes: admins see every class, teachers the classes they teach,
      students the classes they are enrolled in, and any other role is refused. */
  function ListClasses(db: Db, caller: Caller): (r: Reply<seq<ClassRow>>)
    ensures r.Err? <==> caller.role.Other?
    ensures r.Err? ==> r.code == StatusForbidden
    ensures r.Ok? ==> r.code == StatusOk
    ensures caller.role == Admin ==> r.Ok? && r.value == db.classes
    ensures caller.role == Teacher ==>
      && r.Ok?
      && forall c :: c in r.value <==> c in db.classes && c.teacherId == caller.userId
    ensures caller.role == Student ==>
      && r.Ok?
      && forall c :: c in r.value <==> c in db.classes && IsEnrolled(db, caller.userId, c.id)
  {
    match caller.role
    case Admin => Ok(StatusOk, db.classes)
    case Teacher => Ok(StatusOk, TaughtBy(db.classes, caller.userId))
    case Student => Ok(StatusOk, EnrolledClasses(db.classes, db, caller.userId))
    case Other(_) => Err(StatusForbidden)
  }

  /** POST /classes: teachers and admins only; the new class is owned by the
      caller whatever its role, and the other tables are untouched. */
  function CreateClass(db: Db, caller: Caller, name: string, description: string)
    : (r: Reply<Created<ClassRow>>)
    ensures r.Ok? <==> caller.role == Teacher || caller.role == Admin
    ensures r.Err? ==> r.code == StatusForbidden
    ensures r.Ok? ==>
      var row := r.value.row;
      && r.code == StatusCreated
      && row == ClassRow(db.nextClassId, name, description, caller.userId)
      && r.value.db.classes == db.classes + [row]
      && r.value.db.nextClassId == db.nextClassId + 1
      && r.value.db.(classes := db.classes, nextClassId := db.nextClassId) == db
  {
    if AuthorizeRoles(Some(caller), Staff).Fail? then Err(StatusForbidden)
    else
      var row := ClassRow(db.nextClassId, name, description, caller.userId);
      Ok(StatusCreated, Created(db.(classes := db.classes + [row], nextClassId := db.nextClassId + 1), row))
  }

  /** GET /classes/:classId/assessments: a teacher must teach the class and a
      student must be enrolled in it; every other role, admin or unknown, is
      not checked. On success the answer is the class's assessments. */
  function ListAssessments(db: Db, caller: Caller, classId: int): (r: Reply<seq<Assessment>>)
    ensures r.Err? <==>
      || (caller.role == Teacher && !OwnsClass(db, caller.userId, classId))
      || (caller.role == Student && !IsEnrolled(db, caller.userId, classId))
    ensures r.Err? ==> r.code == StatusForbidden
    ensures r.Ok? ==>
      && r.code == StatusOk
      && forall a :: a in r.value <==> a in db.assessments && a.classId == classId
  {
    if caller.role == Teacher && !OwnsClass(db, caller.userId, classId) then Err(StatusForbidden)
    else if caller.role == Student && !IsEnrolled(db, caller.userId, classId) then Err(StatusForbidden)
    else Ok(StatusOk, Filter(db.assessments, (a: Assessment) => a.classId == classId))
  }

  /** POST /classes/:classId/assessments: teachers and admins only; a teacher
      must teach the class, an admin is not checked. The insert itself fails
      with 500 when the class does not exist (foreign key `class_id`). */
  function CreateAssessment(db: Db, caller: Caller, classId: int, name: string, weight: int)
    : (r: Reply<Created<Assessment>>)
    ensures r.Ok? <==>
      || (caller.role == Teacher && OwnsClass(db, caller.userId, classId))
      || (caller.role == Admin && ClassExists(db, classId))
    ensures r.Err? && r.code == StatusServerError <==>
      caller.role == Admin && !ClassExists(db, classId)
    ensures r.Err? ==> r.code == StatusForbidden || r.code == StatusServerError
    ensures r.Ok? ==>
      var row := r.value.row;
      && r.code == StatusCreated
      && row == Assessment(db.nextAssessmentId, classId, name, weight)
      && r.value.db.assessments == db.assessments + [row]
      && r.value.db.nextAssessmentId == db.nextAssessmentId + 1
      && r.value.db.(assessments := db.assessments, nextAssessmentId := db.nextAssessmentId) == db
  {
    if AuthorizeRoles(Some(caller), Staff).Fail? then Err(StatusForbidden)
    else if caller.role == Teacher && !OwnsClass(db, caller.userId, classId) then Err(StatusForbidden)
    else if !ClassExists(db, classId) then Err(StatusServerError)
    else
      var row := Assessment(db.nextAssessmentId, classId, name, weight);
      Ok(StatusCreated,
         Created(db.(assessments := db.assessments + [row], nextAssessmentId := db.nextAssessmentId + 1), row))
  }

  /** POST /assessments/:assessmentId/marks: teachers and admins only; a
      teacher must teach the assessment's class. The row is always inserted,
      never merged with an existing mark for the same student. The insert
      fails with 500 when the assessment does not exist (foreign key
      `assessment_id`). */
  function AddMark(db: Db, caller: Caller, assessmentId: int, studentId: int, components: Components)
    : (r: Reply<Created<Mark>>)
    ensures r.Ok? <==>
      || (caller.role == Teacher && OwnsAssessment(db, caller.userId, assessmentId))
      || (caller.role == Admin && AssessmentExists(db, assessmentId))
    ensures r.Err? && r.code == StatusServerError <==>
      caller.role == Admin && !AssessmentExists(db, assessmentId)
    ensures r.Err? ==> r.code == StatusForbidden || r.code == StatusServerError
    ensures r.Ok? ==>
      && r.code == StatusCreated
      && r.value.row == Mark(assessmentId, studentId, components)
      && r.value.db.marks == db.marks + [r.value.row]
      && r.value.db.(marks := db.marks) == db
  {
    if AuthorizeRoles(Some(caller), Staff).Fail? then Err(StatusForbidden)
    else if caller.role == Teacher && !OwnsAssessment(db, caller.userId, assessmentId) then Err(StatusForbidden)
    else if !AssessmentExists(db, assessmentId) then Err(StatusServerError)
    else
      var row := Mark(assessmentId, studentId, components);
      Ok(StatusCreated, Created(db.(marks := db.marks + [row]), row))
  }

  /** The marks of one assessment, in store order. */
  function MarksOf(db: Db, assessmentId: int): (r: seq<Mark>)
  {
    Filter(db.marks, (m: Mark) => m.assessmentId == assessmentId)
  }

  /** The marks of one student in one assessment, in store order. */
  function OwnMarks(db: Db, assessmentId: int, studentId: int): (r: seq<Mark>)
  {
    Filter(db.marks, (m: Mark) => m.assessmentId == assessmentId && m.studentId == studentId)
  }

  /** GET /assessments/:assessmentId/marks: a student sees only their own
      marks (without any enrollment check), a teacher must teach the
      assessment's class and then sees all its marks, an admin sees all its
      marks, and any other role is refused. */
  function ListMarks(db: Db, caller: Caller, assessmentId: int): (r: Reply<seq<Mark>>)
    ensures r.Err? <==>
      caller.role.Other? || (caller.role == Teacher && !OwnsAssessment(db, caller.userId, assessmentId))
    ensures r.Err? ==> r.code == StatusForbidden
    ensures r.Ok? ==> r.code == StatusOk
    ensures r.Ok? && caller.role == Student ==>
      forall m :: m in r.value <==>
        m in db.marks && m.assessmentId == assessmentId && m.studentId == caller.userId
    ensures r.Ok? && caller.role != Student ==>
      forall m :: m in r.value <==> m in db.marks && m.assessmentId == assessmentId
  {
    match caller.role
    case Student => Ok(StatusOk, OwnMarks(db, assessmentId, caller.userId))
    case Teacher =>
      if !OwnsAssessment(db, caller.userId, assessmentId) then Err(StatusForbidden)
      else Ok(StatusOk, MarksOf(db, assessmentId))
    case Admin => Ok(StatusOk, MarksOf(db, assessmentId))
    case Other(_) => Err(StatusForbidden)
  }
}
