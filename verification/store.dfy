/** The relational store the server queries, as immutable sequences of rows.
    Serial ids are modelled by the counters `nextClassId` and
    `nextAssessmentId`, which hand out the id of the next inserted row. */
module Store {

  datatype ClassRow = ClassRow(id: int, name: string, description: string, teacherId: int)

  /** A row of the `enrollments` join table. */
  datatype Enrollment = Enrollment(studentId: int, classId: int)

  datatype Assessment = Assessment(id: int, classId: int, name: string, weight: int)

  /** The four (received, out of) component pairs of a mark. */
  datatype Components = Components(
    knowledgeReceived: int, knowledgeOutOf: int,
    thinkingReceived: int, thinkingOutOf: int,
    applicationReceived: int, applicationOutOf: int,
    communicationReceived: int, communicationOutOf: int)

  datatype Mark = Mark(assessmentId: int, studentId: int, components: Components)

  datatype Db = Db(
    classes: seq<ClassRow>,
    enrollments: seq<Enrollment>,
    assessments: seq<Assessment>,
    marks: seq<Mark>,
    nextClassId: int,
    nextAssessmentId: int)

  predicate ClassExists(db: Db, classId: int)
  {
    exists c :: c in db.classes && c.id == classId
  }

  predicate AssessmentExists(db: Db, assessmentId: int)
  {
    exists a :: a in db.assessments && a.id == assessmentId
  }

  /** `SELECT * FROM classes WHERE id = classId AND teacher_id = userId` is non-empty. */
  predicate OwnsClass(db: Db, userId: int, classId: int)
  {
    exists c :: c in db.classes && c.id == classId && c.teacherId == userId
  }

  /** `SELECT * FROM enrollments WHERE class_id = classId AND student_id = userId` is non-empty. */
  predicate IsEnrolled(db: Db, userId: int, classId: int)
  {
    exists e :: e in db.enrollments && e.classId == classId && e.studentId == userId
  }

  /** The join of assessments with classes on `class_id`, restricted to the
      assessment `assessmentId` and classes taught by `userId`, is non-empty. */
  predicate OwnsAssessment(db: Db, userId: int, assessmentId: int)
  {
    exists a, c :: a in db.assessments && c in db.classes
      && a.id == assessmentId && a.classId == c.id && c.teacherId == userId
  }

  /** Ids are handed out in increasing order by the counters, so every id is
      below its counter and distinct from every other id of its table. */
  predicate IdsIncreasing(ids: seq<int>, next: int)
  {
    && (forall i, j :: 0 <= i < j < |ids| ==> ids[i] < ids[j])
    && (forall i :: 0 <= i < |ids| ==> ids[i] < next)
  }

  /** The id column of a table, in row order. */
  function Ids<R>(rows: seq<R>, id: R -> int): (r: seq<int>)
    ensures |r| == |rows| && forall i :: 0 <= i < |rows| ==> r[i] == id(rows[i])
  {
    seq(|rows|, i requires 0 <= i < |rows| => id(rows[i]))
  }

  function ClassId(c: ClassRow): (id: int) { c.id }

  function AssessmentId(a: Assessment): (id: int) { a.id }

  /** The invariant the store keeps: serial ids are fresh and increasing, and
      the foreign keys `assessments.class_id` and `marks.assessment_id` refer
      to existing rows. */
  predicate WellFormed(db: Db)
  {
    && IdsIncreasing(Ids(db.classes, ClassId), db.nextClassId)
    && IdsIncreasing(Ids(db.assessments, AssessmentId), db.nextAssessmentId)
    && (forall a :: a in db.assessments ==> ClassExists(db, a.classId))
    && (forall m :: m in db.marks ==> AssessmentExists(db, m.assessmentId))
  }

  /** The empty store a fresh database starts from (serials start at 1). */
  const Empty: Db := Db([], [], [], [], 1, 1)

  lemma EmptyWellFormed()
    ensures WellFormed(Empty)
  {
  }

  /** With increasing ids, a class id names at most one class. */
  lemma ClassIdUnique(db: Db, c1: ClassRow, c2: ClassRow)
    requires WellFormed(db)
    requires c1 in db.classes && c2 in db.classes && c1.id == c2.id
    ensures c1 == c2
  {
    var i :| 0 <= i < |db.classes| && db.classes[i] == c1;
    var j :| 0 <= j < |db.classes| && db.classes[j] == c2;
    var ids := Ids(db.classes, ClassId);
    assert ids[i] == c1.id && ids[j] == c2.id;
  }
}
