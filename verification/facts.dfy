/** Properties that relate several route handlers: the store invariant the
    inserts keep, who sees a newly inserted row, and the behaviours of the
    server that follow from how its checks are written. */
module HandlerFacts {
  import opened Wrappers
  import opened Seqs
  import opened Auth
  import opened Store
  import opened Handlers

  /** Appending an id above every existing one keeps the ids increasing. */
  lemma AppendFreshId(ids: seq<int>, next: int)
    requires IdsIncreasing(ids, next)
    ensures IdsIncreasing(ids + [next], next + 1)
  {
  }

  /** Creating a class keeps the store well formed, and the new class's id is
      not the id of any existing class. */
  lemma CreateClassKeepsWellFormed(db: Db, caller: Caller, name: string, description: string)
    requires WellFormed(db)
    requires CreateClass(db, caller, name, description).Ok?
    ensures WellFormed(CreateClass(db, caller, name, description).value.db)
    ensures forall c :: c in db.classes ==> c.id != CreateClass(db, caller, name, description).value.row.id
  {
    var r := CreateClass(db, caller, name, description).value;
    assert Ids(r.db.classes, ClassId) == Ids(db.classes, ClassId) + [r.row.id];
    AppendFreshId(Ids(db.classes, ClassId), db.nextClassId);
    forall a | a in r.db.assessments
      ensures ClassExists(r.db, a.classId)
    {
      var c :| c in db.classes && c.id == a.classId;
      assert c in r.db.classes;
    }
    forall c | c in db.classes
      ensures c.id != r.row.id
    {
      var i :| 0 <= i < |db.classes| && db.classes[i] == c;
      assert Ids(db.classes, ClassId)[i] == c.id;
    }
  }

  /** Creating an assessment keeps the store well formed; in particular the
      new assessment belongs to an existing class. */
  lemma CreateAssessmentKeepsWellFormed(db: Db, caller: Caller, classId: int, name: string, weight: int)
    requires WellFormed(db)
    requires CreateAssessment(db, caller, classId, name, weight).Ok?
    ensures WellFormed(CreateAssessment(db, caller, classId, name, weight).value.db)
    ensures ClassExists(db, classId)
  {
    var r := CreateAssessment(db, caller, classId, name, weight).value;
    assert Ids(r.db.assessments, AssessmentId) == Ids(db.assessments, AssessmentId) + [r.row.id];
    AppendFreshId(Ids(db.assessments, AssessmentId), db.nextAssessmentId);
    if caller.role == Teacher {
      var c :| c in db.classes && c.id == classId && c.teacherId == caller.userId;
    }
    forall m | m in r.db.marks
      ensures AssessmentExists(r.db, m.assessmentId)
    {
      var a :| a in db.assessments && a.id == m.assessmentId;
      assert a in r.db.assessments;
    }
  }

  /** Adding a mark keeps the store well formed; in particular the new mark
      belongs to an existing assessment. */
  lemma AddMarkKeepsWellFormed(db: Db, caller: Caller, assessmentId: int, studentId: int, components: Components)
    requires WellFormed(db)
    requires AddMark(db, caller, assessmentId, studentId, components).Ok?
    ensures WellFormed(AddMark(db, caller, assessmentId, studentId, components).value.db)
    ensures AssessmentExists(db, assessmentId)
  {
    if caller.role == Teacher {
      var a, c :| a in db.assessments && c in db.classes
        && a.id == assessmentId && a.classId == c.id && c.teacherId == caller.userId;
    }
  }

  /** After a teacher creates a class, the class shows in that teacher's list
      and in the admin list, and no other teacher's list changes. */
  lemma CreatedClassVisibility(db: Db, owner: int, name: string, description: string, other: int, admin: int)
    requires CreateClass(db, Caller(owner, Teacher), name, description).Ok?
    requires other != owner
    ensures var after := CreateClass(db, Caller(owner, Teacher), name, description).value;
      && after.row in ListClasses(after.db, Caller(owner, Teacher)).value
      && after.row in ListClasses(after.db, Caller(admin, Admin)).value
      && ListClasses(after.db, Caller(other, Teacher)) == ListClasses(db, Caller(other, Teacher))
  {
    var after := CreateClass(db, Caller(owner, Teacher), name, description).value;
    var p := (c: ClassRow) => c.teacherId == other;
    FilterAppend(db.classes, [after.row], p);
    assert Filter([after.row], p) == [];
    assert TaughtBy(after.db.classes, other) == TaughtBy(db.classes, other);
  }

  /** A class an admin creates is owned by the admin, so no teacher (whose
      user id necessarily differs) may list or add its assessments. */
  lemma AdminCreatedClassLocksOutTeachers(
    db: Db, admin: int, name: string, description: string,
    teacher: int, aName: string, weight: int)
    requires WellFormed(db)
    requires teacher != admin
    ensures var after := CreateClass(db, Caller(admin, Admin), name, description).value;
      && after.row.teacherId == admin
      && ListAssessments(after.db, Caller(teacher, Teacher), after.row.id) == Err(StatusForbidden)
      && CreateAssessment(after.db, Caller(teacher, Teacher), after.row.id, aName, weight) == Err(StatusForbidden)
  {
    var after := CreateClass(db, Caller(admin, Admin), name, description).value;
    CreateClassKeepsWellFormed(db, Caller(admin, Admin), name, description);
    if OwnsClass(after.db, teacher, after.row.id) {
      var c :| c in after.db.classes && c.id == after.row.id && c.teacherId == teacher;
      assert after.row in after.db.classes;
      ClassIdUnique(after.db, c, after.row);
      assert false;
    }
  }

  /** Only the "teacher" and "student" claims are checked by the assessment
      list: an admin, and a caller whose claim is none of the three known
      role names, list the assessments of any class. */
  lemma UncheckedRolesListAssessments(db: Db, userId: int, claim: string, classId: int)
    requires claim != "teacher" && claim != "student"
    ensures ListAssessments(db, Caller(userId, ParseRole(claim)), classId).Ok?
  {
  }

  /** For an assessment that does not exist, a teacher is refused while an
      admin and a student are answered with an empty list. */
  lemma MissingAssessmentMarks(db: Db, userId: int, assessmentId: int)
    requires WellFormed(db)
    requires !AssessmentExists(db, assessmentId)
    ensures ListMarks(db, Caller(userId, Teacher), assessmentId) == Err(StatusForbidden)
    ensures ListMarks(db, Caller(userId, Admin), assessmentId) == Ok(StatusOk, [])
    ensures ListMarks(db, Caller(userId, Student), assessmentId) == Ok(StatusOk, [])
  {
    forall i | 0 <= i < |db.marks|
      ensures db.marks[i].assessmentId != assessmentId
    {
      assert AssessmentExists(db, db.marks[i].assessmentId);
    }
    FilterNone(db.marks, (m: Mark) => m.assessmentId == assessmentId);
    FilterNone(db.marks, (m: Mark) => m.assessmentId == assessmentId && m.studentId == userId);
  }

  /** A student's answer is exactly the admin's answer for the same
      assessment restricted to the student's own rows, in the same order. */
  lemma StudentViewIsOwnRows(db: Db, userId: int, admin: int, assessmentId: int)
    ensures ListMarks(db, Caller(userId, Student), assessmentId).value
         == Filter(ListMarks(db, Caller(admin, Admin), assessmentId).value, (m: Mark) => m.studentId == userId)
  {
    FilterTwice(db.marks,
      (m: Mark) => m.assessmentId == assessmentId,
      (m: Mark) => m.studentId == userId,
      (m: Mark) => m.assessmentId == assessmentId && m.studentId == userId);
  }

  /** Marks are insert-only: adding a mark for the same student and
      assessment twice leaves two more rows for that pair, not one. */
  lemma AddMarkTwiceKeepsBoth(db: Db, caller: Caller, assessmentId: int, studentId: int, first: Components, second: Components)
    requires AddMark(db, caller, assessmentId, studentId, first).Ok?
    ensures var db1 := AddMark(db, caller, assessmentId, studentId, first).value.db;
      && AddMark(db1, caller, assessmentId, studentId, second).Ok?
      && var db2 := AddMark(db1, caller, assessmentId, studentId, second).value.db;
      && OwnMarks(db2, assessmentId, studentId)
         == OwnMarks(db, assessmentId, studentId)
            + [Mark(assessmentId, studentId, first), Mark(assessmentId, studentId, second)]
  {
    var db1 := AddMark(db, caller, assessmentId, studentId, first).value.db;
    if caller.role == Teacher {
      var a, c :| a in db.assessments && c in db.classes
        && a.id == assessmentId && a.classId == c.id && c.teacherId == caller.userId;
      assert a in db1.assessments && c in db1.classes;
    } else {
      var a :| a in db.assessments && a.id == assessmentId;
      assert a in db1.assessments;
    }
    var db2 := AddMark(db1, caller, assessmentId, studentId, second).value.db;
    var m1 := Mark(assessmentId, studentId, first);
    var m2 := Mark(assessmentId, studentId, second);
    var p := (m: Mark) => m.assessmentId == assessmentId && m.studentId == studentId;
    FilterAppend(db.marks, [m1], p);
    FilterAppend(db.marks + [m1], [m2], p);
    assert Filter([m1], p) == [m1];
    assert Filter([m2], p) == [m2];
  }

  /** A new assessment is appended to its class's list as every non-refused
      caller sees it; the insert refuses nobody who was admitted before. */
  lemma CreatedAssessmentListed(db: Db, caller: Caller, classId: int, name: string, weight: int, viewer: Caller)
    requires CreateAssessment(db, caller, classId, name, weight).Ok?
    ensures var after := CreateAssessment(db, caller, classId, name, weight).value;
      && (ListAssessments(after.db, viewer, classId).Ok? <==> ListAssessments(db, viewer, classId).Ok?)
      && (ListAssessments(db, viewer, classId).Ok? ==>
            ListAssessments(after.db, viewer, classId).value
            == ListAssessments(db, viewer, classId).value + [after.row])
  {
    var after := CreateAssessment(db, caller, classId, name, weight).value;
    var p := (a: Assessment) => a.classId == classId;
    FilterAppend(db.assessments, [after.row], p);
    assert Filter([after.row], p) == [after.row];
  }

  /** A new mark reaches exactly the student it is for: that student's answer
      gains the row and every other student's answer is unchanged. */
  lemma AddedMarkReachesOnlyItsStudent(db: Db, caller: Caller, assessmentId: int, studentId: int, components: Components, viewer: int)
    requires AddMark(db, caller, assessmentId, studentId, components).Ok?
    ensures var after := AddMark(db, caller, assessmentId, studentId, components).value;
      ListMarks(after.db, Caller(viewer, Student), assessmentId).value
      == ListMarks(db, Caller(viewer, Student), assessmentId).value
         + (if viewer == studentId then [after.row] else [])
  {
    var after := AddMark(db, caller, assessmentId, studentId, components).value;
    var p := (m: Mark) => m.assessmentId == assessmentId && m.studentId == viewer;
    FilterAppend(db.marks, [after.row], p);
    assert Filter([after.row], p) == (if viewer == studentId then [after.row] else []);
  }
}
