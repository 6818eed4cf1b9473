/** The request pipeline of the server: `authenticateToken` in front of every
    data route, then the route's handler. Express routing itself is not
    modelled; a request names its route directly. */
module Routes {
  import opened Wrappers
  import opened Auth
  import opened Store
  import opened Handlers
  import HandlerFacts

  /** A request to one of the six data routes, with its path parameters and
      body fields. */
  datatype Request =
    | GetClasses
    | PostClass(name: string, description: string)
    | GetAssessments(classId: int)
    | PostAssessment(classId: int, name: string, weight: int)
    | PostMark(assessmentId: int, studentId: int, components: Components)
    | GetMarks(assessmentId: int)
  {
    predicate IsRead()
    {
      GetClasses? || GetAssessments? || GetMarks?
    }
  }

  /** The JSON body of an answer. */
  datatype Body =
    | ClassList(classes: seq<ClassRow>)
    | AssessmentList(assessments: seq<Assessment>)
    | MarkList(marks: seq<Mark>)
    | NewClass(classRow: ClassRow)
    | NewAssessment(assessment: Assessment)
    | NewMark(mark: Mark)
    | NoBody

  /** The status, body and store after serving one request. */
  datatype Response = Response(code: int, body: Body, db: Db)

  /** Serves one request against `db` for the given Authorization header. */
  function Serve(db: Db, header: Option<string>, verify: string -> Option<Claims>, req: Request): (r: Response)
    ensures Authenticate(header, verify).Err? ==>
      r == Response(Authenticate(header, verify).code, NoBody, db)
    ensures req.IsRead() ==> r.db == db
    ensures r.db != db <==> r.code == StatusCreated
    ensures r.db != db ==>
      Authenticate(header, verify).Ok? && Authenticate(header, verify).value.role in Staff
  {
    match Authenticate(header, verify)
    case Err(code) => Response(code, NoBody, db)
    case Ok(_, caller) =>
      match req
      case GetClasses =>
        (match ListClasses(db, caller)
         case Ok(code, rows) => Response(code, ClassList(rows), db)
         case Err(code) => Response(code, NoBody, db))
      case GetAssessments(classId) =>
        (match ListAssessments(db, caller, classId)
         case Ok(code, rows) => Response(code, AssessmentList(rows), db)
         case Err(code) => Response(code, NoBody, db))
      case GetMarks(assessmentId) =>
        (match ListMarks(db, caller, assessmentId)
         case Ok(code, rows) => Response(code, MarkList(rows), db)
         case Err(code) => Response(code, NoBody, db))
      case PostClass(name, description) =>
        (match CreateClass(db, caller, name, description)
         case Ok(code, created) =>
           assert |created.db.classes| == |db.classes| + 1;
           Response(code, NewClass(created.row), created.db)
         case Err(code) => Response(code, NoBody, db))
      case PostAssessment(classId, name, weight) =>
        (match CreateAssessment(db, caller, classId, name, weight)
         case Ok(code, created) =>
           assert |created.db.assessments| == |db.assessments| + 1;
           Response(code, NewAssessment(created.row), created.db)
         case Err(code) => Response(code, NoBody, db))
      case PostMark(assessmentId, studentId, components) =>
        (match AddMark(db, caller, assessmentId, studentId, components)
         case Ok(code, created) =>
           assert |created.db.marks| == |db.marks| + 1;
           Response(code, NewMark(created.row), created.db)
         case Err(code) => Response(code, NoBody, db))
  }

  /** Every request, whoever sends it, leaves a well-formed store well formed. */
  lemma ServeKeepsWellFormed(db: Db, header: Option<string>, verify: string -> Option<Claims>, req: Request)
    requires WellFormed(db)
    ensures WellFormed(Serve(db, header, verify, req).db)
  {
    match Authenticate(header, verify)
    case Err(_) =>
    case Ok(_, caller) =>
      match req
      case PostClass(name, description) =>
        if CreateClass(db, caller, name, description).Ok? {
          HandlerFacts.CreateClassKeepsWellFormed(db, caller, name, description);
        }
      case PostAssessment(classId, name, weight) =>
        if CreateAssessment(db, caller, classId, name, weight).Ok? {
          HandlerFacts.CreateAssessmentKeepsWellFormed(db, caller, classId, name, weight);
        }
      case PostMark(assessmentId, studentId, components) =>
        if AddMark(db, caller, assessmentId, studentId, components).Ok? {
          HandlerFacts.AddMarkKeepsWellFormed(db, caller, assessmentId, studentId, components);
        }
      case _ =>
  }

  /** A client that sends `Bearer ${token}` with a token whose verified
      role claim is "student" can read but never write. */
  lemma StudentNeverWrites(db: Db, token: string, verify: string -> Option<Claims>, userId: int, req: Request)
    requires token != [] && ' ' !in token
    requires verify(token) == Some(Claims(userId, "student"))
    ensures Serve(db, Some("Bearer " + token), verify, req).db == db
    ensures !req.IsRead() ==> Serve(db, Some("Bearer " + token), verify, req).code == StatusForbidden
  {
    BearerRoundTrip(token);
  }

  /** A token whose verified role claim is "admin" is served as an admin:
      the class list is every class. */
  lemma AdminClaimListsEveryClass(db: Db, token: string, verify: string -> Option<Claims>, userId: int)
    requires token != [] && ' ' !in token
    requires verify(token) == Some(Claims(userId, "admin"))
    ensures Serve(db, Some("Bearer " + token), verify, GetClasses) == Response(StatusOk, ClassList(db.classes), db)
  {
    BearerRoundTrip(token);
  }
}
