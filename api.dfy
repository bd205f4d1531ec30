/**
 * The endpoints of the REST API (UniversityApp.Api.Rest, Program.cs): the
 * credential gate of the token endpoint and the Students, Courses and
 * Enrollments handlers over the store. Each handler receives the store as
 * the C# lambdas receive their `ApplicationDbContext`; the GET handlers only
 * read it and are functions, the POST, PUT and DELETE handlers are methods
 * that change it. A handler that fails returns before anything is saved, so
 * a failing call leaves the store as it was.
 */
module Api {
  import opened Wrappers
  import opened Entities
  import opened Tables
  import opened Data
  import opened Text
  import opened Users

  /** Why a write was refused. */
  datatype Reason =
    | UnknownStudent(studentId: int)
    | UnknownCourse(courseId: int)
    | Duplicate(studentId: int, courseId: int)

  /** The results the entity handlers produce (200, 201, 204, 404, 400, 409). */
  datatype Reply<+T> =
    | Ok(body: T)
    | Created(body: T)
    | NoContent
    | NotFound
    | BadRequest(reason: Reason)
    | Conflict(reason: Reason)

  // ===== Security: the token endpoint =====

  /** The claims a token carries: subject, name, role and a fresh token id. */
  datatype Claims = Claims(subject: string, name: string, role: string, tokenId: string)

  /** The result of the token endpoint: 401, or a token with these claims. */
  datatype TokenReply = Unauthorized | Issued(claims: Claims)

  /**
   * The decision of `POST /security/generatetoken`: refuse unless the
   * credentials are valid, otherwise issue a token for the user with the
   * role the credential table gives. `tokenId` is the freshly generated GUID.
   */
  function GenerateToken(username: string, password: string, tokenId: string): (r: TokenReply)
    ensures r.Unauthorized? <==> !AuthorizeUser(username, password)
    ensures r.Issued? ==> r.claims.subject == username && r.claims.name == username
    ensures r.Issued? ==> r.claims.role == GetRole(username) && r.claims.tokenId == tokenId
  {
    if !AuthorizeUser(username, password) then Unauthorized
    else Issued(Claims(username, username, GetRole(username), tokenId))
  }

  /**
   * Because the gate runs first, the default role of `GetRole` is never
   * issued: a token goes only to a known user, with that user's stored role.
   */
  lemma IssuedRoleIsStoredRole(username: string, password: string, tokenId: string)
    requires GenerateToken(username, password, tokenId).Issued?
    ensures username in Accounts && password == Accounts[username].password
    ensures GenerateToken(username, password, tokenId).claims.role == Accounts[username].role
  {
  }

  /** Exactly the two seeded logins obtain a token, and only "wsei" obtains the role "Admin". */
  lemma TokensForSeededAccounts(username: string, password: string, tokenId: string)
    ensures GenerateToken(username, password, tokenId).Issued? <==>
            (username == "wsei" && password == "wsei") || (username == "student" && password == "student")
    ensures GenerateToken(username, password, tokenId).Issued? ==>
            (GenerateToken(username, password, tokenId).claims.role == "Admin" <==> username == "wsei")
  {
  }

  // ===== Students =====

  /** `GET /students`: every student, in table order. */
  function ListStudents(db: ApplicationDbContext): (r: Reply<seq<Student>>)
    reads db
    ensures r.Ok? && r.body == db.students
  {
    Ok(db.students)
  }

  /** `GET /students/{id}`: the student with that id, or 404. */
  function GetStudent(db: ApplicationDbContext, id: int): (r: Reply<Student>)
    reads db
    requires db.Valid()
    ensures r.Ok? || r.NotFound?
    ensures r.NotFound? <==> !Has(db.students, StudentKey, id)
    ensures r.Ok? ==> r.body in db.students && r.body.id == id
  {
    match Find(db.students, StudentKey, id)
    case None => NotFound
    case Some(i) => Ok(db.students[i])
  }

  /** `POST /students`: a new student under a fresh generated id. */
  method CreateStudent(db: ApplicationDbContext, name: string, email: string) returns (r: Reply<Student>)
    requires db.Valid()
    modifies db
    ensures db.Valid() && db.UniquePairs() == old(db.UniquePairs())
    ensures r == Created(Student(old(db.nextIds.student), name, email))
    ensures !Has(old(db.students), StudentKey, r.body.id)
    ensures db.students == old(db.students) + [r.body]
    ensures db.nextIds == old(db.nextIds).(student := old(db.nextIds.student) + 1)
    ensures db.courses == old(db.courses) && db.enrollments == old(db.enrollments)
  {
    var s := Student(db.nextIds.student, name, email);
    UniqueAppend(db.students, StudentKey, s);
    GrowTargetsKeepsReferences(db.enrollments, EnrolledStudent, db.students, StudentKey, s);
    db.students := db.students + [s];
    db.nextIds := db.nextIds.(student := db.nextIds.student + 1);
    r := Created(s);
  }

  /**
   * `PUT /students/{id}`: a partial update. Name and Email are overwritten
   * only by a supplied value that is not null, empty or white space.
   */
  method UpdateStudent(db: ApplicationDbContext, id: int, name: Option<string>, email: Option<string>)
    returns (r: Reply<Student>)
    requires db.Valid()
    modifies db
    ensures db.Valid() && db.UniquePairs() == old(db.UniquePairs())
    ensures r.Ok? || r.NotFound?
    ensures r.NotFound? <==> !Has(old(db.students), StudentKey, id)
    ensures r.NotFound? ==> unchanged(db)
    ensures r.Ok? ==>
              var k := Find(old(db.students), StudentKey, id).value;
              var s := old(db.students)[k];
              && r.body.id == id == s.id
              && r.body.name == (if IsNullOrWhiteSpace(name) then s.name else name.value)
              && r.body.email == (if IsNullOrWhiteSpace(email) then s.email else email.value)
              && db.students == old(db.students)[k := r.body]
    ensures db.courses == old(db.courses) && db.enrollments == old(db.enrollments)
    ensures db.nextIds == old(db.nextIds)
  {
    var found := Find(db.students, StudentKey, id);
    if found.None? {
      return NotFound;
    }
    var k := found.value;
    var s := db.students[k];
    if !IsNullOrWhiteSpace(name) {
      s := s.(name := name.value);
    }
    if !IsNullOrWhiteSpace(email) {
      s := s.(email := email.value);
    }
    UniqueReplace(db.students, StudentKey, k, s);
    ReplaceTargetKeepsReferences(db.enrollments, EnrolledStudent, db.students, StudentKey, k, s);
    db.students := db.students[k := s];
    r := Ok(s);
  }

  /**
   * `DELETE /students/{id}`: removes that student and, by the cascade on
   * Enrollment.StudentId, exactly the enrollments that refer to it.
   */
  method DeleteStudent(db: ApplicationDbContext, id: int) returns (r: Reply<()>)
    requires db.Valid()
    modifies db
    ensures db.Valid()
    ensures old(db.UniquePairs()) ==> db.UniquePairs()
    ensures r.NoContent? || r.NotFound?
    ensures r.NotFound? <==> !Has(old(db.students), StudentKey, id)
    ensures r.NotFound? ==> unchanged(db)
    ensures r.NoContent? ==>
              && db.students == Without(old(db.students), StudentKey, id)
              && |db.students| == |old(db.students)| - 1
              && db.enrollments == Without(old(db.enrollments), EnrolledStudent, id)
              && db.courses == old(db.courses) && db.nextIds == old(db.nextIds)
  {
    var found := Find(db.students, StudentKey, id);
    if found.None? {
      return NotFound;
    }
    var k := found.value;
    WithoutRemovesOne(db.students, StudentKey, k);
    WithoutKeepsUnique(db.students, StudentKey, id, StudentKey);
    WithoutKeepsBelow(db.students, StudentKey, id, StudentKey, db.nextIds.student);
    WithoutKeepsUnique(db.enrollments, EnrolledStudent, id, EnrollmentKey);
    WithoutKeepsBelow(db.enrollments, EnrolledStudent, id, EnrollmentKey, db.nextIds.enrollment);
    if db.UniquePairs() {
      WithoutKeepsUnique(db.enrollments, EnrolledStudent, id, EnrolledPair);
    }
    CascadeKeepsReferences(db.enrollments, EnrolledStudent, db.students, StudentKey, id);
    RemovalKeepsReferences(db.enrollments, EnrolledStudent, id, EnrolledCourse, db.courses, CourseKey);
    db.students := db.students[..k] + db.students[k + 1..];
    db.enrollments := Without(db.enrollments, EnrolledStudent, id);
    r := NoContent;
  }

  // ===== Courses =====

  /** `GET /courses`: every course, in table order. */
  function ListCourses(db: ApplicationDbContext): (r: Reply<seq<Course>>)
    reads db
    ensures r.Ok? && r.body == db.courses
  {
    Ok(db.courses)
  }

  /** `GET /courses/{id}`: the course with that id, or 404. */
  function GetCourse(db: ApplicationDbContext, id: int): (r: Reply<Course>)
    reads db
    requires db.Valid()
    ensures r.Ok? || r.NotFound?
    ensures r.NotFound? <==> !Has(db.courses, CourseKey, id)
    ensures r.Ok? ==> r.body in db.courses && r.body.id == id
  {
    match Find(db.courses, CourseKey, id)
    case None => NotFound
    case Some(i) => Ok(db.courses[i])
  }

  /** `POST /courses`: a new course under a fresh generated id. */
  method CreateCourse(db: ApplicationDbContext, title: string, credits: int) returns (r: Reply<Course>)
    requires db.Valid()
    modifies db
    ensures db.Valid() && db.UniquePairs() == old(db.UniquePairs())
    ensures r == Created(Course(old(db.nextIds.course), title, credits))
    ensures !Has(old(db.courses), CourseKey, r.body.id)
    ensures db.courses == old(db.courses) + [r.body]
    ensures db.nextIds == old(db.nextIds).(course := old(db.nextIds.course) + 1)
    ensures db.students == old(db.students) && db.enrollments == old(db.enrollments)
  {
    var c := Course(db.nextIds.course, title, credits);
    UniqueAppend(db.courses, CourseKey, c);
    GrowTargetsKeepsReferences(db.enrollments, EnrolledCourse, db.courses, CourseKey, c);
    db.courses := db.courses + [c];
    db.nextIds := db.nextIds.(course := db.nextIds.course + 1);
    r := Created(c);
  }

  /**
   * `PUT /courses/{id}`: a partial update. Title is overwritten only by a
   * value that is not null, empty or white space; Credits only when supplied.
   */
  method UpdateCourse(db: ApplicationDbContext, id: int, title: Option<string>, credits: Option<int>)
    returns (r: Reply<Course>)
    requires db.Valid()
    modifies db
    ensures db.Valid() && db.UniquePairs() == old(db.UniquePairs())
    ensures r.Ok? || r.NotFound?
    ensures r.NotFound? <==> !Has(old(db.courses), CourseKey, id)
    ensures r.NotFound? ==> unchanged(db)
    ensures r.Ok? ==>
              var k := Find(old(db.courses), CourseKey, id).value;
              var c := old(db.courses)[k];
              && r.body.id == id == c.id
              && r.body.title == (if IsNullOrWhiteSpace(title) then c.title else title.value)
              && r.body.credits == credits.GetOr(c.credits)
              && db.courses == old(db.courses)[k := r.body]
    ensures db.students == old(db.students) && db.enrollments == old(db.enrollments)
    ensures db.nextIds == old(db.nextIds)
  {
    var found := Find(db.courses, CourseKey, id);
    if found.None? {
      return NotFound;
    }
    var k := found.value;
    var c := db.courses[k];
    if !IsNullOrWhiteSpace(title) {
      c := c.(title := title.value);
    }
    if credits.Some? {
      c := c.(credits := credits.value);
    }
    UniqueReplace(db.courses, CourseKey, k, c);
    ReplaceTargetKeepsReferences(db.enrollments, EnrolledCourse, db.courses, CourseKey, k, c);
    db.courses := db.courses[k := c];
    r := Ok(c);
  }

  /**
   * `DELETE /courses/{id}`: removes that course and, by the cascade on
   * Enrollment.CourseId, exactly the enrollments that refer to it.
   */
  method DeleteCourse(db: ApplicationDbContext, id: int) returns (r: Reply<()>)
    requires db.Valid()
    modifies db
    ensures db.Valid()
    ensures old(db.UniquePairs()) ==> db.UniquePairs()
    ensures r.NoContent? || r.NotFound?
    ensures r.NotFound? <==> !Has(old(db.courses), CourseKey, id)
    ensures r.NotFound? ==> unchanged(db)
    ensures r.NoContent? ==>
              && db.courses == Without(old(db.courses), CourseKey, id)
              && |db.courses| == |old(db.courses)| - 1
              && db.enrollments == Without(old(db.enrollments), EnrolledCourse, id)
              && db.students == old(db.students) && db.nextIds == old(db.nextIds)
  {
    var found := Find(db.courses, CourseKey, id);
    if found.None? {
      return NotFound;
    }
    var k := found.value;
    WithoutRemovesOne(db.courses, CourseKey, k);
    WithoutKeepsUnique(db.courses, CourseKey, id, CourseKey);
    WithoutKeepsBelow(db.courses, CourseKey, id, CourseKey, db.nextIds.course);
    WithoutKeepsUnique(db.enrollments, EnrolledCourse, id, EnrollmentKey);
    WithoutKeepsBelow(db.enrollments, EnrolledCourse, id, EnrollmentKey, db.nextIds.enrollment);
    if db.UniquePairs() {
      WithoutKeepsUnique(db.enrollments, EnrolledCourse, id, EnrolledPair);
    }
    CascadeKeepsReferences(db.enrollments, EnrolledCourse, db.courses, CourseKey, id);
    RemovalKeepsReferences(db.enrollments, EnrolledCourse, id, EnrolledStudent, db.students, StudentKey);
    db.courses := db.courses[..k] + db.courses[k + 1..];
    db.enrollments := Without(db.enrollments, EnrolledCourse, id);
    r := NoContent;
  }

  // ===== Enrollments =====

  /** An enrollment as the GET handlers return it, with the student's name and the course's title. */
  datatype EnrollmentView = EnrollmentView(
    id: int, studentId: int, studentName: string, courseId: int, courseTitle: string, enrolledAt: Timestamp)

  /**
   * The joined view of one enrollment: its own columns, plus the name of the
   * student and the title of the course it refers to.
   */
  function Describe(e: Enrollment, students: seq<Student>, courses: seq<Course>): (v: EnrollmentView)
    requires Has(students, StudentKey, e.studentId) && Has(courses, CourseKey, e.courseId)
    ensures v.id == e.id && v.studentId == e.studentId && v.courseId == e.courseId
    ensures v.enrolledAt == e.enrolledAt
    ensures UniqueKeys(students, StudentKey) ==>
              forall j :: 0 <= j < |students| && students[j].id == e.studentId ==> v.studentName == students[j].name
    ensures UniqueKeys(courses, CourseKey) ==>
              forall j :: 0 <= j < |courses| && courses[j].id == e.courseId ==> v.courseTitle == courses[j].title
  {
    var s := students[Find(students, StudentKey, e.studentId).value];
    var c := courses[Find(courses, CourseKey, e.courseId).value];
    EnrollmentView(e.id, e.studentId, s.name, e.courseId, c.title, e.enrolledAt)
  }

  /** `GET /enrollments`: every enrollment, in table order, joined with its student and course. */
  function ListEnrollments(db: ApplicationDbContext): (r: Reply<seq<EnrollmentView>>)
    reads db
    requires db.Valid()
    ensures r.Ok? && |r.body| == |db.enrollments|
    ensures forall i :: 0 <= i < |db.enrollments| ==>
              r.body[i] == Describe(db.enrollments[i], db.students, db.courses)
  {
    var es, ss, cs := db.enrollments, db.students, db.courses;
    Ok(seq(|es|, i requires 0 <= i < |es| => Describe(es[i], ss, cs)))
  }

  /** `GET /enrollments/{id}`: the joined view of the enrollment with that id, or 404. */
  function GetEnrollment(db: ApplicationDbContext, id: int): (r: Reply<EnrollmentView>)
    reads db
    requires db.Valid()
    ensures r.Ok? || r.NotFound?
    ensures r.NotFound? <==> !Has(db.enrollments, EnrollmentKey, id)
    ensures r.Ok? ==> exists i :: 0 <= i < |db.enrollments| && db.enrollments[i].id == id &&
                                  r.body == Describe(db.enrollments[i], db.students, db.courses)
  {
    match Find(db.enrollments, EnrollmentKey, id)
    case None => NotFound
    case Some(i) => Ok(Describe(db.enrollments[i], db.students, db.courses))
  }

  /** What each list endpoint returns is what the get endpoint returns for that row's id. */
  lemma ListAgreesWithGet(db: ApplicationDbContext)
    requires db.Valid()
    ensures forall i :: 0 <= i < |db.students| ==> GetStudent(db, db.students[i].id) == Ok(ListStudents(db).body[i])
    ensures forall i :: 0 <= i < |db.courses| ==> GetCourse(db, db.courses[i].id) == Ok(ListCourses(db).body[i])
    ensures forall i :: 0 <= i < |db.enrollments| ==>
              GetEnrollment(db, db.enrollments[i].id) == Ok(ListEnrollments(db).body[i])
  {
  }

  /**
   * `POST /enrollments`: three checks in order (the student exists, the
   * course exists, the pair is not enrolled yet), then one new row under a
   * fresh id, stamped with `now`.
   */
  method CreateEnrollment(db: ApplicationDbContext, studentId: int, courseId: int, now: Timestamp)
    returns (r: Reply<Enrollment>)
    requires db.Valid()
    modifies db
    ensures db.Valid()
    ensures old(db.UniquePairs()) ==> db.UniquePairs()
    ensures !Has(old(db.students), StudentKey, studentId) ==> r == BadRequest(UnknownStudent(studentId))
    ensures Has(old(db.students), StudentKey, studentId) && !Has(old(db.courses), CourseKey, courseId) ==>
              r == BadRequest(UnknownCourse(courseId))
    ensures Has(old(db.students), StudentKey, studentId) && Has(old(db.courses), CourseKey, courseId) &&
            Has(old(db.enrollments), EnrolledPair, (studentId, courseId)) ==>
              r == Conflict(Duplicate(studentId, courseId))
    ensures Has(old(db.students), StudentKey, studentId) && Has(old(db.courses), CourseKey, courseId) &&
            !Has(old(db.enrollments), EnrolledPair, (studentId, courseId)) ==>
              r == Created(Enrollment(old(db.nextIds.enrollment), studentId, courseId, now))
    ensures !r.Created? ==> unchanged(db)
    ensures r.Created? ==>
              && !Has(old(db.enrollments), EnrollmentKey, r.body.id)
              && db.enrollments == old(db.enrollments) + [r.body]
              && db.nextIds == old(db.nextIds).(enrollment := old(db.nextIds.enrollment) + 1)
              && db.students == old(db.students) && db.courses == old(db.courses)
  {
    if Find(db.students, StudentKey, studentId).None? {
      return BadRequest(UnknownStudent(studentId));
    }
    if Find(db.courses, CourseKey, courseId).None? {
      return BadRequest(UnknownCourse(courseId));
    }
    if Find(db.enrollments, EnrolledPair, (studentId, courseId)).Some? {
      return Conflict(Duplicate(studentId, courseId));
    }
    var e := Enrollment(db.nextIds.enrollment, studentId, courseId, now);
    UniqueAppend(db.enrollments, EnrollmentKey, e);
    if db.UniquePairs() {
      UniqueAppend(db.enrollments, EnrolledPair, e);
    }
    forall i | 0 <= i < |db.enrollments + [e]|
      ensures Has(db.students, StudentKey, (db.enrollments + [e])[i].studentId)
      ensures Has(db.courses, CourseKey, (db.enrollments + [e])[i].courseId)
    {
      if i < |db.enrollments| {
        assert (db.enrollments + [e])[i] == db.enrollments[i];
      }
    }
    db.enrollments := db.enrollments + [e];
    db.nextIds := db.nextIds.(enrollment := db.nextIds.enrollment + 1);
    r := Created(e);
  }

  /**
   * `PUT /enrollments/{id}`: a partial update of StudentId and CourseId, each
   * checked for existence when supplied, the student first. The pair is not
   * checked against the other enrollments, so the unique index survives the
   * update exactly when no other enrollment already holds the new pair.
   * Id and EnrolledAt never change.
   */
  method UpdateEnrollment(db: ApplicationDbContext, id: int, studentId: Option<int>, courseId: Option<int>)
    returns (r: Reply<Enrollment>)
    requires db.Valid()
    modifies db
    ensures db.Valid()
    ensures r.Ok? || r.NotFound? || r.BadRequest?
    ensures r.NotFound? <==> !Has(old(db.enrollments), EnrollmentKey, id)
    ensures Has(old(db.enrollments), EnrollmentKey, id) &&
            studentId.Some? && !Has(old(db.students), StudentKey, studentId.value) ==>
              r == BadRequest(UnknownStudent(studentId.value))
    ensures Has(old(db.enrollments), EnrollmentKey, id) &&
            (studentId.None? || Has(old(db.students), StudentKey, studentId.value)) &&
            courseId.Some? && !Has(old(db.courses), CourseKey, courseId.value) ==>
              r == BadRequest(UnknownCourse(courseId.value))
    ensures Has(old(db.enrollments), EnrollmentKey, id) &&
            (studentId.None? || Has(old(db.students), StudentKey, studentId.value)) &&
            (courseId.None? || Has(old(db.courses), CourseKey, courseId.value)) ==>
              r.Ok?
    ensures !r.Ok? ==> unchanged(db)
    ensures r.Ok? ==>
              var k := Find(old(db.enrollments), EnrollmentKey, id).value;
              var e := old(db.enrollments)[k];
              && r.body == Enrollment(e.id, studentId.GetOr(e.studentId), courseId.GetOr(e.courseId), e.enrolledAt)
              && db.enrollments == old(db.enrollments)[k := r.body]
              && (old(db.UniquePairs()) ==>
                    (db.UniquePairs() <==>
                       forall j :: 0 <= j < |old(db.enrollments)| && j != k ==>
                                     EnrolledPair(old(db.enrollments)[j]) != EnrolledPair(r.body)))
    ensures db.students == old(db.students) && db.courses == old(db.courses)
    ensures db.nextIds == old(db.nextIds)
  {
    var found := Find(db.enrollments, EnrollmentKey, id);
    if found.None? {
      return NotFound;
    }
    var k := found.value;
    var e := db.enrollments[k];
    if studentId.Some? {
      if Find(db.students, StudentKey, studentId.value).None? {
        return BadRequest(UnknownStudent(studentId.value));
      }
      e := e.(studentId := studentId.value);
    }
    if courseId.Some? {
      if Find(db.courses, CourseKey, courseId.value).None? {
        return BadRequest(UnknownCourse(courseId.value));
      }
      e := e.(courseId := courseId.value);
    }
    UniqueReplace(db.enrollments, EnrollmentKey, k, e);
    if db.UniquePairs() {
      UniqueReplace(db.enrollments, EnrolledPair, k, e);
    }
    db.enrollments := db.enrollments[k := e];
    r := Ok(e);
  }

  /** `DELETE /enrollments/{id}`: removes that one enrollment. */
  method DeleteEnrollment(db: ApplicationDbContext, id: int) returns (r: Reply<()>)
    requires db.Valid()
    modifies db
    ensures db.Valid()
    ensures old(db.UniquePairs()) ==> db.UniquePairs()
    ensures r.NoContent? || r.NotFound?
    ensures r.NotFound? <==> !Has(old(db.enrollments), EnrollmentKey, id)
    ensures r.NotFound? ==> unchanged(db)
    ensures r.NoContent? ==>
              && db.enrollments == Without(old(db.enrollments), EnrollmentKey, id)
              && |db.enrollments| == |old(db.enrollments)| - 1
              && db.students == old(db.students) && db.courses == old(db.courses)
              && db.nextIds == old(db.nextIds)
  {
    var found := Find(db.enrollments, EnrollmentKey, id);
    if found.None? {
      return NotFound;
    }
    var k := found.value;
    WithoutRemovesOne(db.enrollments, EnrollmentKey, k);
    WithoutKeepsUnique(db.enrollments, EnrollmentKey, id, EnrollmentKey);
    WithoutKeepsBelow(db.enrollments, EnrollmentKey, id, EnrollmentKey, db.nextIds.enrollment);
    if db.UniquePairs() {
      WithoutKeepsUnique(db.enrollments, EnrollmentKey, id, EnrolledPair);
    }
    RemovalKeepsReferences(db.enrollments, EnrollmentKey, id, EnrolledStudent, db.students, StudentKey);
    RemovalKeepsReferences(db.enrollments, EnrollmentKey, id, EnrolledCourse, db.courses, CourseKey);
    db.enrollments := db.enrollments[..k] + db.enrollments[k + 1..];
    r := NoContent;
  }

  // ===== Two scenarios over the handlers =====

  /**
   * Posting the same existing student and course twice: the second post is a
   * conflict, and the first is created exactly when the pair was new. Either
   * way exactly one row holds the pair afterwards when the index held before.
   */
  method EnrollTwice(db: ApplicationDbContext, studentId: int, courseId: int, first: Timestamp, second: Timestamp)
    returns (r1: Reply<Enrollment>, r2: Reply<Enrollment>)
    requires db.Valid()
    requires Has(db.students, StudentKey, studentId) && Has(db.courses, CourseKey, courseId)
    modifies db
    ensures db.Valid()
    ensures r1.Created? <==> !Has(old(db.enrollments), EnrolledPair, (studentId, courseId))
    ensures r2 == Conflict(Duplicate(studentId, courseId))
    ensures Has(db.enrollments, EnrolledPair, (studentId, courseId))
    ensures old(db.UniquePairs()) ==> db.UniquePairs()
    ensures r1.Created? ==> db.enrollments == old(db.enrollments) + [r1.body]
    ensures !r1.Created? ==> db.enrollments == old(db.enrollments)
    ensures db.students == old(db.students) && db.courses == old(db.courses)
  {
    r1 := CreateEnrollment(db, studentId, courseId, first);
    if r1.Created? {
      HasAppend(old(db.enrollments), EnrolledPair, r1.body, (studentId, courseId));
    }
    r2 := CreateEnrollment(db, studentId, courseId, second);
  }

  /**
   * Moving an enrollment onto a course its student already takes succeeds and
   * leaves two enrollments with the same pair.
   */
  method UpdateRepeatsPair() returns (db: ApplicationDbContext, r: Reply<Enrollment>)
    ensures db.Valid() && r.Ok?
    ensures !db.UniquePairs()
  {
    db := OneStudentTwoCourses();
    assert StudentKey(db.students[0]) == 1;
    assert CourseKey(db.courses[0]) == 1 && CourseKey(db.courses[1]) == 2;
    var e1 := CreateEnrollment(db, 1, 1, 0);
    assert db.enrollments == [Enrollment(1, 1, 1, 0)];
    var e2 := CreateEnrollment(db, 1, 2, 0);
    assert db.enrollments == [Enrollment(1, 1, 1, 0), Enrollment(2, 1, 2, 0)];
    r := UpdateEnrollment(db, 2, None, Some(1));
    assert db.enrollments == [Enrollment(1, 1, 1, 0), Enrollment(2, 1, 1, 0)];
  }

  /** The store the scenario above starts from: student 1, courses 1 and 2, no enrollments. */
  method OneStudentTwoCourses() returns (db: ApplicationDbContext)
    ensures fresh(db) && db.Valid() && db.UniquePairs()
    ensures db.students == [Student(1, "Ann", "ann@x.com")]
    ensures db.courses == [Course(1, "Logic", 5), Course(2, "Algebra", 5)]
    ensures db.enrollments == [] && db.nextIds == NextIds(2, 3, 1)
  {
    db := new ApplicationDbContext();
    var s := CreateStudent(db, "Ann", "ann@x.com");
    var c1 := CreateCourse(db, "Logic", 5);
    var c2 := CreateCourse(db, "Algebra", 5);
  }
}
