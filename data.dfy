/**
 * The relational store (UniversityApp.Infrastructure.Data): three tables and
 * the constraints its model declares. Enrollments refer to a student and to
 * a course by foreign key, deleting either principal cascades to its
 * enrollments, and the pair (StudentId, CourseId) carries a unique index.
 * Integer keys are generated by the store, one counter per table, starting
 * at 1 as the in-memory provider does.
 */
module Data {
  import opened Entities
  import opened Tables

  /** Every row's foreign key `fk` names a row of `targets` by its key `key`. */
  predicate References<T(==), U>(rows: seq<T>, fk: T -> int, targets: seq<U>, key: U -> int)
    ensures References(rows, fk, targets, key) ==> forall x | x in rows :: Has(targets, key, fk(x))
  {
    forall i :: 0 <= i < |rows| ==> Has(targets, key, fk(rows[i]))
  }

  /**
   * A cascade delete keeps a foreign key intact: after the principal with key
   * `k` and every dependent that refers to it are removed, every remaining
   * dependent still refers to a remaining principal.
   */
  lemma CascadeKeepsReferences<T, U>(rows: seq<T>, fk: T -> int, targets: seq<U>, key: U -> int, k: int)
    requires References(rows, fk, targets, key)
    ensures References(Without(rows, fk, k), fk, Without(targets, key, k), key)
  {
  }

  /** Removing dependents, whatever the column, keeps every other foreign key intact. */
  lemma RemovalKeepsReferences<T, U, K>(rows: seq<T>, col: T -> K, v: K, fk: T -> int, targets: seq<U>, key: U -> int)
    requires References(rows, fk, targets, key)
    ensures References(Without(rows, col, v), fk, targets, key)
  {
  }

  /** Adding a principal keeps references intact. */
  lemma GrowTargetsKeepsReferences<T, U>(rows: seq<T>, fk: T -> int, targets: seq<U>, key: U -> int, x: U)
    requires References(rows, fk, targets, key)
    ensures References(rows, fk, targets + [x], key)
  {
    forall i | 0 <= i < |rows| ensures Has(targets + [x], key, fk(rows[i])) {
      HasAppend(targets, key, x, fk(rows[i]));
    }
  }

  /** Replacing a principal by a row with the same key keeps references intact. */
  lemma ReplaceTargetKeepsReferences<T, U>(rows: seq<T>, fk: T -> int, targets: seq<U>, key: U -> int, j: nat, x: U)
    requires References(rows, fk, targets, key)
    requires j < |targets| && key(x) == key(targets[j])
    ensures References(rows, fk, targets[j := x], key)
  {
    forall i | 0 <= i < |rows| ensures Has(targets[j := x], key, fk(rows[i])) {
      HasReplaceSameKey(targets, key, j, x, fk(rows[i]));
    }
  }

  /** The next key each table's generator hands out. */
  datatype NextIds = NextIds(student: int, course: int, enrollment: int)

  /**
   * The store behind the REST API: the one named in-memory database that every
   * request's context opens. One instance holds the three tables and their key
   * generators, and the same instance is shared by all requests.
   */
  class ApplicationDbContext {
    var students: seq<Student>
    var courses: seq<Course>
    var enrollments: seq<Enrollment>

    var nextIds: NextIds

    /**
     * Primary keys are unique and below their generator; every enrollment's
     * StudentId and CourseId name an existing student and course.
     */
    ghost predicate Valid()
      reads this
      ensures Valid() ==>
                && !Has(students, StudentKey, nextIds.student)
                && !Has(courses, CourseKey, nextIds.course)
                && !Has(enrollments, EnrollmentKey, nextIds.enrollment)
    {
      && UniqueKeys(students, StudentKey) && KeysBelow(students, StudentKey, nextIds.student)
      && UniqueKeys(courses, CourseKey) && KeysBelow(courses, CourseKey, nextIds.course)
      && UniqueKeys(enrollments, EnrollmentKey) && KeysBelow(enrollments, EnrollmentKey, nextIds.enrollment)
      && References(enrollments, EnrolledStudent, students, StudentKey)
      && References(enrollments, EnrolledCourse, courses, CourseKey)
    }

    /** The unique index: no two enrollments share the pair (StudentId, CourseId). */
    ghost predicate UniquePairs()
      reads this
      ensures UniquePairs() ==>
                forall i, j | 0 <= i < |enrollments| && 0 <= j < |enrollments| ::
                  (enrollments[i].studentId == enrollments[j].studentId &&
                   enrollments[i].courseId == enrollments[j].courseId) ==> i == j
    {
      UniqueKeys(enrollments, EnrolledPair)
    }

    /** The database as the process first creates it: empty, with generators at 1. */
    constructor ()
      ensures Valid() && UniquePairs()
      ensures students == [] && courses == [] && enrollments == []
      ensures nextIds == NextIds(1, 1, 1)
    {
      students, courses, enrollments := [], [], [];
      nextIds := NextIds(1, 1, 1);
    }
  }
}
