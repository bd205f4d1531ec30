/**
 * The records of the domain layer (UniversityApp.Domain.Entities).
 * They carry no behaviour; the key functions below name the columns that
 * the store's lookups, foreign keys and indexes are built on.
 */
module Entities {

  /** A point in time (`DateTime` in UTC); the model treats it as an opaque number. */
  type Timestamp = int

  datatype Student = Student(id: int, name: string, email: string)

  datatype Course = Course(id: int, title: string, credits: int)

  datatype Enrollment = Enrollment(id: int, studentId: int, courseId: int, enrolledAt: Timestamp)

  /** Primary keys. */
  function StudentKey(s: Student): int { s.id }
  function CourseKey(c: Course): int { c.id }
  function EnrollmentKey(e: Enrollment): int { e.id }

  /** The two foreign-key columns of an enrollment. */
  function EnrolledStudent(e: Enrollment): int { e.studentId }
  function EnrolledCourse(e: Enrollment): int { e.courseId }

  /** The column pair of the unique index on enrollments. */
  function EnrolledPair(e: Enrollment): (int, int) { (e.studentId, e.courseId) }
}
