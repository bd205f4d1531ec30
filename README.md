# UniversityApp records store and credential gate, in Dafny

This project models the logic behind the UniversityApp REST API. The API is a small
university records system with Students, Courses and Enrollments.

- **The store** (`Data.ApplicationDbContext`) holds three tables as sequences of rows, in insertion order.
  It also holds one key generator per table; like the in-memory provider, each starts at 1 and counts up.
  Its invariant `Valid()` covers what the store's model declares and relies on:
  - primary keys are unique and below their generator, so a generated id is always fresh;
  - every enrollment's StudentId names an existing student;
  - every enrollment's CourseId names an existing course.
- **The unique index** on (StudentId, CourseId) is the separate predicate `UniquePairs()`.
  Creating an enrollment and every delete preserve it. `PUT /enrollments/{id}` does not re-check the pair.
  The model proves that this update keeps the index exactly when no other enrollment already holds the new pair.
  `Api.UpdateRepeatsPair` builds a store in which the update produces a repeated pair.
- **The handlers** of `Program.cs` are in module `Api`. They take the store as a parameter `db`. In the program each request gets
  its own scoped `ApplicationDbContext`, and every such context opens the same named in-memory database `"UniversityDb"`
  (DependencyInjection.cs:10-12). The Dafny `db` stands for that shared database, not for one request's context: the same
  object is passed to every request, so its tables and key generators carry over from one request to the next. GET handlers are functions that read the store. POST, PUT and DELETE handlers are methods that change it.
  Each returns a `Reply`: `Ok`, `Created`, `NoContent`, `NotFound`, `BadRequest(UnknownStudent | UnknownCourse)` or `Conflict(Duplicate)`.
  Every failing path returns before anything is saved, so the store is left unchanged (`unchanged(db)`).
  That includes the case where a tracked entity was already mutated, because the mutation is never saved.
- **Partial updates** overwrite a text field only when the value is not null, empty or white space.
  This is .NET's `string.IsNullOrWhiteSpace`, modelled in module `Text` with the character set of `char.IsWhiteSpace`.
  Course credits are overwritten only when a value is supplied.
- **Deletes** remove exactly the row with that id. Deleting a student or a course also cascades:
  exactly the enrollments referring to it are removed, and both foreign keys still hold afterwards.
- **The credential table** (module `Users`) is a constant map with the two seeded accounts. `AuthorizeUser` and `GetRole`
  are pure lookups over it, so neither can change it. The token endpoint is modelled as its gating decision, `Api.GenerateToken`:
  401 unless the credentials are valid; otherwise the claims are subject = name = username, role = `GetRole(username)`,
  and the given fresh token id.

Inputs the code takes from its environment are parameters: the creation time of an enrollment (`now`) and the GUID of a token (`tokenId`).
The generic helpers in module `Tables` are `Find` (the lookup behind `FindAsync`, `AnyAsync` and `SingleOrDefaultAsync`) and
`Without` (removing rows by a column value, which both `Remove` and a cascade do). They are parameterised by a named key function
from module `Entities`.

Two facts about the code that the model keeps:
- `PUT /enrollments/{id}` does not re-check the (StudentId, CourseId) pair; only `POST /enrollments` refuses a pair that is already enrolled.
- Nothing seeds the store, so it starts empty.

## Model

| member | source | states |
|---|---|---|
| Tables.Find | src/UniversityApp.Api.Rest/Program.cs:165-166 | the lookup finds nothing exactly when no row has the key; otherwise it returns the position of the first row with that key |
| Tables.Without | src/UniversityApp.Infrastructure/Data/ApplicationDbContext.cs:19-29 | the result keeps exactly the rows whose column differs from the value; it is never longer, and it is the table itself when no row matches |
| Tables.FindUnique | src/UniversityApp.Api.Rest/Program.cs:154-155 | in a table with unique keys, the lookup by a row's key returns that very row's position |
| Tables.WithoutRemovesOne | src/UniversityApp.Api.Rest/Program.cs:174-176 | with unique keys, removing by a row's key takes out exactly that one row and keeps the others in order |
| Tables.WithoutKeepsUnique | src/UniversityApp.Infrastructure/Data/ApplicationDbContext.cs:32-34 | removing rows never creates a repeated value in any column that was unique |
| Tables.UniqueAppend | src/UniversityApp.Api.Rest/Program.cs:245-249 | appending a row whose key is absent keeps the keys unique |
| Tables.UniqueReplace | src/UniversityApp.Api.Rest/Program.cs:263-271 | replacing one row keeps the keys unique exactly when no other row has the new row's key |
| Data.GrowTargetsKeepsReferences | src/UniversityApp.Api.Rest/Program.cs:156-162 | adding a principal (a new student or course) keeps every enrollment's foreign key valid |
| Data.ReplaceTargetKeepsReferences | src/UniversityApp.Api.Rest/Program.cs:163-171 | replacing a principal by a row with the same key (an updated student or course) keeps every enrollment's foreign key valid |
| Data.CascadeKeepsReferences | src/UniversityApp.Infrastructure/Data/ApplicationDbContext.cs:19-29 | after a principal and all dependents referring to it are removed, every remaining dependent refers to a remaining principal |
| Data.RemovalKeepsReferences | src/UniversityApp.Infrastructure/Data/ApplicationDbContext.cs:19-29 | removing dependents keeps every other foreign key of the remaining ones intact |
| Data.References | src/UniversityApp.Infrastructure/Data/ApplicationDbContext.cs:19-29 | every row's foreign key names a row of the target table |
| Data.ApplicationDbContext.Valid | src/UniversityApp.Infrastructure/Data/ApplicationDbContext.cs:19-29 | primary keys are unique and below their generators, so each generator's next id is unused, and both enrollment foreign keys hold |
| Data.ApplicationDbContext.UniquePairs | src/UniversityApp.Infrastructure/Data/ApplicationDbContext.cs:32-34 | no two enrollment rows share the same (StudentId, CourseId) pair |
| Tables.WithoutAppend | src/UniversityApp.Infrastructure/Data/ApplicationDbContext.cs:19-29 | removing rows from two concatenated tables removes them from each part separately, so the survivors keep their order |
| Tables.WithoutCounts | src/UniversityApp.Infrastructure/Data/ApplicationDbContext.cs:19-29 | each row that does not match is kept as often as it occurred, and each matching row is gone |
| Data.ApplicationDbContext.constructor | src/UniversityApp.Infrastructure/DependencyInjection.cs:11-12 | the named in-memory database, created once per process, starts with three empty tables, satisfies every constraint, and its key generators start at 1 |
| Users.AuthorizeUser | src/UniversityApp.Api.Rest/Services/UsersRepository.cs:12-13 | true exactly when the username is in the table and the password equals the stored one; false for every unknown username |
| Users.GetRole | src/UniversityApp.Api.Rest/Services/UsersRepository.cs:15-16 | the stored role for a known username, "User" for an unknown one |
| Users.AuthorizeUserExactly | src/UniversityApp.Api.Rest/Services/UsersRepository.cs:6-13 | exactly the logins wsei/wsei and student/student succeed |
| Users.GetRoleExactly | src/UniversityApp.Api.Rest/Services/UsersRepository.cs:6-16 | the role is "Admin" for "wsei" and "User" for every other name |
| Users.PasswordIsDetermined | src/UniversityApp.Api.Rest/Services/UsersRepository.cs:12-13 | two passwords that both log a user in are equal |
| Users.SeededAccounts | src/UniversityApp.Api.Rest/Services/UsersRepository.cs:8-9 | wsei/wsei logs in with role "Admin", student/student with role "User", and the two passwords are not interchangeable |
| Text.AllWhiteSpace | src/UniversityApp.Api.Rest/Program.cs:167-168 | true exactly when every character is white space |
| Text.IsNullOrWhiteSpace | src/UniversityApp.Api.Rest/Program.cs:167-168 | true exactly for null or a string made only of white space (so for the empty string), false when the first character is not white space |
| Text.BlankExamples | src/UniversityApp.Api.Rest/Program.cs:199 | null, "" and " \t\n" count as blank; "new@x.com" and " a " do not |
| Api.GenerateToken | src/UniversityApp.Api.Rest/Program.cs:122-133 | 401 exactly when the credentials are rejected; otherwise subject and name are the username, the role is `GetRole(username)`, the token id is the fresh one |
| Api.IssuedRoleIsStoredRole | src/UniversityApp.Api.Rest/Program.cs:124-131 | a token is issued only to a known user with the right password, and carries that user's stored role, never the default |
| Api.TokensForSeededAccounts | src/UniversityApp.Api.Rest/Program.cs:124-131 | exactly the two seeded logins receive a token, and its role is "Admin" exactly for "wsei" |
| Api.ListStudents | src/UniversityApp.Api.Rest/Program.cs:152-153 | 200 with every student in table order |
| Api.GetStudent | src/UniversityApp.Api.Rest/Program.cs:154-155 | 404 exactly when no student has the id; otherwise 200 with a stored student carrying that id |
| Api.CreateStudent | src/UniversityApp.Api.Rest/Program.cs:156-162 | 201 with a new student under the generator's fresh id, appended; the other tables are untouched; the constraints still hold |
| Api.UpdateStudent | src/UniversityApp.Api.Rest/Program.cs:163-171 | 404 and no change for an unknown id; otherwise only that row changes, keeping its id, with Name and Email replaced only by non-blank values |
| Api.DeleteStudent | src/UniversityApp.Api.Rest/Program.cs:172-179 | 404 and no change for an unknown id; otherwise exactly that student and exactly its enrollments are removed, courses untouched, constraints and the unique index kept |
| Api.ListCourses | src/UniversityApp.Api.Rest/Program.cs:184-185 | 200 with every course in table order |
| Api.GetCourse | src/UniversityApp.Api.Rest/Program.cs:186-187 | 404 exactly when no course has the id; otherwise 200 with a stored course carrying that id |
| Api.CreateCourse | src/UniversityApp.Api.Rest/Program.cs:188-194 | 201 with a new course under the generator's fresh id, appended; the other tables are untouched |
| Api.UpdateCourse | src/UniversityApp.Api.Rest/Program.cs:195-203 | 404 and no change for an unknown id; otherwise only that row changes, keeping its id, Title replaced only when non-blank and Credits only when supplied |
| Api.DeleteCourse | src/UniversityApp.Api.Rest/Program.cs:204-211 | 404 and no change for an unknown id; otherwise exactly that course and exactly its enrollments are removed, students untouched, constraints and the unique index kept |
| Api.Describe | src/UniversityApp.Api.Rest/Program.cs:222-223 | the view keeps the enrollment's id, both foreign keys and its timestamp; the name and title are those of the referenced student and course |
| Api.ListEnrollments | src/UniversityApp.Api.Rest/Program.cs:216-227 | 200 with one joined view per enrollment, in table order |
| Api.GetEnrollment | src/UniversityApp.Api.Rest/Program.cs:228-238 | 404 exactly when no enrollment has the id; otherwise 200 with the joined view of the enrollment carrying that id |
| Api.ListAgreesWithGet | src/UniversityApp.Api.Rest/Program.cs:152-155 | for each of the three tables, the get endpoint on a listed row's id returns exactly what the list endpoint shows for that row |
| Api.CreateEnrollment | src/UniversityApp.Api.Rest/Program.cs:239-254 | checks in order: unknown student gives 400, then unknown course gives 400, then an enrolled pair gives 409, each with no change; otherwise 201 with exactly one new row (fresh id, the given ids, `now`), the rest untouched and the unique index kept |
| Api.UpdateEnrollment | src/UniversityApp.Api.Rest/Program.cs:255-273 | 404 for an unknown id; 400 for a supplied unknown student, checked before the course; 400 for a supplied unknown course; no change on any failure; otherwise only StudentId/CourseId of that row change, never Id or EnrolledAt; the unique index survives exactly when no other row holds the new pair |
| Api.DeleteEnrollment | src/UniversityApp.Api.Rest/Program.cs:274-281 | 404 and no change for an unknown id; otherwise exactly that one enrollment is removed and the other tables are untouched |
| Api.EnrollTwice | src/UniversityApp.Api.Rest/Program.cs:245-250 | posting an existing student and course twice: the first post is created exactly when the pair was new, and the second is always a 409; the first appends exactly one row when it succeeds, nothing else changes, and the unique index is kept |
| Api.UpdateRepeatsPair | src/UniversityApp.Api.Rest/Program.cs:259-272 | there is a store and an update, both accepted, that leave two enrollments with the same pair |

## Left out

- JSON Web Token encoding, HMAC-SHA256 signing, validation of issuer, audience and lifetime, and the 60-minute expiry clock (Program.cs:31-44, 135-146). These are done by the JWT library and the JwtBearer middleware. Only the claims are modelled.
- The authorization gate (`RequireAuthorization`, `AllowAnonymous`). The framework applies it before a handler runs; the handlers are modelled as reached.
- The logging and correlation-id middleware, the Swagger setup and dependency-injection wiring. These are console, stream and framework I/O.
- Asynchrony, EF change tracking, `SaveChangesAsync`, `AsNoTracking` and `Include`. The model applies a handler's writes at once, and only on success.
- Concurrency: races between a check and its write, and any storage-level enforcement of the unique index.
- Cascade deletes follow the cascade the store model declares (ApplicationDbContext.cs:19-29). The running program may behave differently: the delete handlers load the principal with `FindAsync` (Program.cs:174, 206), which tracks none of its enrollments, and the store is EF Core's in-memory provider (DependencyInjection.cs:12), so the enrollments of a deleted student or course may be kept.
- Row order of the list endpoints: the queries behind GET /students, GET /courses and GET /enrollments (Program.cs:153, 185, 218-224) have no `OrderBy`, so the source leaves the order to the provider. The model fixes one: insertion order, with deleted rows closed up.
- Integer width: ids and credits are unbounded integers, so a 32-bit key generator's overflow is not modelled. `DateTime` is an opaque integer.
- Response texts and `Location` headers: a refusal carries the offending ids instead of its message, and `Created` carries the record.
- Framework model binding: malformed or missing request bodies are rejected by the framework before a handler runs.
- The Student entity's fields (Id, Name, Email) are inferred from their use in Program.cs:158 and 167-168; the navigation properties `Student.Enrollments`, `Course.Enrollments` (Course.cs:15), `Enrollment.Student` (Enrollment.cs:14) and `Enrollment.Course` (Enrollment.cs:17) are not modelled. So the course rows the course endpoints return (Program.cs:185, 187, 193, 202) carry no `Enrollments` collection, where the program's JSON includes that collection. The request records (`StudentCreateDto`, `StudentUpdateDto`, `CourseCreateDto`, `CourseUpdateDto`, `EnrollmentCreateDto`, `EnrollmentUpdateDto`, `WebApiUser`) are not modelled as types: update fields that are tested for null or blank are optional parameters, and create fields are plain values.
- Null strings in request bodies: a null username, password, name, email or title is not modelled. The source then throws instead of answering: `TryGetValue` on a null username raises `ArgumentNullException` (UsersRepository.cs:13, reached from Program.cs:124), which gives a 500 rather than a 401 (a null password only fails the comparison, a 401); a null title is stored into the non-nullable `Course.Title` (Course.cs:12), which the in-memory provider refuses on save. A null name or email on POST /students is not modelled either.
- The admin front-end (UniversityApp.Ui.Admin): an HTTP client with session storage and page flow.
- Api.GetStudent, Api.GetCourse, Api.GetEnrollment and Api.ListEnrollments require the store invariant. `SingleOrDefaultAsync` would throw on a repeated primary key, and the join needs existing principals; the invariant rules out both.
