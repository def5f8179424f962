# Course registrar

This project models a small university registrar. The registrar keeps a
catalog of course offerings and a directory of students:

- A course offering has a department, a course number, a seat count and a
  roster of students.
- The catalog is a two-level map: from department, to course number, to course.
- Each student is filed in the directory under the key `firstName + lastName`.
- Each student counts the courses they are enrolled in and has a cap on that count.
- The registrar can add and remove courses, enrol and withdraw a student,
  and cancel all of a student's enrollments. It also answers count and
  membership queries.

The model has three levels:

- **`UniversityLearner.Learner`** and **`AcademicSubject.Subject`** are
  classes whose fields change in place, as in the source:
  - a learner has a course counter and a cap;
  - a subject has a fixed seat count and a roster from student key to learner.
- **`Catalog`** is the registrar as a value (`Registrar`):
  - courses are a map from `(department, courseNumber)` to a roster of keys;
  - the directory is a map from key to `Record` (the names and the course counter);
  - each operation is a function returning a `Step` (its result and the next registrar);
  - `CatalogProperties` proves the registrar's invariants and promises about those functions.
  The invariants are:
  - no roster exceeds its seats;
  - no counter exceeds the cap;
  - every counter equals the number of rosters that hold its key;
  - every key on a roster has a directory entry.
- **`AcademicManager.Manager`** is the registrar as a class:
  - it holds the two-level map of `Subject` objects and the directory of `Learner` objects;
  - it holds a ghost `model: Registrar`;
  - `CatalogHeap.Agrees` ties the heap to the model;
  - every method is proved to move `model` exactly as the matching `Catalog` function does, so everything proved in `CatalogProperties` holds of the class.
  - `CancelStudentEnrollment` keeps the source's nested loop, over departments and then over their courses.

`RegistrationBatch` models the batch workers once their input is parsed.
Each worker issues its `addsubject` / `enrollstudent` commands in order,
each call holds the registrar's lock, and the calls of different workers
interleave under any schedule.

### Names

The three source files use different names for the same classes. The model
uses these correspondences:

- The manager's `Course` is `AcademicSubject`, modelled as `Subject`. The manager's `Student` is `UniversityLearner`, modelled as `Learner`.
- Course methods:
  - `isFull` is `isSubjectFull`;
  - `hasStudent` is `isStudentEnrolled`;
  - `addStudent` is `registerStudent`;
  - `getStudentCount` is `countEnrolledStudents`;
  - `clearSubject` is `clearSubjectEnrollments`;
  - `removeStudent` is `unregisterStudent`.
- Student methods, as called from `AcademicSubject`:
  - `student.dropCourse()` is `withdrawFromCourse`;
  - `student.lastName(n)` is `hasMatchingLastName`.
- `AcademicSubject.unregisterStudent` is declared `void`
  (AcademicSubject.java:56). Its caller in `cancelStudentEnrollment` tests
  its result as a boolean meaning "the key was on the roster"
  (AcademicManager.java:123). `Subject.UnregisterStudent` returns that
  boolean, which is true exactly when the key was present.
- The student key is the two names run together, kept as written. So
  `("ab", "c")` and `("a", "bc")` are the same student
  (`CatalogProperties.StudentKeyCollision`).

## Model

| member | source | states |
|---|---|---|
| UniversityLearner.Learner.constructor | UniversityLearner.java:10-15 | a new learner keeps the given names and cap and starts at zero courses |
| UniversityLearner.Learner.EnrollInCourse | UniversityLearner.java:17-19 | the counter goes up by exactly one; if the learner could enrol in another course beforehand, the counter is still within the cap |
| UniversityLearner.Learner.WithdrawFromCourse | UniversityLearner.java:21-25 | the counter goes down by one when it is positive; at zero it stays at zero, so it never goes negative |
| UniversityLearner.Learner.IsSameLearner | UniversityLearner.java:27-29 | two learners are the same exactly when both their given names and their family names are equal |
| UniversityLearner.Learner.CanEnrollInAnotherCourse | UniversityLearner.java:31-33 | true exactly when the counter is below the cap, and then one more enrollment keeps the counter within the cap |
| UniversityLearner.Learner.HasMatchingLastName | UniversityLearner.java:35-37 | true exactly when the family name equals the argument |
| UniversityLearner.IsSameLearnerReflexive | UniversityLearner.java:27-29 | every learner is the same learner as itself |
| UniversityLearner.IsSameLearnerSymmetric | UniversityLearner.java:27-29 | sameness does not depend on argument order |
| AcademicSubject.Subject.constructor | AcademicSubject.java:15-21 | a new course has the given seat count and an empty roster |
| AcademicSubject.Subject.RegisterStudent | AcademicSubject.java:23-25 | the key is inserted or overwritten with no capacity check; every other entry is unchanged |
| AcademicSubject.Subject.IsStudentEnrolled | AcademicSubject.java:27-29 | true exactly when `firstName + lastName` is a key of the roster |
| AcademicSubject.Subject.ClearSubjectEnrollments | AcademicSubject.java:31-36 | every registered learner is withdrawn once for each key it is registered under, with the clamp at zero; then the roster is empty |
| AcademicSubject.Subject.IsSubjectFull | AcademicSubject.java:38-40 | true exactly when the roster has at least as many keys as there are seats |
| AcademicSubject.Subject.CountEnrolledStudents | AcademicSubject.java:42-44 | the number of keys on the roster |
| AcademicSubject.Subject.CountStudentsByLastName | AcademicSubject.java:46-54 | the loop counts exactly the keys whose learner has the given family name, so it is at most the roster size |
| AcademicSubject.Subject.UnregisterStudent | AcademicSubject.java:56-58 | only the given key leaves the roster; it reports whether the key was there; removing an absent key changes nothing |
| AcademicSubject.HoldersOutsideShrink | AcademicSubject.java:31-36 | each learner visited by the clearing loop is counted once more among the learners already withdrawn, exactly when the visited key is registered to it |
| Catalog.Init | AcademicManager.java:17-21 | a new registrar has no courses and no students; its cap is at least one, and equals the requested cap when that is at least one; it satisfies the invariants |
| Catalog.StudentKey | AcademicManager.java:67 | the key is the first name followed by the last name: its length is the sum of theirs, and it splits back into the two names at the first name's length |
| Catalog.InvalidSubject | AcademicManager.java:41-43 | a department and course number are valid exactly when the department is non-empty and the number is at least one |
| Catalog.InvalidParameters | AcademicManager.java:133-136 | true exactly when the department or either name is empty or the course number is below one; an invalid course makes the parameters invalid |
| Catalog.AddSubject | AcademicManager.java:23-38 | rejected with IllegalArgumentException exactly when the department is empty, the course number is below one or the seat count is below one; on rejection, or when the course already exists, nothing changes; on success the course exists |
| Catalog.RemoveSubject | AcademicManager.java:40-51 | rejected exactly when the department is empty or the course number is below one; returns true exactly when the course existed, and then only that course leaves the catalog; otherwise nothing changes |
| Catalog.EnrollStudent | AcademicManager.java:57-76 | rejected exactly when a parameter is invalid; the cap never changes; when the call does not return true, no roster changes |
| Catalog.WithdrawStudent | AcademicManager.java:100-113 | rejected exactly when a parameter is invalid; when the call does not return true nothing changes; the set of courses never changes |
| Catalog.CancelStudentEnrollment | AcademicManager.java:115-131 | rejected exactly when a name is empty, and then nothing changes; the set of courses never changes |
| Catalog.Unenroll | AcademicManager.java:110-111 | the key leaves the roster of that course, and the set of courses and the cap stay the same |
| Catalog.CountSubjects | AcademicManager.java:53-55 | the course count is zero exactly when there are no courses |
| Catalog.CountStudentsInSubject | AcademicManager.java:78-81 | the count is positive exactly when the course exists and its roster is not empty |
| Catalog.CountStudentsWithLastName | AcademicManager.java:83-86 | the count is positive exactly when the course exists and some student on its roster has that family name |
| Catalog.IsStudentEnrolled | AcademicManager.java:88-91 | the student is enrolled in a course exactly when that course is among the courses holding its key, and then the course has at least one student |
| Catalog.CountCoursesStudentEnrolled | AcademicManager.java:93-98 | the count is zero exactly when no course reports the student enrolled |
| CatalogProperties.AddSubjectKeepsInv | AcademicManager.java:23-38 | adding a course keeps every invariant |
| CatalogProperties.RemoveSubjectKeepsInv | AcademicManager.java:40-51 | removing a course keeps every invariant: each learner on its roster loses exactly the course it was counted for |
| CatalogProperties.EnrollStudentKeepsInv | AcademicManager.java:62-75 | enrolling keeps every invariant, because the seat check and the cap check come before the insert and the increment |
| CatalogProperties.EnrolledStudentCounted | AcademicManager.java:73-74 | when one key joins one roster and only that learner's counter goes up by one, every counter still equals the number of rosters holding its key |
| CatalogProperties.WithdrawStudentKeepsInv | AcademicManager.java:100-113 | withdrawing keeps every invariant |
| CatalogProperties.UnenrollKeepsInv | AcademicManager.java:110-111 | taking an enrolled key off one roster and withdrawing its learner once keeps every invariant |
| CatalogProperties.CancelStudentEnrollmentKeepsInv | AcademicManager.java:115-131 | cancelling keeps every invariant |
| CatalogProperties.AddSubjectIdempotent | AcademicManager.java:28-35 | adding the same course again, with any valid seat count, changes nothing: neither its seats nor its roster are reset |
| CatalogProperties.AddSubjectCountsOneMore | AcademicManager.java:53-55 | a valid new course is filed with exactly its seat count and an empty roster, every other course is kept as it was, and the course count rises by exactly one |
| CatalogProperties.RemoveSubjectCountsOneLess | AcademicManager.java:45-50 | removing an existing course lowers the course count by exactly one |
| CatalogProperties.AddThenRemoveRestores | AcademicManager.java:23-51 | adding a new course and then removing it returns true and gives back the registrar as it was, course count included |
| CatalogProperties.RemoveSubjectWithdrawsEachOnce | AcademicManager.java:45-47 | removing a course withdraws each learner on its roster exactly once; every other course, every other learner and all names stay unchanged |
| CatalogProperties.EnrollStudentSucceedsExactlyWhen | AcademicManager.java:62-75 | a valid enrollment succeeds exactly when the course exists, has a free seat, does not hold the key, and the learner is below the cap (a learner new to the directory always is) |
| CatalogProperties.EnrollStudentEffect | AcademicManager.java:67-75 | a successful enrollment makes the roster the old roster plus the key, with the same seats, and adds exactly one to that learner's counter; the roster grows by one and everything else is unchanged |
| Catalog.FileStudent | AcademicManager.java:68 | the `computeIfAbsent` of the student's directory entry: afterwards the student's key is in the directory (its other promises are `FileStudentEffect`) |
| CatalogProperties.FileStudentEffect | AcademicManager.java:68 | looking up the student files its key: every existing entry is kept as it was, and a learner new to the directory starts at zero courses with the given names |
| CatalogProperties.EnrollStudentRefusedChangesNothing | AcademicManager.java:18 | because the cap is at least one, a refused enrollment leaves the whole registrar unchanged; the directory gains an entry only on success |
| CatalogProperties.EnrollStudentTwiceAdmitsOnce | AcademicManager.java:63 | the same enrollment made twice in a row never succeeds the second time |
| CatalogProperties.WithdrawStudentThenNotEnrolled | AcademicManager.java:105-112 | a valid withdrawal returns whether the student was enrolled; afterwards the student is not on that roster |
| CatalogProperties.WithdrawStudentDecrements | AcademicManager.java:110-111 | a successful withdrawal makes the roster the old roster minus the key, with the same seats, and takes exactly one off the learner's counter; every other course and every other learner stays as it was |
| CatalogProperties.CancelStudentEnrollmentEffect | AcademicManager.java:120-130 | cancelling returns whether the student was on any roster; afterwards the student is on none, their counter is zero, every other learner and the directory's keys are unchanged, and every course keeps its seats and every other student |
| CatalogProperties.LastNameCountBounded | AcademicManager.java:83-86 | counting a course's students by family name never exceeds the number of students on that course |
| CatalogProperties.QueriesWithinBounds | AcademicManager.java:78-98 | under the invariants, no course reports more students than seats, and no student reports more courses than the cap |
| CatalogProperties.TwoSeatsFilled | AcademicManager.java:57-76 | after A B and C D enrol in a new two-seat course, both are on its roster and in the directory |
| CatalogProperties.TwoSeatScenario | AcademicManager.java:57-113 | in a two-seat course, E F is refused while the course is full and is admitted after A B withdraws |
| CatalogProperties.CourseCapScenario | AcademicManager.java:69-70 | with a cap of one course, a learner in X is refused Y, and is admitted to Y after withdrawing from X |
| CatalogProperties.StudentKeyCollision | AcademicManager.java:67 | "ab" "c" and "a" "bc" share a key: once one is enrolled, the other counts as enrolled and cannot enrol |
| RegistrationBatch.Issue | AcademicManager.java:181-195 | a worker's call changes nothing when it throws, and admits a student exactly when it is an enrollment that succeeds |
| RegistrationBatch.Turn | AcademicManager.java:178-199 | one worker makes its next call; an invalid command throws an `IllegalArgumentException` that the worker does not catch (only `FileNotFoundException` is caught), so the worker ends with its remaining lines unissued; a finished worker does nothing; the number of workers never changes |
| RegistrationBatch.Interleave | AcademicManager.java:154-164 | the calls of the workers in the order a schedule gives; its own contract only keeps the number of workers, and its properties are `InterleaveKeepsInv`, `InterleaveGrowsRoster` and `AdmissionsWithinSeats` |
| RegistrationBatch.TurnKeepsInv | AcademicManager.java:185-195 | one locked call from any worker keeps every invariant |
| RegistrationBatch.InterleaveKeepsInv | AcademicManager.java:154-164 | under any interleaving of the workers' calls, every invariant holds afterwards |
| RegistrationBatch.TurnGrowsRoster | AcademicManager.java:185-195 | one worker call never shrinks a roster or changes a seat count, and it grows a roster by one exactly when it admits a student there |
| RegistrationBatch.InterleaveGrowsRoster | AcademicManager.java:154-164 | under any interleaving, each course's roster grows by exactly the number of admissions into it |
| RegistrationBatch.AdmissionsWithinFreeSeats | AcademicManager.java:154-164 | under any interleaving, a course admits at most as many students as it had free seats |
| RegistrationBatch.AdmissionsWithinSeats | AcademicManager.java:144-165 | under any interleaving, admissions into a course never exceed its seats at the end, and a course that exists neither at the start nor at the end admits nobody; this covers courses added during the batch |
| RegistrationBatch.DuplicateEnrollmentsAdmitOnce | AcademicManager.java:188-195 | when every worker issues the same enrollment and it would succeed now or already has, at most the first call to run admits the student and every later call is refused |
| RegistrationBatch.RefusedEnrollmentsAdmitNone | AcademicManager.java:188-195 | when every worker issues the same enrollment and the registrar refuses it, every call is refused, the registrar never changes, and nobody is admitted |
| RegistrationBatch.SameEnrollmentAdmitsAtMostOnce | AcademicManager.java:144-165 | from any registrar that keeps the invariants, workers that issue nothing but one enrollment admit the student at most once, whatever the interleaving |
| RegistrationBatch.TwoWorkersSameEnrollment | AcademicManager.java:144-165 | two workers each enrolling John Doe into CS 101 both finish with exactly one admission, and he is on the roster, whatever the interleaving |
| AcademicManager.Manager.constructor | AcademicManager.java:17-21 | the registrar starts as `Catalog.Init`, with its cap at least one |
| AcademicManager.Manager.GetCourse | AcademicManager.java:138-140 | returns the course filed under the department and number, or null exactly when there is no such course |
| AcademicManager.Manager.AddSubject | AcademicManager.java:23-38 | the registrar changes, and the call returns, exactly as `Catalog.AddSubject`; the department map is created on first use |
| AcademicManager.Manager.FileCourse | AcademicManager.java:28-35 | a new course with the given seats is filed under its department, whose map is created when missing; no other course and no learner changes, and the model gains the course |
| AcademicManager.Manager.RemoveSubject | AcademicManager.java:40-51 | the registrar changes, and the call returns, exactly as `Catalog.RemoveSubject`; the course's roster is cleared through its learners |
| AcademicManager.Manager.UnfileCourse | AcademicManager.java:46 | the course leaves its department, and every learner on its roster is withdrawn once; all other rosters and counters stay as they were |
| AcademicManager.Manager.EnrollStudent | AcademicManager.java:57-76 | the registrar changes, and the call returns, exactly as `Catalog.EnrollStudent`; the learner is filed before the cap is checked, as in the source |
| AcademicManager.Manager.Admit | AcademicManager.java:67-75 | the learner is looked up or filed new, then admitted exactly when it is under the cap. If refused, nothing changes. If admitted, it joins that roster alone and its counter alone goes up by one |
| AcademicManager.Manager.FileLearner | AcademicManager.java:68 | returns the learner filed under the key or, when there is none, files a new one at zero courses with the given names and the cap; the model's directory gains the same entry |
| AcademicManager.Manager.WithdrawStudent | AcademicManager.java:100-113 | the registrar changes, and the call returns, exactly as `Catalog.WithdrawStudent` |
| AcademicManager.Manager.CancelStudentEnrollment | AcademicManager.java:115-131 | the nested loop over departments and courses changes the registrar, and returns, exactly as `Catalog.CancelStudentEnrollment` |
| AcademicManager.Manager.SweepDepartment | AcademicManager.java:122-127 | the inner loop takes the key off every course of one department, and keeps the flag true exactly when it removed the key somewhere |
| AcademicManager.Manager.TakeOffRoster | AcademicManager.java:110-111 | the key leaves the roster, and its learner is withdrawn once exactly when the key was on it |
| AcademicManager.Manager.Unregister | AcademicManager.java:123-124 | the key leaves the roster; the result is whether it was there, and only then is its learner withdrawn once; every other roster and counter stays as it was |
| AcademicManager.Manager.CountSubjects | AcademicManager.java:53-55 | the number of (department, number) pairs filed, summed over departments, equals the number of courses of the model |
| AcademicManager.Manager.CountStudentsInSubject | AcademicManager.java:78-81 | the roster size of the course, or 0 when there is no such course |
| AcademicManager.Manager.CountStudentsWithLastName | AcademicManager.java:83-86 | the number of students on the course whose family name matches, or 0 when there is no such course |
| AcademicManager.Manager.IsStudentEnrolled | AcademicManager.java:88-91 | true exactly when the course exists and its roster holds the student's key |
| AcademicManager.Manager.CountCoursesStudentEnrolled | AcademicManager.java:93-98 | the number of courses, across all departments, whose roster holds the student's key |
| AcademicManager.Manager.CourseFiled | AcademicManager.java:138-140 | a course found through the two-level map is the course filed under its (department, number) |
| AcademicManager.Manager.RosterFiled | AcademicManager.java:62-73 | a filed course has the seats and the roster keys of its model course, and its roster holds the learners of the directory |
| AcademicManager.Manager.LearnerFiled | AcademicManager.java:68-69 | a learner in the directory has the names, the cap and the counter of its record |
| CatalogHeap.AgreesEnrollStudent | AcademicManager.java:67-75 | registering the learner and raising its counter keeps the heap in agreement with the model after `Catalog.EnrollStudent` |
| CatalogHeap.AgreesRemoveSubject | AcademicManager.java:45-47 | unfiling the course and clearing its roster keeps the heap in agreement with the model after `Catalog.RemoveSubject` |
| CatalogHeap.AgreesUnenroll | AcademicManager.java:110-111 | removing a key from one roster and withdrawing its learner keeps the heap in agreement with the model after `Catalog.Unenroll` |
| CatalogHeap.CancelledWithinStep | AcademicManager.java:123-126 | sweeping one more course takes the key off its roster and withdraws the learner once when the key is there, and otherwise changes nothing; the flag becomes true exactly when this course held the key |
| CatalogHeap.CancelledWithinAll | AcademicManager.java:120-130 | once every course has been swept, the swept registrar is the one `Catalog.CancelStudentEnrollment` describes |

## Left out

- Threads, `Thread.start`/`join`, `synchronized` and file reading in `processRegistrations` (AcademicManager.java:144-203). Concurrency and I/O are outside the model. Instead, `RegistrationBatch` models already-parsed commands interleaved under any schedule, each call atomic, as the lock makes it. An invalid command ends its worker, because the `IllegalArgumentException` escapes `run()`, which catches only `FileNotFoundException` (AcademicManager.java:199). Line splitting, `Integer.parseInt`, case-insensitive verb matching, a line with too few words, and lines with other verbs are not modelled.
- `printStackTrace` is logging only.
- Java `null` strings: Dafny strings are values. Each `s == null || s.isEmpty()` test is modelled as `s == ""`.
- Java's 32-bit `int`: counts, seat counts and course numbers are unbounded integers. Overflow of a counter or of a course count is not modelled.
- `addSubject` returns `this` for chaining. The model returns `Ok(())` instead.
- An `IllegalArgumentException` is the `InvalidArgument` result and leaves the state unchanged. The exception messages are not modelled.
- The calls `studentDirectory.get(key).withdrawFromCourse()` at AcademicManager.java:111 and :124 would throw `NullPointerException` if the key had no directory entry. Under the invariants every key on a roster has an entry, so that path cannot be reached. The value model guards the lookup instead of modelling the exception.
- The unused `subjectDepartment`, `subjectCode` and `maxCoursesPerStudent` fields of `AcademicSubject` (AcademicSubject.java:9-12,19) have no behaviour. `Subject`'s constructor therefore takes only the seat count.
- `countSubjects` and `countCoursesStudentEnrolled` use Java streams. The model states their results as counts over maps: the (department, number) pairs filed, and the courses whose roster holds the key.
- HashMap iteration order: `CancelStudentEnrollment` and the two `Subject` loops visit keys in an order the model leaves unspecified, and their results are proved for every order.
- `AcademicSubject.Subject.UnregisterStudent`: the source's `unregisterStudent` returns nothing. The model returns whether the key was present, which is the meaning the caller at AcademicManager.java:123 gives it.
