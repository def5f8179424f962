/** The registrar's bookkeeping as a value: every course offering with its
    seats and the keys on its roster, and the student directory with each
    learner's names and course counter. The class AcademicManager.Manager
    keeps this value as its abstract state; here each of its operations is a
    function from one such value to the next, and the invariants the
    registrar relies on are proved about those functions. */
module Catalog {
  import opened UniversityLearner

  /** What a call produces: a value, or the IllegalArgumentException the
      registrar throws when its arguments are invalid. */
  datatype Result<T> = Ok(value: T) | InvalidArgument

  /** A course offering is identified by its department and course number. */
  type CourseId = (string, int)

  /** A course: its seat count and the keys of the students on its roster. */
  datatype Roster = Roster(totalSeats: int, students: set<string>)

  /** A directory entry: the names the learner was created with and its
      course counter. */
  datatype Record = Record(givenName: string, familyName: string, courseCount: nat)

  /** The registrar: the course cap, the courses, and the student directory.
      The two-level department / course-number map of the registrar is
      flattened to a map on CourseId: a department with no courses left is
      not observable through any operation. */
  datatype Registrar = Registrar(maxCoursesAllowed: int,
                                 courses: map<CourseId, Roster>,
                                 directory: map<string, Record>)

  /** The outcome of a mutating call: its result and the registrar after it. */
  datatype Step<T> = Step(result: Result<T>, next: Registrar)

  /** Students are identified by their two names run together, so that
      ("ab", "c") and ("a", "bc") are the same student. */
  function StudentKey(firstName: string, lastName: string): (key: string)
    ensures |key| == |firstName| + |lastName|
    ensures key[..|firstName|] == firstName && key[|firstName|..] == lastName
  {
    firstName + lastName
  }

  /** The arguments that make addSubject and removeSubject throw: a missing
      department or a course number below one. */
  function InvalidSubject(department: string, courseNumber: int): (invalid: bool)
    ensures !invalid <==> |department| > 0 && courseNumber >= 1
  {
    department == "" || courseNumber < 1
  }

  /** The arguments that make enrollStudent and withdrawStudent throw. */
  function InvalidParameters(department: string, courseNumber: int, firstName: string, lastName: string): (invalid: bool)
    ensures invalid <==> department == "" || courseNumber < 1 || firstName == "" || lastName == ""
    ensures InvalidSubject(department, courseNumber) ==> invalid
  {
    InvalidSubject(department, courseNumber) || firstName == "" || lastName == ""
  }

  /** The courses whose roster holds `key`. */
  function EnrolledIn(r: Registrar, key: string): set<CourseId>
  {
    set id | id in r.courses && key in r.courses[id].students
  }

  /** A directory entry after one clamped withdrawal. */
  function Withdrawn(rec: Record): Record
  {
    rec.(courseCount := AfterWithdrawals(rec.courseCount, 1))
  }

  /** The directory after each entry whose key is in `keys` is withdrawn once. */
  function WithdrawEach(directory: map<string, Record>, keys: set<string>): map<string, Record>
  {
    map k | k in directory :: if k in keys then Withdrawn(directory[k]) else directory[k]
  }

  /** The directory after the learner filed under the student's key is looked
      up, and a new one at zero courses filed there if there was none. */
  function FileStudent(directory: map<string, Record>, firstName: string, lastName: string): (filed: map<string, Record>)
    ensures StudentKey(firstName, lastName) in filed
  {
    var key := StudentKey(firstName, lastName);
    if key in directory then directory else directory[key := Record(firstName, lastName, 0)]
  }

  /** The registrar after `key` is taken off the roster of `id` and its
      learner withdrawn once: one step of a withdrawal or a cancellation. */
  function Unenroll(r: Registrar, id: CourseId, key: string): (r': Registrar)
    requires id in r.courses
    ensures r'.maxCoursesAllowed == r.maxCoursesAllowed && r'.courses.Keys == r.courses.Keys
    ensures r'.courses[id].students == r.courses[id].students - {key}
  {
    r.(courses := r.courses[id := r.courses[id].(students := r.courses[id].students - {key})],
       directory := WithdrawEach(r.directory, {key}))
  }

  // ---------------------------------------------------------------------
  // The invariants
  // ---------------------------------------------------------------------

  /** Every course has at least one seat and no more students than seats. */
  ghost predicate SeatsRespected(r: Registrar)
  {
    forall id :: id in r.courses ==>
      1 <= r.courses[id].totalSeats && |r.courses[id].students| <= r.courses[id].totalSeats
  }

  /** Every key on a roster has a directory entry. */
  ghost predicate RostersKnown(r: Registrar)
  {
    forall id :: id in r.courses ==> r.courses[id].students <= r.directory.Keys
  }

  /** No learner's counter exceeds the course cap. */
  ghost predicate CapRespected(r: Registrar)
  {
    forall k :: k in r.directory ==> r.directory[k].courseCount <= r.maxCoursesAllowed
  }

  /** Every learner's counter is the number of rosters holding its key. */
  ghost predicate CountsAgree(r: Registrar)
  {
    forall k :: k in r.directory ==> r.directory[k].courseCount == |EnrolledIn(r, k)|
  }

  ghost predicate Inv(r: Registrar)
  {
    && r.maxCoursesAllowed >= 1
    && SeatsRespected(r)
    && RostersKnown(r)
    && CapRespected(r)
    && CountsAgree(r)
  }

  // ---------------------------------------------------------------------
  // The operations
  // ---------------------------------------------------------------------

  /** A fresh registrar; a cap below one is raised to one. */
  function Init(maxCourses: int): (r: Registrar)
    ensures Inv(r)
    ensures r.maxCoursesAllowed >= 1 && (maxCourses >= 1 ==> r.maxCoursesAllowed == maxCourses)
    ensures r.courses == map[] && r.directory == map[]
  {
    Registrar(if maxCourses < 1 then 1 else maxCourses, map[], map[])
  }

  function AddSubject(r: Registrar, department: string, courseNumber: int, seatCount: int): (s: Step<()>)
    ensures s.result.InvalidArgument? <==> department == "" || courseNumber < 1 || seatCount < 1
    ensures s.result.InvalidArgument? || (department, courseNumber) in r.courses ==> s.next == r
    ensures s.next.maxCoursesAllowed == r.maxCoursesAllowed && s.next.directory == r.directory
    ensures s.result.Ok? ==> (department, courseNumber) in s.next.courses
  {
    if department == "" || courseNumber < 1 || seatCount < 1 then
      Step(InvalidArgument, r)
    else if (department, courseNumber) in r.courses then
      Step(Ok(()), r)
    else
      Step(Ok(()), r.(courses := r.courses[(department, courseNumber) := Roster(seatCount, {})]))
  }

  function RemoveSubject(r: Registrar, department: string, courseNumber: int): (s: Step<bool>)
    ensures s.result.InvalidArgument? <==> InvalidSubject(department, courseNumber)
    ensures s.result != Ok(true) ==> s.next == r
    ensures s.result == Ok(true) <==>
              !InvalidSubject(department, courseNumber) && (department, courseNumber) in r.courses
    ensures s.result == Ok(true) ==> s.next.courses.Keys == r.courses.Keys - {(department, courseNumber)}
  {
    var id := (department, courseNumber);
    if InvalidSubject(department, courseNumber) then
      Step(InvalidArgument, r)
    else if id !in r.courses then
      Step(Ok(false), r)
    else
      Step(Ok(true), r.(courses := r.courses - {id},
                        directory := WithdrawEach(r.directory, r.courses[id].students)))
  }

  function EnrollStudent(r: Registrar, department: string, courseNumber: int,
                         firstName: string, lastName: string): (s: Step<bool>)
    ensures s.result.InvalidArgument? <==> InvalidParameters(department, courseNumber, firstName, lastName)
    ensures s.next.maxCoursesAllowed == r.maxCoursesAllowed
    ensures s.result != Ok(true) ==> s.next.courses == r.courses
  {
    var id := (department, courseNumber);
    var key := StudentKey(firstName, lastName);
    if InvalidParameters(department, courseNumber, firstName, lastName) then
      Step(InvalidArgument, r)
    else if id !in r.courses || |r.courses[id].students| >= r.courses[id].totalSeats
            || key in r.courses[id].students then
      Step(Ok(false), r)
    else
      // The directory entry is created before the cap is looked at.
      var directory := FileStudent(r.directory, firstName, lastName);
      if directory[key].courseCount >= r.maxCoursesAllowed then
        Step(Ok(false), r.(directory := directory))
      else
        var roster := r.courses[id];
        Step(Ok(true), r.(courses := r.courses[id := roster.(students := roster.students + {key})],
                          directory := directory[key := directory[key].(courseCount := directory[key].courseCount + 1)]))
  }

  function WithdrawStudent(r: Registrar, department: string, courseNumber: int,
                           firstName: string, lastName: string): (s: Step<bool>)
    ensures s.result.InvalidArgument? <==> InvalidParameters(department, courseNumber, firstName, lastName)
    ensures s.result != Ok(true) ==> s.next == r
    ensures s.next.maxCoursesAllowed == r.maxCoursesAllowed && s.next.courses.Keys == r.courses.Keys
  {
    var id := (department, courseNumber);
    var key := StudentKey(firstName, lastName);
    if InvalidParameters(department, courseNumber, firstName, lastName) then
      Step(InvalidArgument, r)
    else if id !in r.courses || key !in r.courses[id].students then
      Step(Ok(false), r)
    else
      Step(Ok(true), Unenroll(r, id, key))
  }

  function CancelStudentEnrollment(r: Registrar, firstName: string, lastName: string): (s: Step<bool>)
    ensures s.result.InvalidArgument? <==> firstName == "" || lastName == ""
    ensures s.result.InvalidArgument? ==> s.next == r
    ensures s.next.maxCoursesAllowed == r.maxCoursesAllowed && s.next.courses.Keys == r.courses.Keys
  {
    var key := StudentKey(firstName, lastName);
    if firstName == "" || lastName == "" then
      Step(InvalidArgument, r)
    else
      var from := EnrolledIn(r, key);
      var courses := map id | id in r.courses :: r.courses[id].(students := r.courses[id].students - {key});
      var directory := if key in r.directory
                       then r.directory[key := r.directory[key].(courseCount := AfterWithdrawals(r.directory[key].courseCount, |from|))]
                       else r.directory;
      Step(Ok(from != {}), r.(courses := courses, directory := directory))
  }

  // ---------------------------------------------------------------------
  // The queries
  // ---------------------------------------------------------------------

  function CountSubjects(r: Registrar): (count: nat)
    ensures count == 0 <==> r.courses == map[]
  {
    |r.courses|
  }

  function CountStudentsInSubject(r: Registrar, department: string, courseNumber: int): (count: nat)
    ensures count > 0 <==> (department, courseNumber) in r.courses && r.courses[(department, courseNumber)].students != {}
  {
    var id := (department, courseNumber);
    if id in r.courses then |r.courses[id].students| else 0
  }

  /** The keys on the roster of `id` whose directory entry has family name `lastName`. */
  function WithFamilyName(r: Registrar, id: CourseId, lastName: string): set<string>
    requires id in r.courses
  {
    set k | k in r.courses[id].students && k in r.directory && r.directory[k].familyName == lastName
  }

  function CountStudentsWithLastName(r: Registrar, department: string, courseNumber: int, lastName: string): (count: nat)
    ensures count > 0 <==> (department, courseNumber) in r.courses && WithFamilyName(r, (department, courseNumber), lastName) != {}
  {
    var id := (department, courseNumber);
    if id in r.courses then |WithFamilyName(r, id, lastName)| else 0
  }

  function IsStudentEnrolled(r: Registrar, department: string, courseNumber: int, firstName: string, lastName: string): (enrolled: bool)
    ensures enrolled <==> (department, courseNumber) in EnrolledIn(r, StudentKey(firstName, lastName))
    ensures enrolled ==> CountStudentsInSubject(r, department, courseNumber) > 0
  {
    var id := (department, courseNumber);
    id in r.courses && StudentKey(firstName, lastName) in r.courses[id].students
  }

  /** The number of courses whose roster holds the student: zero exactly when
      no course reports the student enrolled. */
  function CountCoursesStudentEnrolled(r: Registrar, firstName: string, lastName: string): (count: nat)
    ensures count == 0 <==> forall id :: id in r.courses ==> !IsStudentEnrolled(r, id.0, id.1, firstName, lastName)
  {
    |EnrolledIn(r, StudentKey(firstName, lastName))|
  }
}
