/** The registrar itself: a two-level map from department to course number to
    course, and a student directory from key to learner, both changed in
    place. Each method is proved to move the ghost value `model` exactly as
    the matching function of Catalog does, so everything proved about those
    functions holds of the registrar. */
module AcademicManager {
  import opened UniversityLearner
  import opened AcademicSubject
  import opened Catalog
  import opened CatalogHeap

  // ---------------------------------------------------------------------
  // The registrar
  // ---------------------------------------------------------------------

  class Manager {
    const maxCoursesAllowed: int
    var subjectCatalog: map<string, map<int, Subject>>
    var studentDirectory: map<string, Learner>

    /** The abstract state: the Catalog value the heap stands for. */
    ghost var model: Registrar
    /** The courses of `subjectCatalog`, flattened. */
    ghost var subjects: map<CourseId, Subject>

    ghost predicate Valid()
      reads this, subjects.Values, studentDirectory.Values
    {
      Agrees(maxCoursesAllowed, subjectCatalog, subjects, studentDirectory,
             RosterOf(subjects), CountOf(studentDirectory), model)
    }

    /** A registrar with no courses and no students; a cap below one is raised to one. */
    constructor (maxCourses: int)
      ensures Valid()
      ensures model == Init(maxCourses)
      ensures maxCoursesAllowed >= 1
    {
      maxCoursesAllowed := if maxCourses < 1 then 1 else maxCourses;
      subjectCatalog := map[];
      studentDirectory := map[];
      model := Init(maxCourses);
      subjects := map[];
    }

    /** The course filed under `department` and `courseNumber`, or null. */
    function GetCourse(department: string, courseNumber: int): (course: Subject?)
      reads this, subjects.Values, studentDirectory.Values
      requires Valid()
      ensures course != null <==> (department, courseNumber) in model.courses
      ensures course != null ==> course == subjects[(department, courseNumber)]
    {
      if department in subjectCatalog && courseNumber in subjectCatalog[department]
      then subjectCatalog[department][courseNumber]
      else null
    }

    method AddSubject(department: string, courseNumber: int, seatCount: int) returns (result: Result<()>)
      requires Valid()
      modifies this
      ensures Valid()
      ensures Step(result, model) == Catalog.AddSubject(old(model), department, courseNumber, seatCount)
    {
      if department == "" || courseNumber < 1 || seatCount < 1 {
        return InvalidArgument;
      }
      if department in subjectCatalog && courseNumber in subjectCatalog[department] {
        return Ok(());
      }
      ghost var rosters, counts := RosterOf(subjects), CountOf(studentDirectory);
      var course := FileCourse(department, courseNumber, seatCount);
      AgreesAddSubject(maxCoursesAllowed, old(subjectCatalog), old(subjects), studentDirectory,
                       rosters, counts, old(model), department, courseNumber, seatCount, course);
      result := Ok(());
    }

    /** The heap part of AddSubject: a new course, filed under its department
        (whose map is created on first use). */
    method FileCourse(department: string, courseNumber: int, seatCount: int) returns (course: Subject)
      modifies this
      ensures fresh(course) && course.totalSeats == seatCount && course !in old(subjects).Values
      ensures var courses: map<int, Subject> :=
                if department in old(subjectCatalog) then old(subjectCatalog)[department] else map[];
              subjectCatalog == old(subjectCatalog)[department := courses[courseNumber := course]]
      ensures subjects == old(subjects)[(department, courseNumber) := course]
      ensures studentDirectory == old(studentDirectory)
      ensures model == Catalog.AddSubject(old(model), department, courseNumber, seatCount).next
      ensures RosterOf(subjects) == old(RosterOf(subjects))[(department, courseNumber) := map[]]
      ensures CountOf(studentDirectory) == old(CountOf(studentDirectory))
    {
      var departmentCourses: map<int, Subject> := if department in subjectCatalog then subjectCatalog[department] else map[];
      course := new Subject(seatCount);
      subjectCatalog, subjects, model :=
        subjectCatalog[department := departmentCourses[courseNumber := course]],
        subjects[(department, courseNumber) := course],
        Catalog.AddSubject(model, department, courseNumber, seatCount).next;
      RosterOfAdd(old(subjects), (department, courseNumber), course);
      CountOfSame(studentDirectory);
    }

    method RemoveSubject(department: string, courseNumber: int) returns (result: Result<bool>)
      requires Valid()
      modifies this, subjects.Values, studentDirectory.Values
      ensures Valid()
      ensures Step(result, model) == Catalog.RemoveSubject(old(model), department, courseNumber)
    {
      if department == "" || courseNumber < 1 {
        return InvalidArgument;
      }
      if department in subjectCatalog && courseNumber in subjectCatalog[department] {
        var course := subjectCatalog[department][courseNumber];
        RosterFiled((department, courseNumber));
        ghost var rosters, counts := RosterOf(subjects), CountOf(studentDirectory);
        AgreesRemoveSubject(maxCoursesAllowed, subjectCatalog, subjects, studentDirectory,
                            rosters, counts, model, department, courseNumber);
        UnfileCourse(department, courseNumber, course);
        return Ok(true);
      }
      return Ok(false);
    }

    /** The heap part of RemoveSubject: the course leaves its department, and
        every learner on its roster is withdrawn from it. */
    method UnfileCourse(department: string, courseNumber: int, course: Subject)
      requires department in subjectCatalog && (department, courseNumber) in subjects
      requires course == subjects[(department, courseNumber)]
      requires Unshared(subjects) && Unshared(studentDirectory)
      requires forall k :: k in course.enrolledStudents ==>
                 k in studentDirectory && course.enrolledStudents[k] == studentDirectory[k]
      modifies this, course, course.enrolledStudents.Values
      ensures subjectCatalog == old(subjectCatalog)[department := old(subjectCatalog)[department] - {courseNumber}]
      ensures subjects == old(subjects) - {(department, courseNumber)}
      ensures studentDirectory == old(studentDirectory)
      ensures model == Catalog.RemoveSubject(old(model), department, courseNumber).next
      ensures var rosters := old(RosterOf(subjects));
              && (department, courseNumber) in rosters
              && RosterOf(subjects) == rosters - {(department, courseNumber)}
              && CountOf(studentDirectory) ==
                 WithdrawnCounts(old(CountOf(studentDirectory)), rosters[(department, courseNumber)].Keys)
    {
      ghost var id := (department, courseNumber);
      subjectCatalog, subjects, model :=
        subjectCatalog[department := subjectCatalog[department] - {courseNumber}],
        subjects - {id},
        Catalog.RemoveSubject(model, department, courseNumber).next;
      course.ClearSubjectEnrollments();
      RosterOfRemove(old(subjects), id);
      CountOfCleared(studentDirectory, old(course.enrolledStudents));
    }

    method EnrollStudent(department: string, courseNumber: int, firstName: string, lastName: string)
      returns (result: Result<bool>)
      requires Valid()
      modifies this, subjects.Values, studentDirectory.Values
      ensures Valid()
      ensures Step(result, model) == Catalog.EnrollStudent(old(model), department, courseNumber, firstName, lastName)
    {
      if InvalidParameters(department, courseNumber, firstName, lastName) {
        return InvalidArgument;
      }
      var course := GetCourse(department, courseNumber);
      if course == null || course.IsSubjectFull() || course.IsStudentEnrolled(firstName, lastName) {
        return Ok(false);
      }
      ghost var id := (department, courseNumber);
      RosterFiled(id);
      if StudentKey(firstName, lastName) in studentDirectory {
        LearnerFiled(StudentKey(firstName, lastName));
      }
      ghost var rosters, counts := RosterOf(subjects), CountOf(studentDirectory);
      var admitted, student := Admit(course, id, firstName, lastName);
      if admitted {
        AgreesEnrollStudent(maxCoursesAllowed, old(subjectCatalog), old(subjects), old(studentDirectory),
                            rosters, counts, old(model), department, courseNumber, firstName, lastName, student);
      }
      result := Ok(admitted);
    }

    /** The heap part of EnrollStudent once the course has a free seat and
        does not hold the student: the learner is looked up, or filed new,
        and if it is under the cap it joins the roster and counts one more
        course. */
    method Admit(course: Subject, ghost id: CourseId, firstName: string, lastName: string)
      returns (admitted: bool, student: Learner)
      requires id in subjects && course == subjects[id] && Unshared(subjects) && Unshared(studentDirectory)
      requires studentDirectory.Keys == model.directory.Keys && maxCoursesAllowed >= 1
      requires StudentKey(firstName, lastName) in studentDirectory ==>
                 studentDirectory[StudentKey(firstName, lastName)].maxCourseLimit == maxCoursesAllowed
      modifies this, course, if StudentKey(firstName, lastName) in studentDirectory
                             then {studentDirectory[StudentKey(firstName, lastName)]} else {}
      ensures var key := StudentKey(firstName, lastName);
              admitted <==> key !in old(studentDirectory) ||
                            old(studentDirectory[key].enrolledCourseCount) < maxCoursesAllowed
      ensures subjectCatalog == old(subjectCatalog) && subjects == old(subjects)
      ensures !admitted ==> && studentDirectory == old(studentDirectory) && model == old(model)
                            && RosterOf(subjects) == old(RosterOf(subjects))
                            && CountOf(studentDirectory) == old(CountOf(studentDirectory))
      ensures admitted ==>
                var key := StudentKey(firstName, lastName);
                var rosters := old(RosterOf(subjects));
                var counts := old(CountOf(studentDirectory));
                && (if key in old(studentDirectory) then student == old(studentDirectory)[key]
                    else && student !in old(studentDirectory).Values
                         && student.givenName == firstName && student.familyName == lastName
                         && student.maxCourseLimit == maxCoursesAllowed)
                && studentDirectory == old(studentDirectory)[key := student]
                && model == Catalog.EnrollStudent(old(model), id.0, id.1, firstName, lastName).next
                && id in rosters
                && RosterOf(subjects) == rosters[id := rosters[id][key := student]]
                && CountOf(studentDirectory) == counts[key := (if key in counts then counts[key] else 0) + 1]
    {
      var studentKey := StudentKey(firstName, lastName);
      student := FileLearner(firstName, lastName);
      if !student.CanEnrollInAnotherCourse() {
        // Only a learner filed before this call can be at the cap: the cap is at least one.
        assert studentKey in old(studentDirectory);
        SameMap(old(studentDirectory), studentKey);
        RosterOfSame(subjects);
        CountOfSame(studentDirectory);
        return false, student;
      }
      course.RegisterStudent(studentKey, student);
      student.EnrollInCourse();
      model := Catalog.EnrollStudent(old(model), id.0, id.1, firstName, lastName).next;
      RosterOfRegister(subjects, id, studentKey, student);
      CountOfEnroll(old(studentDirectory), studentKey, student);
      admitted := true;
    }

    /** The learner filed under the student's key, or a new one at zero
        courses, filed there on first use; the model's directory gains the
        same entry. */
    method FileLearner(firstName: string, lastName: string) returns (student: Learner)
      modifies this
      ensures var key := StudentKey(firstName, lastName);
              if key in old(studentDirectory) then student == old(studentDirectory)[key]
              else && fresh(student) && student.enrolledCourseCount == 0
                   && student.givenName == firstName && student.familyName == lastName
                   && student.maxCourseLimit == maxCoursesAllowed
      ensures studentDirectory == old(studentDirectory)[StudentKey(firstName, lastName) := student]
      ensures subjectCatalog == old(subjectCatalog) && subjects == old(subjects)
      ensures model == old(model).(directory := FileStudent(old(model.directory), firstName, lastName))
    {
      var studentKey := StudentKey(firstName, lastName);
      if studentKey in studentDirectory {
        student := studentDirectory[studentKey];
      } else {
        student := new Learner(firstName, lastName, maxCoursesAllowed);
        studentDirectory := studentDirectory[studentKey := student];
      }
      model := model.(directory := FileStudent(model.directory, firstName, lastName));
    }

    method WithdrawStudent(department: string, courseNumber: int, firstName: string, lastName: string)
      returns (result: Result<bool>)
      requires Valid()
      modifies this, subjects.Values, studentDirectory.Values
      ensures Valid()
      ensures Step(result, model) == Catalog.WithdrawStudent(old(model), department, courseNumber, firstName, lastName)
    {
      if InvalidParameters(department, courseNumber, firstName, lastName) {
        return InvalidArgument;
      }
      var course := GetCourse(department, courseNumber);
      if course == null {
        return Ok(false);
      }
      RosterFiled((department, courseNumber));
      if !course.IsStudentEnrolled(firstName, lastName) {
        return Ok(false);
      }
      assert Catalog.WithdrawStudent(model, department, courseNumber, firstName, lastName)
          == Step(Ok(true), Unenroll(model, (department, courseNumber), StudentKey(firstName, lastName)));
      var wasPresent := TakeOffRoster(course, (department, courseNumber), StudentKey(firstName, lastName));
      result := Ok(true);
    }

    method TakeOffRoster(course: Subject, ghost id: CourseId, key: string) returns (wasPresent: bool)
      requires Valid() && id in subjects && course == subjects[id]
      modifies this, course, if key in studentDirectory then {studentDirectory[key]} else {}
      ensures Valid()
      ensures subjectCatalog == old(subjectCatalog) && subjects == old(subjects)
      ensures studentDirectory == old(studentDirectory)
      ensures id in old(model.courses) && (wasPresent <==> key in old(model.courses[id].students))
      ensures model == if wasPresent then Unenroll(old(model), id, key) else old(model)
    {
      RosterFiled(id);
      ghost var rosters, counts := RosterOf(subjects), CountOf(studentDirectory);
      if key in model.courses[id].students {
        AgreesUnenroll(maxCoursesAllowed, subjectCatalog, subjects, studentDirectory, rosters, counts, model, id, key);
      }
      wasPresent := Unregister(course, id, key);
    }

    /** The heap part of TakeOffRoster: `key` leaves the roster of `id` and,
        if it was on it, its learner is withdrawn once. */
    method Unregister(course: Subject, ghost id: CourseId, key: string) returns (wasPresent: bool)
      requires id in subjects && course == subjects[id] && Unshared(subjects) && Unshared(studentDirectory)
      requires id in model.courses && course.enrolledStudents.Keys == model.courses[id].students
      requires key in course.enrolledStudents ==> key in studentDirectory && course.enrolledStudents[key] == studentDirectory[key]
      modifies this, course, if key in studentDirectory then {studentDirectory[key]} else {}
      ensures subjectCatalog == old(subjectCatalog) && subjects == old(subjects)
      ensures studentDirectory == old(studentDirectory)
      ensures wasPresent <==> key in old(course.enrolledStudents)
      ensures model == if wasPresent then Unenroll(old(model), id, key) else old(model)
      ensures var rosters := old(RosterOf(subjects));
              RosterOf(subjects) == if wasPresent then rosters[id := rosters[id] - {key}] else rosters
      ensures var counts := old(CountOf(studentDirectory));
              && (wasPresent ==> key in counts)
              && CountOf(studentDirectory) == if wasPresent then counts[key := AfterWithdrawals(counts[key], 1)] else counts
    {
      wasPresent := course.UnregisterStudent(key);
      if wasPresent {
        var student := studentDirectory[key];
        student.WithdrawFromCourse();
        model := Unenroll(model, id, key);
        RosterOfUnregister(subjects, id, key);
        CountOfWithdraw(studentDirectory, key);
      } else {
        RosterOfSame(subjects);
        CountOfSame(studentDirectory);
      }
    }

    method CancelStudentEnrollment(firstName: string, lastName: string) returns (result: Result<bool>)
      requires Valid()
      modifies this, subjects.Values, studentDirectory.Values
      ensures Valid()
      ensures Step(result, model) == Catalog.CancelStudentEnrollment(old(model), firstName, lastName)
    {
      if firstName == "" || lastName == "" {
        return InvalidArgument;
      }
      var studentKey := StudentKey(firstName, lastName);
      var removed := false;
      ghost var done: set<CourseId> := {};
      CancelledWithinNothing(model, studentKey);
      var departments := subjectCatalog.Keys;
      CatalogFiled();
      SweptNothing(subjects.Keys, departments);
      while departments != {}
        invariant Valid()
        invariant subjectCatalog == old(subjectCatalog) && subjects == old(subjects)
        invariant studentDirectory == old(studentDirectory)
        invariant departments <= subjectCatalog.Keys
        invariant SweptDepartments(done, subjects.Keys, departments)
        invariant model == CancelledWithin(old(model), studentKey, done)
        invariant removed <==> EnrolledIn(old(model), studentKey) * done != {}
        decreases departments
      {
        var department :| department in departments;
        DepartmentFiled(department);
        SweptEnter(done, subjects, departments, department, subjectCatalog[department].Items);
        CatalogFiled();
        removed, done := SweepDepartment(department, studentKey, departments, old(model), removed, done);
        SweptLeave(done, subjects, departments, department);
        departments := departments - {department};
      }
      SweptAll(done, subjects.Keys);
      CancelledWithinAll(old(model), firstName, lastName);
      result := Ok(removed);
    }

    /** The inner loop of CancelStudentEnrollment: `key` is taken off the
        roster of every course of `department`. */
    method SweepDepartment(department: string, key: string, ghost departments: set<string>,
                           ghost r: Registrar, removed: bool, ghost done: set<CourseId>)
      returns (removedAfter: bool, ghost doneAfter: set<CourseId>)
      requires Valid() && department in subjectCatalog && r.courses.Keys == subjects.Keys
      requires SweptWithin(done, subjects, departments, department, subjectCatalog[department].Items)
      requires department in departments
      requires model == CancelledWithin(r, key, done)
      requires removed <==> EnrolledIn(r, key) * done != {}
      modifies this, subjects.Values, studentDirectory.Values
      ensures Valid()
      ensures subjectCatalog == old(subjectCatalog) && subjects == old(subjects)
      ensures studentDirectory == old(studentDirectory)
      ensures SweptWithin(doneAfter, subjects, departments, department, {})
      ensures model == CancelledWithin(r, key, doneAfter)
      ensures removedAfter <==> EnrolledIn(r, key) * doneAfter != {}
    {
      removedAfter, doneAfter := removed, done;
      var pending := subjectCatalog[department].Items;
      while pending != {}
        invariant Valid()
        invariant subjectCatalog == old(subjectCatalog) && subjects == old(subjects)
        invariant studentDirectory == old(studentDirectory)
        invariant pending <= subjectCatalog[department].Items
        invariant SweptWithin(doneAfter, subjects, departments, department, pending)
        invariant model == CancelledWithin(r, key, doneAfter)
        invariant removedAfter <==> EnrolledIn(r, key) * doneAfter != {}
        decreases pending
      {
        var entry :| entry in pending;
        var courseNumber, course := entry.0, entry.1;
        ghost var id := (department, courseNumber);
        CourseFiled(department, courseNumber);
        SweptStep(doneAfter, subjects, departments, department, pending, entry);
        CancelledWithinStep(r, key, doneAfter, id);
        var wasPresent := TakeOffRoster(course, id, key);
        if wasPresent {
          removedAfter := true;
        }
        doneAfter := doneAfter + {id};
        pending := pending - {entry};
      }
    }

    // -------------------------------------------------------------------
    // Queries
    // -------------------------------------------------------------------

    /** The sizes of the department maps, summed: one per filed course. */
    function CountSubjects(): (count: nat)
      reads this, subjects.Values, studentDirectory.Values
      requires Valid()
      ensures count == Catalog.CountSubjects(model)
    {
      var filed := set department, courseNumber | department in subjectCatalog && courseNumber in subjectCatalog[department]
                     :: (department, courseNumber);
      assert filed == model.courses.Keys by {
        CatalogFiled();
        forall id | id in model.courses ensures id in filed {
          var department, courseNumber := id.0, id.1;
          assert department in subjectCatalog && courseNumber in subjectCatalog[department];
          assert (department, courseNumber) in filed;
        }
        forall id | id in filed ensures id in model.courses {
          var department, courseNumber :| department in subjectCatalog && courseNumber in subjectCatalog[department]
                                          && id == (department, courseNumber);
          CourseFiled(department, courseNumber);
        }
      }
      |filed|
    }

    function CountStudentsInSubject(department: string, courseNumber: int): (count: nat)
      reads this, subjects.Values, studentDirectory.Values
      requires Valid()
      ensures count == Catalog.CountStudentsInSubject(model, department, courseNumber)
    {
      var course := GetCourse(department, courseNumber);
      if course != null then course.CountEnrolledStudents() else 0
    }

    method CountStudentsWithLastName(department: string, courseNumber: int, lastName: string) returns (count: nat)
      requires Valid()
      ensures count == Catalog.CountStudentsWithLastName(model, department, courseNumber, lastName)
    {
      var course := GetCourse(department, courseNumber);
      if course == null {
        return 0;
      }
      count := course.CountStudentsByLastName(lastName);
      NamesFiled((department, courseNumber), lastName);
    }

    function IsStudentEnrolled(department: string, courseNumber: int, firstName: string, lastName: string): (enrolled: bool)
      reads this, subjects.Values, studentDirectory.Values
      requires Valid()
      ensures enrolled == Catalog.IsStudentEnrolled(model, department, courseNumber, firstName, lastName)
    {
      var course := GetCourse(department, courseNumber);
      course != null && course.IsStudentEnrolled(firstName, lastName)
    }

    /** The courses, across all departments, whose roster holds the student. */
    function CountCoursesStudentEnrolled(firstName: string, lastName: string): (count: nat)
      reads this, subjects.Values, studentDirectory.Values
      requires Valid()
      ensures count == Catalog.CountCoursesStudentEnrolled(model, firstName, lastName)
    {
      CoursesFiled();
      var holding := set department, courseNumber | department in subjectCatalog && courseNumber in subjectCatalog[department]
                                                     && subjectCatalog[department][courseNumber].IsStudentEnrolled(firstName, lastName)
                       :: (department, courseNumber);
      assert holding == EnrolledIn(model, StudentKey(firstName, lastName)) by {
        var key := StudentKey(firstName, lastName);
        CatalogFiled();
        forall id | id in EnrolledIn(model, key) ensures id in holding {
          var department, courseNumber := id.0, id.1;
          assert department in subjectCatalog && courseNumber in subjectCatalog[department];
          CourseFiled(department, courseNumber);
          RosterFiled(id);
          assert (department, courseNumber) in holding;
        }
        forall id | id in holding ensures id in EnrolledIn(model, key) {
          var department, courseNumber :| department in subjectCatalog && courseNumber in subjectCatalog[department]
                                          && subjectCatalog[department][courseNumber].IsStudentEnrolled(firstName, lastName)
                                          && id == (department, courseNumber);
          CourseFiled(department, courseNumber);
          RosterFiled(id);
        }
      }
      |holding|
    }

    // -------------------------------------------------------------------
    // Proof steps: each change to the heap keeps Valid()
    // -------------------------------------------------------------------

    /** Every course is filed under a department of the catalog. */
    lemma CatalogFiled()
      requires Valid()
      ensures forall id :: id in subjects ==> id.0 in subjectCatalog
      ensures subjects.Keys == model.courses.Keys
    {
    }

    /** Every course of the two-level map is one of `subjects`. */
    lemma CoursesFiled()
      requires Valid()
      ensures forall department, courseNumber ::
                department in subjectCatalog && courseNumber in subjectCatalog[department] ==>
                subjectCatalog[department][courseNumber] in subjects.Values
    {
      forall department, courseNumber | department in subjectCatalog && courseNumber in subjectCatalog[department]
        ensures subjectCatalog[department][courseNumber] in subjects.Values
      {
        CourseFiled(department, courseNumber);
      }
    }

    /** The courses of `department` are its course numbers. */
    lemma DepartmentFiled(department: string)
      requires Valid() && department in subjectCatalog
      ensures forall id :: id in subjects && id.0 == department ==> (id.1, subjects[id]) in subjectCatalog[department].Items
    {
      forall id | id in subjects && id.0 == department
        ensures (id.1, subjects[id]) in subjectCatalog[department].Items
      {
        assert id == (department, id.1) && id.1 in subjectCatalog[department];
        CourseFiled(department, id.1);
      }
    }

    /** A course found in the two-level map is the one filed under its id. */
    lemma CourseFiled(department: string, courseNumber: int)
      requires Valid() && department in subjectCatalog && courseNumber in subjectCatalog[department]
      ensures (department, courseNumber) in subjects
      ensures subjects[(department, courseNumber)] == subjectCatalog[department][courseNumber]
    {
    }

    /** The roster of a filed course holds learners of the directory, under
        the keys of its model roster. */
    lemma RosterFiled(id: CourseId)
      requires Valid() && id in subjects
      ensures id in model.courses
      ensures subjects[id].totalSeats == model.courses[id].totalSeats
      ensures subjects[id].enrolledStudents.Keys == model.courses[id].students
      ensures forall k :: k in subjects[id].enrolledStudents ==>
                k in studentDirectory && subjects[id].enrolledStudents[k] == studentDirectory[k]
      ensures subjects[id].enrolledStudents.Values <= studentDirectory.Values
    {
      assert RosterOf(subjects)[id] == subjects[id].enrolledStudents;
    }

    /** A learner of the directory has the names, the cap and the counter
        of its record. */
    lemma LearnerFiled(key: string)
      requires Valid() && key in studentDirectory
      ensures key in model.directory
      ensures studentDirectory[key].givenName == model.directory[key].givenName
      ensures studentDirectory[key].familyName == model.directory[key].familyName
      ensures studentDirectory[key].maxCourseLimit == model.maxCoursesAllowed
      ensures studentDirectory[key].enrolledCourseCount == model.directory[key].courseCount
    {
      assert CountOf(studentDirectory)[key] == studentDirectory[key].enrolledCourseCount;
    }

    /** Counting by family name on the course's roster counts the keys whose
        directory record has that family name. */
    lemma NamesFiled(id: CourseId, lastName: string)
      requires Valid() && id in subjects
      ensures id in model.courses
      ensures WithLastName(subjects[id].enrolledStudents, lastName) == WithFamilyName(model, id, lastName)
    {
      RosterFiled(id);
      assert CountOf(studentDirectory).Keys == studentDirectory.Keys;
    }
  }
}
