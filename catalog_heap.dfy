/** How the registrar's heap stands for a Catalog value: the rosters and
    counters read off the objects, the correspondence between the registrar's
    fields and its model, and how each kind of change to the fields and the
    objects keeps that correspondence. */
module CatalogHeap {
  import opened UniversityLearner
  import opened AcademicSubject
  import opened Catalog
  import CatalogProperties

  /** A roster per course, as read off the heap. */
  type Rosters = map<CourseId, map<string, Learner>>

  // ---------------------------------------------------------------------
  // How the heap stands for the Catalog value
  // ---------------------------------------------------------------------

  /** The roster each course holds in the current heap. */
  ghost function RosterOf(subjects: map<CourseId, Subject>): (rosters: Rosters)
    reads subjects.Values
    ensures rosters.Keys == subjects.Keys
  {
    map id | id in subjects :: subjects[id].enrolledStudents
  }

  /** The counter each learner holds in the current heap. */
  ghost function CountOf(directory: map<string, Learner>): (counts: map<string, nat>)
    reads directory.Values
    ensures counts.Keys == directory.Keys
  {
    map k | k in directory :: directory[k].enrolledCourseCount
  }

  /** `subjects` lists exactly the courses of the two-level map `catalog`. */
  ghost predicate CatalogShape(catalog: map<string, map<int, Subject>>, subjects: map<CourseId, Subject>)
  {
    && (forall department :: department in catalog ==>
          forall courseNumber :: courseNumber in catalog[department] ==>
            (department, courseNumber) in subjects &&
            subjects[(department, courseNumber)] == catalog[department][courseNumber])
    && (forall id :: id in subjects ==> id.0 in catalog && id.1 in catalog[id.0])
  }

  /** No object is filed under two keys. */
  ghost predicate Unshared<K, V>(m: map<K, V>)
  {
    forall a, b {:trigger m[a], m[b]} :: a in m && b in m && m[a] == m[b] ==> a == b
  }

  /** Each course has the seats and the roster keys of its model course. */
  ghost predicate CoursesMatch(subjects: map<CourseId, Subject>, rosters: Rosters, courses: map<CourseId, Roster>)
  {
    forall id :: id in subjects ==>
      && id in rosters && id in courses
      && subjects[id].totalSeats == courses[id].totalSeats
      && rosters[id].Keys == courses[id].students
  }

  /** Each roster entry is the learner the directory holds under the same key. */
  ghost predicate RostersPointTo(rosters: Rosters, directory: map<string, Learner>)
  {
    forall id :: id in rosters ==>
      forall k :: k in rosters[id] ==> k in directory && rosters[id][k] == directory[k]
  }

  /** Each learner has the names and the counter of its record, and the cap. */
  ghost predicate LearnersMatch(directory: map<string, Learner>, counts: map<string, nat>,
                                records: map<string, Record>, maxCoursesAllowed: int)
  {
    forall k :: k in directory ==>
      && k in records && k in counts
      && directory[k].givenName == records[k].givenName
      && directory[k].familyName == records[k].familyName
      && directory[k].maxCourseLimit == maxCoursesAllowed
      && counts[k] == records[k].courseCount
  }

  /** The registrar's fields, with the rosters and counters their objects
      hold, stand for `model`, which keeps the invariants. */
  ghost predicate Agrees(maxCoursesAllowed: int, catalog: map<string, map<int, Subject>>,
                         subjects: map<CourseId, Subject>, directory: map<string, Learner>,
                         rosters: Rosters, counts: map<string, nat>, model: Registrar)
  {
    && model.maxCoursesAllowed == maxCoursesAllowed
    && Inv(model)
    && subjects.Keys == model.courses.Keys && rosters.Keys == subjects.Keys
    && directory.Keys == model.directory.Keys && counts.Keys == directory.Keys
    && CatalogShape(catalog, subjects)
    && Unshared(subjects)
    && Unshared(directory)
    && CoursesMatch(subjects, rosters, model.courses)
    && RostersPointTo(rosters, directory)
    && LearnersMatch(directory, counts, model.directory, maxCoursesAllowed)
  }

  /** The counters after each key in `keys` is withdrawn once. */
  function WithdrawnCounts(counts: map<string, nat>, keys: set<string>): map<string, nat>
  {
    map k | k in counts :: if k in keys then AfterWithdrawals(counts[k], 1) else counts[k]
  }

  // ---------------------------------------------------------------------
  // Each part of the correspondence under each kind of change
  // ---------------------------------------------------------------------

  lemma CatalogShapeAdd(catalog: map<string, map<int, Subject>>, subjects: map<CourseId, Subject>,
                        department: string, courseNumber: int, course: Subject)
    requires CatalogShape(catalog, subjects)
    ensures var courses: map<int, Subject> := if department in catalog then catalog[department] else map[];
            CatalogShape(catalog[department := courses[courseNumber := course]],
                         subjects[(department, courseNumber) := course])
  {
  }

  lemma CatalogShapeRemove(catalog: map<string, map<int, Subject>>, subjects: map<CourseId, Subject>,
                           department: string, courseNumber: int)
    requires CatalogShape(catalog, subjects) && department in catalog
    ensures CatalogShape(catalog[department := catalog[department] - {courseNumber}],
                         subjects - {(department, courseNumber)})
  {
  }

  /** Filing `v` under `k` shares no object, if `v` is new or already filed under `k`. */
  lemma UnsharedPut<K, V>(m: map<K, V>, k: K, v: V)
    requires Unshared(m)
    requires if k in m then m[k] == v else v !in m.Values
    ensures Unshared(m[k := v])
  {
  }

  lemma UnsharedRemove<K, V>(m: map<K, V>, k: K)
    requires Unshared(m)
    ensures Unshared(m - {k})
  {
  }

  lemma CoursesMatchPut(subjects: map<CourseId, Subject>, rosters: Rosters, courses: map<CourseId, Roster>,
                        id: CourseId, course: Subject, roster: map<string, Learner>, entry: Roster)
    requires CoursesMatch(subjects, rosters, courses)
    requires course.totalSeats == entry.totalSeats && roster.Keys == entry.students
    ensures CoursesMatch(subjects[id := course], rosters[id := roster], courses[id := entry])
  {
  }

  lemma CoursesMatchRemove(subjects: map<CourseId, Subject>, rosters: Rosters, courses: map<CourseId, Roster>,
                           id: CourseId)
    requires CoursesMatch(subjects, rosters, courses)
    ensures CoursesMatch(subjects - {id}, rosters - {id}, courses - {id})
  {
  }

  lemma RostersPointToEmpty(rosters: Rosters, directory: map<string, Learner>, id: CourseId)
    requires RostersPointTo(rosters, directory)
    ensures RostersPointTo(rosters[id := map[]], directory)
  {
  }

  lemma RostersPointToReplace(rosters: Rosters, directory: map<string, Learner>,
                              id: CourseId, roster: map<string, Learner>, key: string, student: Learner)
    requires RostersPointTo(rosters, directory)
    requires key in directory ==> directory[key] == student
    requires forall k :: k in roster ==> k in directory[key := student] && roster[k] == directory[key := student][k]
    ensures RostersPointTo(rosters[id := roster], directory[key := student])
  {
  }

  lemma RostersPointToTake(rosters: Rosters, directory: map<string, Learner>, id: CourseId, key: string)
    requires RostersPointTo(rosters, directory) && id in rosters
    ensures RostersPointTo(rosters[id := rosters[id] - {key}], directory)
    ensures RostersPointTo(rosters - {id}, directory)
  {
  }

  lemma LearnersMatchPut(directory: map<string, Learner>, counts: map<string, nat>,
                         records: map<string, Record>, maxCoursesAllowed: int,
                         key: string, student: Learner, entry: Record)
    requires LearnersMatch(directory, counts, records, maxCoursesAllowed)
    requires student.givenName == entry.givenName && student.familyName == entry.familyName
    requires student.maxCourseLimit == maxCoursesAllowed
    ensures LearnersMatch(directory[key := student], counts[key := entry.courseCount],
                          records[key := entry], maxCoursesAllowed)
  {
  }

  lemma LearnersMatchWithdrawEach(directory: map<string, Learner>, counts: map<string, nat>,
                                  records: map<string, Record>, maxCoursesAllowed: int, keys: set<string>)
    requires LearnersMatch(directory, counts, records, maxCoursesAllowed)
    requires counts.Keys == directory.Keys && directory.Keys == records.Keys
    ensures LearnersMatch(directory, WithdrawnCounts(counts, keys), WithdrawEach(records, keys), maxCoursesAllowed)
  {
  }

  // ---------------------------------------------------------------------
  // Each change to the fields keeps them in step with the model
  // ---------------------------------------------------------------------

  /** The parts of the correspondence, assembled. */
  lemma AgreesIntro(maxCoursesAllowed: int, catalog: map<string, map<int, Subject>>,
                    subjects: map<CourseId, Subject>, directory: map<string, Learner>,
                    rosters: Rosters, counts: map<string, nat>, model: Registrar)
    requires model.maxCoursesAllowed == maxCoursesAllowed && Inv(model)
    requires subjects.Keys == model.courses.Keys && rosters.Keys == subjects.Keys
    requires directory.Keys == model.directory.Keys && counts.Keys == directory.Keys
    requires CatalogShape(catalog, subjects) && Unshared(subjects) && Unshared(directory)
    requires CoursesMatch(subjects, rosters, model.courses)
    requires RostersPointTo(rosters, directory)
    requires LearnersMatch(directory, counts, model.directory, maxCoursesAllowed)
    ensures Agrees(maxCoursesAllowed, catalog, subjects, directory, rosters, counts, model)
  {
  }

  /** The roster of course `id` becomes `roster`, and the directory files
      `student` under `key` with record `entry`: the one shape of change that
      admitting and withdrawing share. */
  lemma AgreesPut(maxCoursesAllowed: int, catalog: map<string, map<int, Subject>>,
                  subjects: map<CourseId, Subject>, directory: map<string, Learner>,
                  rosters: Rosters, counts: map<string, nat>, model: Registrar, model': Registrar,
                  id: CourseId, roster: map<string, Learner>, key: string, student: Learner, entry: Record)
    requires Agrees(maxCoursesAllowed, catalog, subjects, directory, rosters, counts, model)
    requires Inv(model') && model'.maxCoursesAllowed == maxCoursesAllowed
    requires id in subjects
    requires model'.courses == model.courses[id := Roster(model.courses[id].totalSeats, roster.Keys)]
    requires model'.directory == model.directory[key := entry]
    requires student.givenName == entry.givenName && student.familyName == entry.familyName
    requires student.maxCourseLimit == maxCoursesAllowed
    requires if key in directory then student == directory[key] else student !in directory.Values
    requires forall k :: k in roster ==> k in directory[key := student] && roster[k] == directory[key := student][k]
    ensures Agrees(maxCoursesAllowed, catalog, subjects, directory[key := student],
                   rosters[id := roster], counts[key := entry.courseCount], model')
  {
    KeysPut(directory, key, student);
    KeysPut(model.directory, key, entry);
    KeysPut(counts, key, entry.courseCount);
    KeysPut(rosters, id, roster);
    KeysPut(model.courses, id, Roster(model.courses[id].totalSeats, roster.Keys));
    UnsharedPut(directory, key, student);
    CoursesMatchPut(subjects, rosters, model.courses, id, subjects[id], roster,
                    Roster(model.courses[id].totalSeats, roster.Keys));
    SameMap(subjects, id);
    RostersPointToReplace(rosters, directory, id, roster, key, student);
    LearnersMatchPut(directory, counts, model.directory, maxCoursesAllowed, key, student, entry);
    AgreesIntro(maxCoursesAllowed, catalog, subjects, directory[key := student],
                rosters[id := roster], counts[key := entry.courseCount], model');
  }

  /** Filing a new, empty course. */
  lemma AgreesAddSubject(maxCoursesAllowed: int, catalog: map<string, map<int, Subject>>,
                         subjects: map<CourseId, Subject>, directory: map<string, Learner>,
                         rosters: Rosters, counts: map<string, nat>, model: Registrar,
                         department: string, courseNumber: int, seatCount: int, course: Subject)
    requires Agrees(maxCoursesAllowed, catalog, subjects, directory, rosters, counts, model)
    requires Catalog.AddSubject(model, department, courseNumber, seatCount).result.Ok?
    requires (department, courseNumber) !in model.courses
    requires course.totalSeats == seatCount && course !in subjects.Values
    ensures var courses: map<int, Subject> := if department in catalog then catalog[department] else map[];
            var id := (department, courseNumber);
            Agrees(maxCoursesAllowed, catalog[department := courses[courseNumber := course]],
                   subjects[id := course], directory, rosters[id := map[]], counts,
                   Catalog.AddSubject(model, department, courseNumber, seatCount).next)
  {
    var id := (department, courseNumber);
    CatalogProperties.AddSubjectKeepsInv(model, department, courseNumber, seatCount);
    CatalogShapeAdd(catalog, subjects, department, courseNumber, course);
    UnsharedPut(subjects, id, course);
    CoursesMatchPut(subjects, rosters, model.courses, id, course, map[], Roster(seatCount, {}));
    RostersPointToEmpty(rosters, directory, id);
  }

  /** Taking a course out of both views and withdrawing each learner on its
      roster once. */
  lemma AgreesRemoveSubject(maxCoursesAllowed: int, catalog: map<string, map<int, Subject>>,
                            subjects: map<CourseId, Subject>, directory: map<string, Learner>,
                            rosters: Rosters, counts: map<string, nat>, model: Registrar,
                            department: string, courseNumber: int)
    requires Agrees(maxCoursesAllowed, catalog, subjects, directory, rosters, counts, model)
    requires Catalog.RemoveSubject(model, department, courseNumber).result == Ok(true)
    ensures department in catalog
    ensures var id := (department, courseNumber);
            Agrees(maxCoursesAllowed, catalog[department := catalog[department] - {courseNumber}],
                   subjects - {id}, directory, rosters - {id}, WithdrawnCounts(counts, rosters[id].Keys),
                   Catalog.RemoveSubject(model, department, courseNumber).next)
  {
    var id := (department, courseNumber);
    CatalogProperties.RemoveSubjectKeepsInv(model, department, courseNumber);
    CatalogShapeRemove(catalog, subjects, department, courseNumber);
    UnsharedRemove(subjects, id);
    CoursesMatchRemove(subjects, rosters, model.courses, id);
    RostersPointToTake(rosters, directory, id, "");
    LearnersMatchWithdrawEach(directory, counts, model.directory, maxCoursesAllowed, rosters[id].Keys);
  }

  /** Admitting `key` into course `id`, with `student` newly filed under
      `key` unless the directory already held it. */
  lemma AgreesEnrollStudent(maxCoursesAllowed: int, catalog: map<string, map<int, Subject>>,
                            subjects: map<CourseId, Subject>, directory: map<string, Learner>,
                            rosters: Rosters, counts: map<string, nat>, model: Registrar,
                            department: string, courseNumber: int, firstName: string, lastName: string,
                            student: Learner)
    requires Agrees(maxCoursesAllowed, catalog, subjects, directory, rosters, counts, model)
    requires Catalog.EnrollStudent(model, department, courseNumber, firstName, lastName).result == Ok(true)
    requires var key := StudentKey(firstName, lastName);
             if key in directory then student == directory[key]
             else && student !in directory.Values
                  && student.givenName == firstName && student.familyName == lastName
                  && student.maxCourseLimit == maxCoursesAllowed
    ensures (department, courseNumber) in rosters
    ensures var id := (department, courseNumber);
            var key := StudentKey(firstName, lastName);
            Agrees(maxCoursesAllowed, catalog, subjects, directory[key := student],
                   rosters[id := rosters[id][key := student]],
                   counts[key := (if key in counts then counts[key] else 0) + 1],
                   Catalog.EnrollStudent(model, department, courseNumber, firstName, lastName).next)
  {
    var id := (department, courseNumber);
    var key := StudentKey(firstName, lastName);
    var model' := Catalog.EnrollStudent(model, department, courseNumber, firstName, lastName).next;
    var entry := model'.directory[key];
    CatalogProperties.EnrollStudentKeepsInv(model, department, courseNumber, firstName, lastName);
    AdmissionShape(model, department, courseNumber, firstName, lastName);
    KeysPut(rosters[id], key, student);
    AgreesPut(maxCoursesAllowed, catalog, subjects, directory, rosters, counts, model, model',
              id, rosters[id][key := student], key, student, entry);
  }

  /** Taking `key` off the roster of course `id` and withdrawing its learner once. */
  lemma AgreesUnenroll(maxCoursesAllowed: int, catalog: map<string, map<int, Subject>>,
                       subjects: map<CourseId, Subject>, directory: map<string, Learner>,
                       rosters: Rosters, counts: map<string, nat>, model: Registrar,
                       id: CourseId, key: string)
    requires Agrees(maxCoursesAllowed, catalog, subjects, directory, rosters, counts, model)
    requires id in model.courses && key in model.courses[id].students
    ensures id in rosters && key in counts
    ensures Agrees(maxCoursesAllowed, catalog, subjects, directory,
                   rosters[id := rosters[id] - {key}], counts[key := AfterWithdrawals(counts[key], 1)],
                   Unenroll(model, id, key))
  {
    var model' := Unenroll(model, id, key);
    CatalogProperties.UnenrollKeepsInv(model, id, key);
    assert key in rosters[id];
    var entry := Withdrawn(model.directory[key]);
    KeysTake(rosters[id], key);
    WithdrawEachOne(model.directory, key);
    SameMap(directory, key);
    AgreesPut(maxCoursesAllowed, catalog, subjects, directory, rosters, counts, model, model',
              id, rosters[id] - {key}, key, directory[key], entry);
  }

  /** What a successful enrollment does to the courses and the directory. */
  lemma AdmissionShape(r: Registrar, department: string, courseNumber: int, firstName: string, lastName: string)
    requires Catalog.EnrollStudent(r, department, courseNumber, firstName, lastName).result == Ok(true)
    ensures var r' := Catalog.EnrollStudent(r, department, courseNumber, firstName, lastName).next;
            var key := StudentKey(firstName, lastName);
            var id := (department, courseNumber);
            && id in r.courses && key in r'.directory
            && r'.courses == r.courses[id := r'.courses[id]]
            && r'.courses[id] == r.courses[id].(students := r.courses[id].students + {key})
            && r'.directory == r.directory[key := r'.directory[key]]
            && r'.directory[key].courseCount == (if key in r.directory then r.directory[key].courseCount else 0) + 1
            && (key in r.directory ==>
                  r'.directory[key].givenName == r.directory[key].givenName &&
                  r'.directory[key].familyName == r.directory[key].familyName)
            && (key !in r.directory ==> r'.directory[key].givenName == firstName && r'.directory[key].familyName == lastName)
  {
    var r' := Catalog.EnrollStudent(r, department, courseNumber, firstName, lastName).next;
    var key := StudentKey(firstName, lastName);
    assert r'.directory == r.directory[key := r'.directory[key]];
  }

  lemma SameMap<K, V>(m: map<K, V>, k: K)
    requires k in m
    ensures m[k := m[k]] == m
  {
  }

  lemma KeysPut<K, V>(m: map<K, V>, k: K, v: V)
    ensures m[k := v].Keys == m.Keys + {k}
  {
  }

  lemma KeysTake<K, V>(m: map<K, V>, k: K)
    ensures (m - {k}).Keys == m.Keys - {k}
  {
  }

  lemma WithdrawEachOne(directory: map<string, Record>, key: string)
    requires key in directory
    ensures WithdrawEach(directory, {key}) == directory[key := Withdrawn(directory[key])]
  {
  }

  // ---------------------------------------------------------------------
  // Cancelling course by course
  // ---------------------------------------------------------------------

  /** The registrar once `key` has been taken off the rosters of the courses
      in `done`, its counter withdrawn once for each of them that held it. */
  ghost function CancelledWithin(r: Registrar, key: string, done: set<CourseId>): Registrar
  {
    var courses := map id | id in r.courses ::
                     if id in done then r.courses[id].(students := r.courses[id].students - {key})
                     else r.courses[id];
    var directory := if key in r.directory
                     then r.directory[key := r.directory[key].(courseCount :=
                            AfterWithdrawals(r.directory[key].courseCount, |EnrolledIn(r, key) * done|))]
                     else r.directory;
    r.(courses := courses, directory := directory)
  }

  lemma CancelledWithinNothing(r: Registrar, key: string)
    ensures CancelledWithin(r, key, {}) == r
  {
    var r' := CancelledWithin(r, key, {});
    assert r'.courses == r.courses;
    assert r'.directory == r.directory;
  }

  /** Once every course is done, the cancellation is complete. */
  lemma CancelledWithinAll(r: Registrar, firstName: string, lastName: string)
    requires firstName != "" && lastName != ""
    ensures var key := StudentKey(firstName, lastName);
            && EnrolledIn(r, key) * r.courses.Keys == EnrolledIn(r, key)
            && CancelledWithin(r, key, r.courses.Keys) == Catalog.CancelStudentEnrollment(r, firstName, lastName).next
  {
    var key := StudentKey(firstName, lastName);
    assert EnrolledIn(r, key) * r.courses.Keys == EnrolledIn(r, key);
  }

  /** Doing one more course takes `key` off its roster when it is there, and
      otherwise changes nothing. */
  lemma CancelledWithinStep(r: Registrar, key: string, done: set<CourseId>, id: CourseId)
    requires id in r.courses && id !in done
    ensures var before := CancelledWithin(r, key, done);
            && id in before.courses && before.courses[id] == r.courses[id]
            && CancelledWithin(r, key, done + {id}) ==
               if key in r.courses[id].students then Unenroll(before, id, key) else before
    ensures (EnrolledIn(r, key) * (done + {id}) != {}) <==>
            (EnrolledIn(r, key) * done != {} || key in r.courses[id].students)
  {
    if key in r.courses[id].students {
      assert id in EnrolledIn(r, key) * (done + {id});
    }
    var before := CancelledWithin(r, key, done);
    var after := CancelledWithin(r, key, done + {id});
    if key in r.courses[id].students {
      var step := Unenroll(before, id, key);
      assert EnrolledIn(r, key) * (done + {id}) == (EnrolledIn(r, key) * done) + {id};
      assert after.courses == step.courses;
      assert after.directory == step.directory;
    } else {
      assert EnrolledIn(r, key) * (done + {id}) == EnrolledIn(r, key) * done;
      assert r.courses[id].students - {key} == r.courses[id].students;
      assert after.courses == before.courses;
    }
  }

  /** The sweep over the two-level map has done exactly the courses of
      `ids` whose department is no longer pending. */
  ghost predicate SweptDepartments(done: set<CourseId>, ids: set<CourseId>, departments: set<string>)
  {
    done <= ids && forall id :: id in ids ==> (id in done <==> id.0 !in departments)
  }

  /** The same, in the middle of `department`, whose pending entries
      (course number and course) are `pending`. */
  ghost predicate SweptWithin(done: set<CourseId>, subjects: map<CourseId, Subject>, departments: set<string>,
                              department: string, pending: set<(int, Subject)>)
  {
    && done <= subjects.Keys
    && forall id :: id in subjects ==>
         (id in done <==> id.0 !in departments || (id.0 == department && (id.1, subjects[id]) !in pending))
  }

  lemma SweptNothing(ids: set<CourseId>, departments: set<string>)
    requires forall id :: id in ids ==> id.0 in departments
    ensures SweptDepartments({}, ids, departments)
  {
  }

  /** Starting on a pending department whose entries are all pending. */
  lemma SweptEnter(done: set<CourseId>, subjects: map<CourseId, Subject>, departments: set<string>,
                   department: string, pending: set<(int, Subject)>)
    requires SweptDepartments(done, subjects.Keys, departments) && department in departments
    requires forall id :: id in subjects && id.0 == department ==> (id.1, subjects[id]) in pending
    ensures SweptWithin(done, subjects, departments, department, pending)
  {
  }

  /** One more course of the current department is done. */
  lemma SweptStep(done: set<CourseId>, subjects: map<CourseId, Subject>, departments: set<string>,
                  department: string, pending: set<(int, Subject)>, entry: (int, Subject))
    requires SweptWithin(done, subjects, departments, department, pending)
    requires entry in pending && department in departments
    requires (department, entry.0) in subjects && subjects[(department, entry.0)] == entry.1
    ensures (department, entry.0) !in done
    ensures SweptWithin(done + {(department, entry.0)}, subjects, departments, department, pending - {entry})
  {
  }

  /** The current department has no pending course left. */
  lemma SweptLeave(done: set<CourseId>, subjects: map<CourseId, Subject>, departments: set<string>, department: string)
    requires SweptWithin(done, subjects, departments, department, {})
    ensures SweptDepartments(done, subjects.Keys, departments - {department})
  {
  }

  /** No department pending: every course is done. */
  lemma SweptAll(done: set<CourseId>, ids: set<CourseId>)
    requires SweptDepartments(done, ids, {})
    ensures done == ids
  {
  }

  // ---------------------------------------------------------------------
  // What the heap holds before and after a change
  // ---------------------------------------------------------------------

  twostate lemma RosterOfSame(subjects: map<CourseId, Subject>)
    requires unchanged(subjects.Values)
    ensures RosterOf(subjects) == old(RosterOf(subjects))
  {
  }

  twostate lemma CountOfSame(directory: map<string, Learner>)
    requires unchanged(directory.Values)
    ensures CountOf(directory) == old(CountOf(directory))
  {
  }

  /** A course with an empty roster is filed under `id`; no other roster changed. */
  twostate lemma RosterOfAdd(subjects: map<CourseId, Subject>, new id: CourseId, new course: Subject)
    requires unchanged(subjects.Values) && course.enrolledStudents == map[]
    ensures RosterOf(subjects[id := course]) == old(RosterOf(subjects))[id := map[]]
  {
  }

  /** Course `id` is dropped; no other roster changed. */
  twostate lemma RosterOfRemove(subjects: map<CourseId, Subject>, new id: CourseId)
    requires id in subjects && Unshared(subjects)
    requires unchanged(subjects.Values - {subjects[id]})
    ensures old(RosterOf(subjects))[id] == old(subjects[id].enrolledStudents)
    ensures RosterOf(subjects - {id}) == old(RosterOf(subjects)) - {id}
  {
  }

  /** `student` is registered under `key` on course `id`; no other roster changed. */
  twostate lemma RosterOfRegister(subjects: map<CourseId, Subject>, new id: CourseId, new key: string, new student: Learner)
    requires id in subjects && Unshared(subjects)
    requires unchanged(subjects.Values - {subjects[id]})
    requires subjects[id].enrolledStudents == old(subjects[id].enrolledStudents)[key := student]
    ensures RosterOf(subjects) == old(RosterOf(subjects))[id := old(RosterOf(subjects))[id][key := student]]
  {
  }

  /** `key` is taken off the roster of course `id`; no other roster changed. */
  twostate lemma RosterOfUnregister(subjects: map<CourseId, Subject>, new id: CourseId, new key: string)
    requires id in subjects && Unshared(subjects)
    requires unchanged(subjects.Values - {subjects[id]})
    requires subjects[id].enrolledStudents == old(subjects[id].enrolledStudents) - {key}
    ensures RosterOf(subjects) == old(RosterOf(subjects))[id := old(RosterOf(subjects))[id] - {key}]
  {
  }

  /** The learner filed under `key`, or `student` newly filed there, gained
      one course; no other counter changed. */
  twostate lemma CountOfEnroll(directory: map<string, Learner>, new key: string, new student: Learner)
    requires Unshared(directory)
    requires if key in directory then directory[key] == student else student !in directory.Values
    requires unchanged(directory.Values - {student})
    requires student.enrolledCourseCount ==
             (if key in directory then old(directory[key].enrolledCourseCount) else 0) + 1
    ensures var counts := old(CountOf(directory));
            CountOf(directory[key := student]) == counts[key := (if key in counts then counts[key] else 0) + 1]
  {
  }

  /** The learner filed under `key` was withdrawn once; no other counter changed. */
  twostate lemma CountOfWithdraw(directory: map<string, Learner>, new key: string)
    requires key in directory && Unshared(directory)
    requires unchanged(directory.Values - {directory[key]})
    requires directory[key].enrolledCourseCount == AfterWithdrawals(old(directory[key].enrolledCourseCount), 1)
    ensures var counts := old(CountOf(directory));
            key in counts && CountOf(directory) == counts[key := AfterWithdrawals(counts[key], 1)]
  {
  }

  /** Each learner filed under a key in `keys`, and no other, was withdrawn once. */
  twostate lemma CountOfWithdrawn(directory: map<string, Learner>, new keys: set<string>)
    requires forall k :: k in directory ==>
               directory[k].enrolledCourseCount ==
               if k in keys then AfterWithdrawals(old(directory[k].enrolledCourseCount), 1)
               else old(directory[k].enrolledCourseCount)
    ensures CountOf(directory) == WithdrawnCounts(old(CountOf(directory)), keys)
  {
  }

  /** Every learner on `roster`, and no other, was withdrawn once for each
      key it is filed under there. */
  twostate lemma CountOfCleared(directory: map<string, Learner>, new roster: map<string, Learner>)
    requires Unshared(directory)
    requires forall k :: k in roster ==> k in directory && roster[k] == directory[k]
    requires unchanged(directory.Values - roster.Values)
    requires forall k :: k in roster ==>
               var s := roster[k];
               s.enrolledCourseCount == AfterWithdrawals(old(s.enrolledCourseCount), |HoldersOf(roster, s)|)
    ensures CountOf(directory) == WithdrawnCounts(old(CountOf(directory)), roster.Keys)
  {
    forall k | k in directory
      ensures directory[k].enrolledCourseCount ==
              if k in roster.Keys then AfterWithdrawals(old(directory[k].enrolledCourseCount), 1)
              else old(directory[k].enrolledCourseCount)
    {
      if k in roster {
        assert HoldersOf(roster, roster[k]) == {k};
      } else {
        assert directory[k] !in roster.Values;
      }
    }
    CountOfWithdrawn(directory, roster.Keys);
  }
}
