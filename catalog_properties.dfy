/** What the registrar promises, proved about the operations of Catalog:
    every operation keeps the invariants, and each operation does what its
    callers rely on. */
module CatalogProperties {
  import opened Catalog

  // ---------------------------------------------------------------------
  // Every operation keeps the invariants
  // ---------------------------------------------------------------------

  lemma AddSubjectKeepsInv(r: Registrar, department: string, courseNumber: int, seatCount: int)
    requires Inv(r)
    ensures Inv(AddSubject(r, department, courseNumber, seatCount).next)
  {
    var r' := AddSubject(r, department, courseNumber, seatCount).next;
    forall k | k in r'.directory
      ensures r'.directory[k].courseCount == |EnrolledIn(r', k)|
    {
      assert EnrolledIn(r', k) == EnrolledIn(r, k);
    }
  }

  lemma RemoveSubjectKeepsInv(r: Registrar, department: string, courseNumber: int)
    requires Inv(r)
    ensures Inv(RemoveSubject(r, department, courseNumber).next)
  {
    var s := RemoveSubject(r, department, courseNumber);
    var id := (department, courseNumber);
    if s.result == Ok(true) {
      var r' := s.next;
      var dropped := r.courses[id].students;
      forall k | k in r'.directory
        ensures r'.directory[k].courseCount <= r'.maxCoursesAllowed
        ensures r'.directory[k].courseCount == |EnrolledIn(r', k)|
      {
        if k in dropped {
          assert id in EnrolledIn(r, k);
          assert EnrolledIn(r', k) == EnrolledIn(r, k) - {id};
        } else {
          assert EnrolledIn(r', k) == EnrolledIn(r, k);
        }
      }
    }
  }

  lemma EnrollStudentKeepsInv(r: Registrar, department: string, courseNumber: int,
                              firstName: string, lastName: string)
    requires Inv(r)
    ensures Inv(EnrollStudent(r, department, courseNumber, firstName, lastName).next)
  {
    var s := EnrollStudent(r, department, courseNumber, firstName, lastName);
    var key := StudentKey(firstName, lastName);
    if key !in r.directory {
      // A key with no directory entry is on no roster.
      assert EnrolledIn(r, key) == {};
    }
    if s.result == Ok(true) {
      EnrolledStudentCounted(r, s.next, (department, courseNumber), key);
    }
  }

  /** Adding `key` to the roster of `id` and one to its counter keeps the
      counters equal to the number of rosters holding each key. */
  lemma EnrolledStudentCounted(r: Registrar, r': Registrar, id: CourseId, key: string)
    requires CountsAgree(r) && RostersKnown(r)
    requires id in r.courses && key !in r.courses[id].students
    requires key !in r.directory ==> EnrolledIn(r, key) == {}
    requires r'.courses == r.courses[id := r.courses[id].(students := r.courses[id].students + {key})]
    requires r'.directory.Keys == r.directory.Keys + {key}
    requires forall k :: k in r.directory && k != key ==> r'.directory[k] == r.directory[k]
    requires r'.directory[key].courseCount ==
             (if key in r.directory then r.directory[key].courseCount else 0) + 1
    ensures CountsAgree(r')
  {
    forall k | k in r'.directory
      ensures r'.directory[k].courseCount == |EnrolledIn(r', k)|
    {
      if k == key {
        assert id !in EnrolledIn(r, k);
        assert EnrolledIn(r', k) == EnrolledIn(r, k) + {id};
      } else {
        assert EnrolledIn(r', k) == EnrolledIn(r, k);
      }
    }
  }

  lemma WithdrawStudentKeepsInv(r: Registrar, department: string, courseNumber: int,
                                firstName: string, lastName: string)
    requires Inv(r)
    ensures Inv(WithdrawStudent(r, department, courseNumber, firstName, lastName).next)
  {
    if WithdrawStudent(r, department, courseNumber, firstName, lastName).result == Ok(true) {
      UnenrollKeepsInv(r, (department, courseNumber), StudentKey(firstName, lastName));
    }
  }

  /** Taking an enrolled key off one roster, and its counter down by one,
      keeps the invariants. */
  lemma UnenrollKeepsInv(r: Registrar, id: CourseId, key: string)
    requires Inv(r)
    requires id in r.courses && key in r.courses[id].students
    ensures Inv(Unenroll(r, id, key))
  {
    UnenrollKeepsRosters(r, id, key);
    UnenrollKeepsCounts(r, id, key);
  }

  lemma UnenrollKeepsRosters(r: Registrar, id: CourseId, key: string)
    requires Inv(r) && id in r.courses
    ensures var r' := Unenroll(r, id, key);
            SeatsRespected(r') && RostersKnown(r')
  {
    var r' := Unenroll(r, id, key);
    assert r'.courses[id].students <= r.courses[id].students;
  }

  lemma UnenrollKeepsCounts(r: Registrar, id: CourseId, key: string)
    requires Inv(r)
    requires id in r.courses && key in r.courses[id].students
    ensures var r' := Unenroll(r, id, key);
            CapRespected(r') && CountsAgree(r')
  {
    var r' := Unenroll(r, id, key);
    forall k | k in r'.directory
      ensures r'.directory[k].courseCount <= r'.maxCoursesAllowed
      ensures r'.directory[k].courseCount == |EnrolledIn(r', k)|
    {
      UnenrollCountOf(r, id, key, k);
    }
  }

  /** The counter and the rosters of one key after an unenrolment. */
  lemma UnenrollCountOf(r: Registrar, id: CourseId, key: string, k: string)
    requires Inv(r)
    requires id in r.courses && key in r.courses[id].students && k in r.directory
    ensures var r' := Unenroll(r, id, key);
            && k in r'.directory
            && r'.directory[k].courseCount <= r.directory[k].courseCount
            && r'.directory[k].courseCount == |EnrolledIn(r', k)|
  {
    var r' := Unenroll(r, id, key);
    if k == key {
      assert id in EnrolledIn(r, k);
      assert EnrolledIn(r', k) == EnrolledIn(r, k) - {id};
      assert r'.directory[k] == Withdrawn(r.directory[k]);
    } else {
      assert EnrolledIn(r', k) == EnrolledIn(r, k);
      assert r'.directory[k] == r.directory[k];
    }
  }

  lemma CancelStudentEnrollmentKeepsInv(r: Registrar, firstName: string, lastName: string)
    requires Inv(r)
    ensures Inv(CancelStudentEnrollment(r, firstName, lastName).next)
  {
    if firstName != "" && lastName != "" {
      CancelKeepsRosters(r, firstName, lastName);
      CancelKeepsCounts(r, firstName, lastName);
    }
  }

  /** Cancelling only shrinks rosters and lowers one counter. */
  lemma CancelKeepsRosters(r: Registrar, firstName: string, lastName: string)
    requires Inv(r) && firstName != "" && lastName != ""
    ensures var r' := CancelStudentEnrollment(r, firstName, lastName).next;
            SeatsRespected(r') && RostersKnown(r') && CapRespected(r')
  {
    var r' := CancelStudentEnrollment(r, firstName, lastName).next;
    forall id | id in r'.courses
      ensures 1 <= r'.courses[id].totalSeats && |r'.courses[id].students| <= r'.courses[id].totalSeats
      ensures r'.courses[id].students <= r'.directory.Keys
    {
      assert r'.courses[id].students <= r.courses[id].students;
    }
  }

  /** After cancelling, the key is on no roster and its counter is zero;
      every other counter still counts its rosters. */
  lemma CancelKeepsCounts(r: Registrar, firstName: string, lastName: string)
    requires Inv(r) && firstName != "" && lastName != ""
    ensures CountsAgree(CancelStudentEnrollment(r, firstName, lastName).next)
  {
    var key := StudentKey(firstName, lastName);
    var r' := CancelStudentEnrollment(r, firstName, lastName).next;
    forall k | k in r'.directory
      ensures r'.directory[k].courseCount == |EnrolledIn(r', k)|
    {
      if k == key {
        assert EnrolledIn(r', k) == {};
      } else {
        assert EnrolledIn(r', k) == EnrolledIn(r, k);
      }
    }
  }

  // ---------------------------------------------------------------------
  // Adding and removing courses
  // ---------------------------------------------------------------------

  /** Adding a course a second time, with any seat count, changes nothing:
      neither its seats nor its roster are reset. */
  lemma AddSubjectIdempotent(r: Registrar, department: string, courseNumber: int,
                             seatCount: int, otherSeatCount: int)
    requires AddSubject(r, department, courseNumber, seatCount).result.Ok?
    requires otherSeatCount >= 1
    ensures var once := AddSubject(r, department, courseNumber, seatCount).next;
            AddSubject(once, department, courseNumber, otherSeatCount) == Step(Ok(()), once)
  {
  }

  /** A valid new course is filed with its seat count and an empty roster,
      every other course is kept, and the course count rises by exactly one. */
  lemma AddSubjectCountsOneMore(r: Registrar, department: string, courseNumber: int, seatCount: int)
    requires AddSubject(r, department, courseNumber, seatCount).result.Ok?
    requires (department, courseNumber) !in r.courses
    ensures AddSubject(r, department, courseNumber, seatCount).next.courses ==
            r.courses[(department, courseNumber) := Roster(seatCount, {})]
    ensures CountSubjects(AddSubject(r, department, courseNumber, seatCount).next) == CountSubjects(r) + 1
    ensures CountStudentsInSubject(AddSubject(r, department, courseNumber, seatCount).next, department, courseNumber) == 0
  {
  }

  /** Removing a present course lowers the course count by exactly one. */
  lemma RemoveSubjectCountsOneLess(r: Registrar, department: string, courseNumber: int)
    requires RemoveSubject(r, department, courseNumber).result == Ok(true)
    ensures CountSubjects(RemoveSubject(r, department, courseNumber).next) == CountSubjects(r) - 1
  {
    var id := (department, courseNumber);
    var r' := RemoveSubject(r, department, courseNumber).next;
    assert r.courses.Keys == r'.courses.Keys + {id};
  }

  /** Adding a new course and removing it again gives back the registrar
      exactly as it was, so in particular the course count is restored. */
  lemma AddThenRemoveRestores(r: Registrar, department: string, courseNumber: int, seatCount: int)
    requires AddSubject(r, department, courseNumber, seatCount).result.Ok?
    requires (department, courseNumber) !in r.courses
    ensures var added := AddSubject(r, department, courseNumber, seatCount).next;
            RemoveSubject(added, department, courseNumber) == Step(Ok(true), r)
    ensures var added := AddSubject(r, department, courseNumber, seatCount).next;
            CountSubjects(RemoveSubject(added, department, courseNumber).next) == CountSubjects(r)
  {
    var id := (department, courseNumber);
    var added := AddSubject(r, department, courseNumber, seatCount).next;
    assert added.courses - {id} == r.courses;
    assert WithdrawEach(added.directory, {}) == r.directory;
  }

  /** Removing a course withdraws each learner on its roster exactly once and
      leaves every other learner alone. */
  lemma RemoveSubjectWithdrawsEachOnce(r: Registrar, department: string, courseNumber: int)
    requires Inv(r)
    requires RemoveSubject(r, department, courseNumber).result == Ok(true)
    ensures var r' := RemoveSubject(r, department, courseNumber).next;
            var dropped := r.courses[(department, courseNumber)].students;
            && (forall other :: other in r.courses && other != (department, courseNumber) ==>
                  other in r'.courses && r'.courses[other] == r.courses[other])
            && r'.directory.Keys == r.directory.Keys
            && forall k :: k in r.directory ==>
                 && r'.directory[k].givenName == r.directory[k].givenName
                 && r'.directory[k].familyName == r.directory[k].familyName
                 && r'.directory[k].courseCount + (if k in dropped then 1 else 0) == r.directory[k].courseCount
  {
    var id := (department, courseNumber);
    var dropped := r.courses[id].students;
    forall k | k in dropped
      ensures r.directory[k].courseCount >= 1
    {
      assert id in EnrolledIn(r, k);
    }
  }

  // ---------------------------------------------------------------------
  // Enrolling
  // ---------------------------------------------------------------------

  /** A valid enrollment succeeds exactly when the course exists, has a free
      seat, does not hold the student yet, and the student is under the cap
      (a student new to the directory always is). */
  lemma EnrollStudentSucceedsExactlyWhen(r: Registrar, department: string, courseNumber: int,
                                         firstName: string, lastName: string)
    requires Inv(r)
    requires !InvalidParameters(department, courseNumber, firstName, lastName)
    ensures var id := (department, courseNumber);
            var key := StudentKey(firstName, lastName);
            EnrollStudent(r, department, courseNumber, firstName, lastName).result == Ok(true) <==>
              && id in r.courses
              && |r.courses[id].students| < r.courses[id].totalSeats
              && key !in r.courses[id].students
              && (key in r.directory ==> r.directory[key].courseCount < r.maxCoursesAllowed)
  {
  }

  /** A successful enrollment adds exactly the key to the roster, keeping its
      seats and earlier students, and adds exactly one to that learner's
      counter; nothing else changes. */
  lemma EnrollStudentEffect(r: Registrar, department: string, courseNumber: int,
                            firstName: string, lastName: string)
    requires EnrollStudent(r, department, courseNumber, firstName, lastName).result == Ok(true)
    ensures var r' := EnrollStudent(r, department, courseNumber, firstName, lastName).next;
            var id := (department, courseNumber);
            var key := StudentKey(firstName, lastName);
            && IsStudentEnrolled(r', department, courseNumber, firstName, lastName)
            && r'.courses.Keys == r.courses.Keys
            && r'.courses[id].totalSeats == r.courses[id].totalSeats
            && CountStudentsInSubject(r', department, courseNumber) == CountStudentsInSubject(r, department, courseNumber) + 1
            && r'.courses[id] == r.courses[id].(students := r.courses[id].students + {key})
            && (forall other :: other in r.courses && other != id ==> r'.courses[other] == r.courses[other])
            && r'.directory.Keys == r.directory.Keys + {key}
            && r'.directory[key].courseCount == (if key in r.directory then r.directory[key].courseCount else 0) + 1
            && (forall k :: k in r.directory && k != key ==> r'.directory[k] == r.directory[k])
  {
  }

  /** Looking up the student files it once: the key is in the directory
      afterwards, every existing entry is kept as it was, and a learner new
      to the directory starts at zero courses. */
  lemma FileStudentEffect(directory: map<string, Record>, firstName: string, lastName: string)
    ensures var filed := FileStudent(directory, firstName, lastName);
            var key := StudentKey(firstName, lastName);
            && filed.Keys == directory.Keys + {key}
            && (forall k :: k in directory ==> filed[k] == directory[k])
            && (key !in directory ==> filed[key] == Record(firstName, lastName, 0))
  {
  }

  /** A refused enrollment changes nothing at all: in particular the
      directory gains an entry only on success, because the cap is at least
      one and a new learner starts at zero. */
  lemma EnrollStudentRefusedChangesNothing(r: Registrar, department: string, courseNumber: int,
                                           firstName: string, lastName: string)
    requires r.maxCoursesAllowed >= 1
    requires EnrollStudent(r, department, courseNumber, firstName, lastName).result != Ok(true)
    ensures EnrollStudent(r, department, courseNumber, firstName, lastName).next == r
  {
  }

  /** The same enrollment twice in a row never succeeds twice. */
  lemma EnrollStudentTwiceAdmitsOnce(r: Registrar, department: string, courseNumber: int,
                                     firstName: string, lastName: string)
    ensures var once := EnrollStudent(r, department, courseNumber, firstName, lastName).next;
            EnrollStudent(once, department, courseNumber, firstName, lastName).result != Ok(true)
  {
  }

  // ---------------------------------------------------------------------
  // Withdrawing and cancelling
  // ---------------------------------------------------------------------

  /** A valid withdrawal succeeds exactly when the student was on the roster,
      and afterwards the student is not on it. */
  lemma WithdrawStudentThenNotEnrolled(r: Registrar, department: string, courseNumber: int,
                                       firstName: string, lastName: string)
    requires !InvalidParameters(department, courseNumber, firstName, lastName)
    ensures var s := WithdrawStudent(r, department, courseNumber, firstName, lastName);
            && s.result == Ok(IsStudentEnrolled(r, department, courseNumber, firstName, lastName))
            && !IsStudentEnrolled(s.next, department, courseNumber, firstName, lastName)
  {
  }

  /** A successful withdrawal takes exactly one off the learner's counter and
      exactly that student off the course; every other course and learner
      stays as it was. */
  lemma WithdrawStudentDecrements(r: Registrar, department: string, courseNumber: int,
                                  firstName: string, lastName: string)
    requires Inv(r)
    requires WithdrawStudent(r, department, courseNumber, firstName, lastName).result == Ok(true)
    ensures var r' := WithdrawStudent(r, department, courseNumber, firstName, lastName).next;
            var key := StudentKey(firstName, lastName);
            && key in r.directory && key in r'.directory
            && r'.directory[key].courseCount == r.directory[key].courseCount - 1
            && CountStudentsInSubject(r', department, courseNumber) == CountStudentsInSubject(r, department, courseNumber) - 1
            && r'.courses.Keys == r.courses.Keys
            && r'.courses[(department, courseNumber)] ==
               r.courses[(department, courseNumber)].(students := r.courses[(department, courseNumber)].students - {key})
            && (forall other :: other in r.courses && other != (department, courseNumber) ==>
                  r'.courses[other] == r.courses[other])
            && r'.directory.Keys == r.directory.Keys
            && (forall k :: k in r.directory && k != key ==> r'.directory[k] == r.directory[k])
  {
    var id := (department, courseNumber);
    var key := StudentKey(firstName, lastName);
    assert id in EnrolledIn(r, key);
  }

  /** Cancelling takes the student off every roster, reports whether it was
      on any, and leaves its counter at zero; every other student, every seat
      count and every directory entry of another learner stays as it was. */
  lemma CancelStudentEnrollmentEffect(r: Registrar, firstName: string, lastName: string)
    requires Inv(r)
    requires firstName != "" && lastName != ""
    ensures var s := CancelStudentEnrollment(r, firstName, lastName);
            var key := StudentKey(firstName, lastName);
            && s.result == Ok(CountCoursesStudentEnrolled(r, firstName, lastName) > 0)
            && CountCoursesStudentEnrolled(s.next, firstName, lastName) == 0
            && (key in r.directory ==> s.next.directory[key].courseCount == 0)
            && s.next.directory.Keys == r.directory.Keys
            && (forall k :: k in r.directory && k != key ==> s.next.directory[k] == r.directory[k])
            && s.next.courses.Keys == r.courses.Keys
            && (forall id :: id in r.courses ==>
                  s.next.courses[id] == r.courses[id].(students := r.courses[id].students - {key}))
  {
    var s := CancelStudentEnrollment(r, firstName, lastName);
    var key := StudentKey(firstName, lastName);
    assert EnrolledIn(s.next, key) == {};
  }

  // ---------------------------------------------------------------------
  // Queries
  // ---------------------------------------------------------------------

  /** Counting by family name never exceeds the roster size. */
  lemma LastNameCountBounded(r: Registrar, department: string, courseNumber: int, lastName: string)
    ensures CountStudentsWithLastName(r, department, courseNumber, lastName) <=
            CountStudentsInSubject(r, department, courseNumber)
  {
    var id := (department, courseNumber);
    if id in r.courses {
      var named := WithFamilyName(r, id, lastName);
      var roster := r.courses[id].students;
      assert roster == named + (roster - named);
    }
  }

  /** Under the invariants no query reports more students than seats, or
      more courses for a student than the cap. */
  lemma QueriesWithinBounds(r: Registrar, department: string, courseNumber: int,
                            firstName: string, lastName: string)
    requires Inv(r)
    ensures (department, courseNumber) in r.courses ==>
              CountStudentsInSubject(r, department, courseNumber) <= r.courses[(department, courseNumber)].totalSeats
    ensures CountCoursesStudentEnrolled(r, firstName, lastName) <= r.maxCoursesAllowed
  {
    var key := StudentKey(firstName, lastName);
    if key !in r.directory {
      assert EnrolledIn(r, key) == {};
    }
  }

  // ---------------------------------------------------------------------
  // Scenarios
  // ---------------------------------------------------------------------

  /** The first half of the two-seat scenario: A B and C D fill the course. */
  lemma TwoSeatsFilled()
    ensures var r0 := AddSubject(Init(3), "CS", 101, 2).next;
            var s1 := EnrollStudent(r0, "CS", 101, "A", "B");
            var s2 := EnrollStudent(s1.next, "CS", 101, "C", "D");
            && s1.result == Ok(true) && s2.result == Ok(true)
            && s2.next.maxCoursesAllowed == 3
            && s2.next.courses.Keys == {("CS", 101)}
            && s2.next.courses[("CS", 101)] == Roster(2, {StudentKey("A", "B"), StudentKey("C", "D")})
            && s2.next.directory.Keys == {StudentKey("A", "B"), StudentKey("C", "D")}
  {
    var id := ("CS", 101);
    var ab, cd := StudentKey("A", "B"), StudentKey("C", "D");
    assert ab[0] != cd[0];
    assert {ab} + {cd} == {ab, cd};
    var r0 := AddSubject(Init(3), "CS", 101, 2).next;
    assert r0.courses.Keys == {id} && r0.courses[id] == Roster(2, {});
    var s1 := EnrollStudent(r0, "CS", 101, "A", "B");
    assert s1.result == Ok(true) && s1.next.courses.Keys == {id} && s1.next.courses[id] == Roster(2, {ab});
    var s2 := EnrollStudent(s1.next, "CS", 101, "C", "D");
    assert s2.result == Ok(true);
  }

  /** A course with two seats: A B and C D get in, E F is refused because
      the course is full, and gets in once A B has withdrawn. */
  lemma TwoSeatScenario()
    ensures var r0 := AddSubject(Init(3), "CS", 101, 2).next;
            var s1 := EnrollStudent(r0, "CS", 101, "A", "B");
            var s2 := EnrollStudent(s1.next, "CS", 101, "C", "D");
            var s3 := EnrollStudent(s2.next, "CS", 101, "E", "F");
            var s4 := WithdrawStudent(s3.next, "CS", 101, "A", "B");
            var s5 := EnrollStudent(s4.next, "CS", 101, "E", "F");
            && s1.result == Ok(true) && s2.result == Ok(true) && s3.result == Ok(false)
            && s4.result == Ok(true) && s5.result == Ok(true)
            && CountStudentsInSubject(s5.next, "CS", 101) == 2
  {
    TwoSeatsFilled();
    var id := ("CS", 101);
    var ab, cd, ef := StudentKey("A", "B"), StudentKey("C", "D"), StudentKey("E", "F");
    assert ab[0] != cd[0] && ab[0] != ef[0] && cd[0] != ef[0];
    assert |{ab, cd}| == 2 && {ab, cd} - {ab} == {cd} && {cd} + {ef} == {cd, ef} && |{cd, ef}| == 2;
    var r0 := AddSubject(Init(3), "CS", 101, 2).next;
    var s2 := EnrollStudent(EnrollStudent(r0, "CS", 101, "A", "B").next, "CS", 101, "C", "D");
    var s3 := EnrollStudent(s2.next, "CS", 101, "E", "F");
    assert s3.result == Ok(false) && s3.next == s2.next;
    var s4 := WithdrawStudent(s3.next, "CS", 101, "A", "B");
    assert s4.result == Ok(true) && s4.next.courses[id] == Roster(2, {cd});
    assert ef !in s4.next.directory;
  }

  /** With a cap of one course, a learner enrolled in X is refused Y, and
      gets into Y after withdrawing from X. */
  lemma CourseCapScenario()
    ensures var r0 := AddSubject(AddSubject(Init(1), "X", 1, 5).next, "Y", 1, 5).next;
            var s1 := EnrollStudent(r0, "X", 1, "Jane", "Doe");
            var s2 := EnrollStudent(s1.next, "Y", 1, "Jane", "Doe");
            var s3 := WithdrawStudent(s2.next, "X", 1, "Jane", "Doe");
            var s4 := EnrollStudent(s3.next, "Y", 1, "Jane", "Doe");
            && s1.result == Ok(true) && s2.result == Ok(false)
            && s3.result == Ok(true) && s4.result == Ok(true)
            && CountCoursesStudentEnrolled(s4.next, "Jane", "Doe") == 1
  {
    var x, y := ("X", 1), ("Y", 1);
    var jane := StudentKey("Jane", "Doe");
    var r0 := AddSubject(AddSubject(Init(1), "X", 1, 5).next, "Y", 1, 5).next;
    assert r0.courses == map[x := Roster(5, {}), y := Roster(5, {})] && r0.directory == map[];
    var s1 := EnrollStudent(r0, "X", 1, "Jane", "Doe");
    assert s1.result == Ok(true);
    assert s1.next.courses == map[x := Roster(5, {jane}), y := Roster(5, {})];
    assert s1.next.directory == map[jane := Record("Jane", "Doe", 1)];
    var s2 := EnrollStudent(s1.next, "Y", 1, "Jane", "Doe");
    assert s2.result == Ok(false) && s2.next == s1.next;
    var s3 := WithdrawStudent(s2.next, "X", 1, "Jane", "Doe");
    assert s3.result == Ok(true);
    assert s3.next.courses == map[x := Roster(5, {}), y := Roster(5, {})];
    assert s3.next.directory == map[jane := Record("Jane", "Doe", 0)];
    var s4 := EnrollStudent(s3.next, "Y", 1, "Jane", "Doe");
    assert s4.result == Ok(true);
    assert s4.next.courses == map[x := Roster(5, {}), y := Roster(5, {jane})];
    assert EnrolledIn(s4.next, jane) == {y};
  }

  /** Students are told apart only by their names run together: once "ab c"
      is enrolled, "a bc" counts as enrolled too and cannot enrol. */
  lemma StudentKeyCollision()
    ensures StudentKey("ab", "c") == StudentKey("a", "bc")
    ensures var r0 := AddSubject(Init(3), "CS", 101, 5).next;
            var s1 := EnrollStudent(r0, "CS", 101, "ab", "c");
            && s1.result == Ok(true)
            && IsStudentEnrolled(s1.next, "CS", 101, "a", "bc")
            && EnrollStudent(s1.next, "CS", 101, "a", "bc").result == Ok(false)
  {
    assert "ab" + "c" == "a" + "bc";
  }
}
