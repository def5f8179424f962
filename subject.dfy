/** One course offering: a fixed number of seats and a roster mapping each
    student key to the learner registered under it. The roster itself never
    checks capacity; whoever registers a student has checked it first. */
module AcademicSubject {
  import opened UniversityLearner

  /** The keys under which `learner` is registered in `roster`. */
  function HoldersOf(roster: map<string, Learner>, learner: Learner): set<string>
  {
    set k | k in roster && roster[k] == learner
  }

  /** The keys whose registered learner has family name `lastName`. */
  function WithLastName(roster: map<string, Learner>, lastName: string): set<string>
  {
    set k | k in roster && roster[k].familyName == lastName
  }

  /** The keys outside `rest` under which `learner` is registered in `roster`. */
  function HoldersOutside(roster: map<string, Learner>, learner: Learner, rest: set<string>): set<string>
  {
    set k | k in roster && k !in rest && roster[k] == learner
  }

  /** Taking key `k` out of `rest` adds it to the holders outside `rest`
      exactly when `k` is registered to `learner`. */
  lemma HoldersOutsideShrink(roster: map<string, Learner>, learner: Learner, rest: set<string>, k: string)
    requires k in rest && k in roster
    ensures |HoldersOutside(roster, learner, rest - {k})| ==
            |HoldersOutside(roster, learner, rest)| + (if roster[k] == learner then 1 else 0)
  {
    var before := HoldersOutside(roster, learner, rest);
    if roster[k] == learner {
      assert HoldersOutside(roster, learner, rest - {k}) == before + {k};
    } else {
      assert HoldersOutside(roster, learner, rest - {k}) == before;
    }
  }

  class Subject {
    const totalSeats: int
    var enrolledStudents: map<string, Learner>

    constructor (seatCount: int)
      ensures totalSeats == seatCount && enrolledStudents == map[]
    {
      totalSeats := seatCount;
      enrolledStudents := map[];
    }

    /** Inserts or overwrites `studentId`, with no capacity check. */
    method RegisterStudent(studentId: string, student: Learner)
      modifies this
      ensures enrolledStudents == old(enrolledStudents)[studentId := student]
      ensures studentId in enrolledStudents && enrolledStudents[studentId] == student
      ensures forall k :: k in old(enrolledStudents) && k != studentId ==>
                k in enrolledStudents && enrolledStudents[k] == old(enrolledStudents)[k]
    {
      enrolledStudents := enrolledStudents[studentId := student];
    }

    function IsStudentEnrolled(firstName: string, lastName: string): (enrolled: bool)
      reads this
      ensures enrolled <==> firstName + lastName in enrolledStudents
    {
      firstName + lastName in enrolledStudents
    }

    /** Withdraws every registered learner from the course once per key it is
        registered under, then empties the roster. */
    method ClearSubjectEnrollments()
      modifies this, enrolledStudents.Values
      ensures enrolledStudents == map[]
      ensures forall k :: k in old(enrolledStudents) ==>
                var s := old(enrolledStudents)[k];
                s.enrolledCourseCount ==
                AfterWithdrawals(old(s.enrolledCourseCount), |HoldersOf(old(enrolledStudents), s)|)
    {
      ghost var roster := enrolledStudents;
      var rest := enrolledStudents.Keys;
      while rest != {}
        invariant enrolledStudents == roster
        invariant rest <= roster.Keys
        invariant forall j :: j in roster ==>
                    roster[j].enrolledCourseCount ==
                    AfterWithdrawals(old(roster[j].enrolledCourseCount), |HoldersOutside(roster, roster[j], rest)|)
        decreases rest
      {
        var k :| k in rest;
        var student := enrolledStudents[k];
        student.WithdrawFromCourse();
        forall j | j in roster
          ensures roster[j].enrolledCourseCount ==
                  AfterWithdrawals(old(roster[j].enrolledCourseCount), |HoldersOutside(roster, roster[j], rest - {k})|)
        {
          HoldersOutsideShrink(roster, roster[j], rest, k);
        }
        rest := rest - {k};
      }
      forall j | j in roster
        ensures HoldersOutside(roster, roster[j], {}) == HoldersOf(roster, roster[j])
      {
      }
      enrolledStudents := map[];
    }

    function IsSubjectFull(): (full: bool)
      reads this
      ensures full <==> |enrolledStudents.Keys| >= totalSeats
    {
      |enrolledStudents| >= totalSeats
    }

    function CountEnrolledStudents(): (count: nat)
      reads this
      ensures count == |enrolledStudents.Keys|
    {
      |enrolledStudents|
    }

    /** Counts the registered learners whose family name is `lastName`. */
    method CountStudentsByLastName(lastName: string) returns (count: nat)
      ensures count == |WithLastName(enrolledStudents, lastName)|
      ensures count <= CountEnrolledStudents()
    {
      count := 0;
      var rest := enrolledStudents.Keys;
      while rest != {}
        invariant rest <= enrolledStudents.Keys
        invariant count == |WithLastName(enrolledStudents, lastName) - rest|
        decreases rest
      {
        var k :| k in rest;
        ghost var matching := WithLastName(enrolledStudents, lastName);
        if enrolledStudents[k].HasMatchingLastName(lastName) {
          assert matching - (rest - {k}) == (matching - rest) + {k};
          count := count + 1;
        } else {
          assert matching - (rest - {k}) == matching - rest;
        }
        rest := rest - {k};
      }
      assert WithLastName(enrolledStudents, lastName) <= enrolledStudents.Keys;
    }

    /** Removes `studentId` if present and tells whether it was. */
    method UnregisterStudent(studentId: string) returns (removed: bool)
      modifies this
      ensures removed <==> studentId in old(enrolledStudents)
      ensures enrolledStudents == old(enrolledStudents) - {studentId}
      ensures !removed ==> unchanged(this)
    {
      removed := studentId in enrolledStudents;
      assert !removed ==> enrolledStudents - {studentId} == enrolledStudents;
      enrolledStudents := enrolledStudents - {studentId};
    }
  }
}
