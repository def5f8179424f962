/** A student as the registrar sees it: two names, a course counter and a cap
    on that counter. The names and the cap never change after construction;
    only the counter moves. */
module UniversityLearner {

  /** The course count left after `times` withdrawals from `count`, each of
      which stops at zero instead of going negative. */
  function AfterWithdrawals(count: nat, times: nat): nat
  {
    if times <= count then count - times else 0
  }

  class Learner {
    const givenName: string
    const familyName: string
    const maxCourseLimit: int
    // The counter cannot go below zero: withdrawal is clamped.
    var enrolledCourseCount: nat

    constructor (givenName: string, familyName: string, maxAllowedCourses: int)
      ensures this.givenName == givenName && this.familyName == familyName
      ensures maxCourseLimit == maxAllowedCourses
      ensures enrolledCourseCount == 0
    {
      this.givenName := givenName;
      this.familyName := familyName;
      this.maxCourseLimit := maxAllowedCourses;
      this.enrolledCourseCount := 0;
    }

    /** Unconditional increment: the caller is the one that checks the cap. */
    method EnrollInCourse()
      modifies this
      ensures enrolledCourseCount == old(enrolledCourseCount) + 1
      ensures old(CanEnrollInAnotherCourse()) ==> enrolledCourseCount <= maxCourseLimit
    {
      enrolledCourseCount := enrolledCourseCount + 1;
    }

    /** Decrement, or nothing at all when the counter is already zero. */
    method WithdrawFromCourse()
      modifies this
      ensures enrolledCourseCount == AfterWithdrawals(old(enrolledCourseCount), 1)
      ensures old(enrolledCourseCount) > 0 ==> enrolledCourseCount == old(enrolledCourseCount) - 1
      ensures old(enrolledCourseCount) == 0 ==> enrolledCourseCount == 0
    {
      if enrolledCourseCount > 0 {
        enrolledCourseCount := enrolledCourseCount - 1;
      }
    }

    function IsSameLearner(other: Learner): (same: bool)
      ensures same <==> givenName == other.givenName && familyName == other.familyName
    {
      givenName == other.givenName && familyName == other.familyName
    }

    /** Whether one more enrollment keeps the counter within the cap. */
    function CanEnrollInAnotherCourse(): (can: bool)
      reads this
      ensures can <==> enrolledCourseCount < maxCourseLimit
      ensures can ==> enrolledCourseCount + 1 <= maxCourseLimit
    {
      enrolledCourseCount < maxCourseLimit
    }

    function HasMatchingLastName(lastName: string): (matches: bool)
      ensures matches <==> familyName == lastName
    {
      familyName == lastName
    }
  }

  lemma IsSameLearnerReflexive(a: Learner)
    ensures a.IsSameLearner(a)
  {
  }

  lemma IsSameLearnerSymmetric(a: Learner, b: Learner)
    ensures a.IsSameLearner(b) <==> b.IsSameLearner(a)
  {
  }
}
