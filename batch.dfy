/** The batch registration workers, after their input has been parsed: each
    worker issues its own commands in order, every call holds the registrar's
    lock for its whole duration, and the workers' calls interleave in any
    order. A schedule lists which worker makes the next call. */
module RegistrationBatch {
  import opened Catalog
  import CatalogProperties

  /** A parsed input line that the worker acts on. */
  datatype Command =
    | AddSubjectCommand(department: string, courseNumber: int, seatCount: int)
    | EnrollStudentCommand(department: string, courseNumber: int, firstName: string, lastName: string)

  /** One call to the registrar. The result is InvalidArgument when the call
      throws, and otherwise tells whether a student was admitted. */
  function Issue(r: Registrar, c: Command): (s: Step<bool>)
    ensures s.result.InvalidArgument? ==> s.next == r
    ensures s.result == Ok(true) <==>
              c.EnrollStudentCommand? &&
              EnrollStudent(r, c.department, c.courseNumber, c.firstName, c.lastName).result == Ok(true)
  {
    match c
    case AddSubjectCommand(department, courseNumber, seatCount) =>
      var s := AddSubject(r, department, courseNumber, seatCount);
      Step(if s.result.Ok? then Ok(false) else InvalidArgument, s.next)
    case EnrollStudentCommand(department, courseNumber, firstName, lastName) =>
      EnrollStudent(r, department, courseNumber, firstName, lastName)
  }

  /** The shared registrar and, per worker, the commands it has yet to issue.
      A worker with none left has finished. */
  datatype Batch = Batch(registrar: Registrar, pending: seq<seq<Command>>)

  /** Worker `w` makes its next call. The IllegalArgumentException of an
      invalid command is not caught by the worker, so it ends the worker with
      its remaining commands unissued; a finished or unknown worker does
      nothing. */
  function Turn(b: Batch, w: nat): (b': Batch)
    ensures |b'.pending| == |b.pending|
  {
    if w >= |b.pending| || b.pending[w] == [] then b
    else
      var s := Issue(b.registrar, b.pending[w][0]);
      if s.result.InvalidArgument? then b.(pending := b.pending[w := []])
      else Batch(s.next, b.pending[w := b.pending[w][1..]])
  }

  /** Whether the turn of worker `w` admits a student into course `id`. */
  predicate AdmitsInto(b: Batch, w: nat, id: CourseId)
  {
    && w < |b.pending| && b.pending[w] != []
    && b.pending[w][0].EnrollStudentCommand?
    && (b.pending[w][0].department, b.pending[w][0].courseNumber) == id
    && Issue(b.registrar, b.pending[w][0]).result == Ok(true)
  }

  /** The batch after the turns of `schedule`, in order. */
  function Interleave(b: Batch, schedule: seq<nat>): (b': Batch)
    ensures |b'.pending| == |b.pending|
    decreases |schedule|
  {
    if schedule == [] then b else Interleave(Turn(b, schedule[0]), schedule[1..])
  }

  /** How many turns of `schedule` admit a student into course `id`. */
  function Admissions(b: Batch, schedule: seq<nat>, id: CourseId): nat
    decreases |schedule|
  {
    if schedule == [] then 0
    else (if AdmitsInto(b, schedule[0], id) then 1 else 0) + Admissions(Turn(b, schedule[0]), schedule[1..], id)
  }

  // ---------------------------------------------------------------------
  // Every interleaving keeps the invariants
  // ---------------------------------------------------------------------

  lemma TurnKeepsInv(b: Batch, w: nat)
    requires Inv(b.registrar)
    ensures Inv(Turn(b, w).registrar)
  {
    if w < |b.pending| && b.pending[w] != [] {
      match b.pending[w][0]
      case AddSubjectCommand(department, courseNumber, seatCount) =>
        CatalogProperties.AddSubjectKeepsInv(b.registrar, department, courseNumber, seatCount);
      case EnrollStudentCommand(department, courseNumber, firstName, lastName) =>
        CatalogProperties.EnrollStudentKeepsInv(b.registrar, department, courseNumber, firstName, lastName);
    }
  }

  /** However the workers' calls interleave, no roster exceeds its seats and
      no learner exceeds the course cap, and every counter stays exact. */
  lemma {:induction false} InterleaveKeepsInv(b: Batch, schedule: seq<nat>)
    requires Inv(b.registrar)
    ensures Inv(Interleave(b, schedule).registrar)
    decreases |schedule|
  {
    if schedule != [] {
      TurnKeepsInv(b, schedule[0]);
      InterleaveKeepsInv(Turn(b, schedule[0]), schedule[1..]);
    }
  }

  // ---------------------------------------------------------------------
  // Rosters only grow, one student per admission
  // ---------------------------------------------------------------------

  lemma TurnGrowsRoster(b: Batch, w: nat, id: CourseId)
    ensures var r := b.registrar;
            var r' := Turn(b, w).registrar;
            && CountStudentsInSubject(r', id.0, id.1) ==
               CountStudentsInSubject(r, id.0, id.1) + (if AdmitsInto(b, w, id) then 1 else 0)
            && (id in r.courses ==>
                  id in r'.courses && r'.courses[id].totalSeats == r.courses[id].totalSeats
                  && r.courses[id].students <= r'.courses[id].students)
  {
  }

  /** Every admission into a course adds exactly one student to its roster,
      and nothing in a batch takes a student off or changes a seat count. */
  lemma {:induction false} InterleaveGrowsRoster(b: Batch, schedule: seq<nat>, id: CourseId)
    ensures var r := b.registrar;
            var r' := Interleave(b, schedule).registrar;
            && CountStudentsInSubject(r', id.0, id.1) ==
               CountStudentsInSubject(r, id.0, id.1) + Admissions(b, schedule, id)
            && (id in r.courses ==>
                  id in r'.courses && r'.courses[id].totalSeats == r.courses[id].totalSeats
                  && r.courses[id].students <= r'.courses[id].students)
    decreases |schedule|
  {
    if schedule != [] {
      TurnGrowsRoster(b, schedule[0], id);
      InterleaveGrowsRoster(Turn(b, schedule[0]), schedule[1..], id);
    }
  }

  /** For any interleaving, a course with `k` free seats admits at most `k`
      students. */
  lemma AdmissionsWithinFreeSeats(b: Batch, schedule: seq<nat>, id: CourseId)
    requires Inv(b.registrar)
    requires id in b.registrar.courses
    ensures Admissions(b, schedule, id) <=
            b.registrar.courses[id].totalSeats - CountStudentsInSubject(b.registrar, id.0, id.1)
  {
    InterleaveGrowsRoster(b, schedule, id);
    InterleaveKeepsInv(b, schedule);
  }

  /** For any interleaving, the admissions into a course never exceed its
      seats at the end, and a course that does not exist at the end (never
      added by any worker, nor there at the start) admits nobody. This covers
      courses that an `addsubject` line creates during the batch. */
  lemma AdmissionsWithinSeats(b: Batch, schedule: seq<nat>, id: CourseId)
    requires Inv(b.registrar)
    ensures var r' := Interleave(b, schedule).registrar;
            Admissions(b, schedule, id) <= if id in r'.courses then r'.courses[id].totalSeats else 0
  {
    InterleaveGrowsRoster(b, schedule, id);
    InterleaveKeepsInv(b, schedule);
  }

  // ---------------------------------------------------------------------
  // The same enrollment from several workers
  // ---------------------------------------------------------------------

  /** Every pending command of every worker is `c`. */
  predicate OnlyIssues(b: Batch, c: Command)
  {
    forall w, i :: 0 <= w < |b.pending| && 0 <= i < |b.pending[w]| ==> b.pending[w][i] == c
  }

  /** While the workers issue nothing but one valid enrollment, the first call
      to run admits the student and every later one is refused: either
      nothing has happened yet or the student is enrolled, and exactly one
      admission separates the two. */
  lemma {:induction false} DuplicateEnrollmentsAdmitOnce(b: Batch, schedule: seq<nat>,
                                                        department: string, courseNumber: int,
                                                        firstName: string, lastName: string)
    requires OnlyIssues(b, EnrollStudentCommand(department, courseNumber, firstName, lastName))
    requires || EnrollStudent(b.registrar, department, courseNumber, firstName, lastName).result == Ok(true)
             || IsStudentEnrolled(b.registrar, department, courseNumber, firstName, lastName)
    ensures var b' := Interleave(b, schedule);
            && (b' == b || IsStudentEnrolled(b'.registrar, department, courseNumber, firstName, lastName))
            && Admissions(b, schedule, (department, courseNumber)) ==
               (if IsStudentEnrolled(b'.registrar, department, courseNumber, firstName, lastName)
                   && !IsStudentEnrolled(b.registrar, department, courseNumber, firstName, lastName)
                then 1 else 0)
    decreases |schedule|
  {
    if schedule != [] {
      var c := EnrollStudentCommand(department, courseNumber, firstName, lastName);
      var w := schedule[0];
      var t := Turn(b, w);
      if w < |b.pending| && b.pending[w] != [] {
        assert b.pending[w][0] == c;
        forall v, i | 0 <= v < |t.pending| && 0 <= i < |t.pending[v]|
          ensures t.pending[v][i] == c
        {
          if v == w {
            assert t.pending[v][i] == b.pending[w][i + 1];
          }
        }
        if !IsStudentEnrolled(b.registrar, department, courseNumber, firstName, lastName) {
          CatalogProperties.EnrollStudentEffect(b.registrar, department, courseNumber, firstName, lastName);
        }
      }
      DuplicateEnrollmentsAdmitOnce(t, schedule[1..], department, courseNumber, firstName, lastName);
    }
  }

  /** While the workers issue nothing but one enrollment that the registrar
      refuses, every call is refused and the registrar never changes, so no
      student is admitted. */
  lemma {:induction false} RefusedEnrollmentsAdmitNone(b: Batch, schedule: seq<nat>,
                                                      department: string, courseNumber: int,
                                                      firstName: string, lastName: string)
    requires Inv(b.registrar)
    requires OnlyIssues(b, EnrollStudentCommand(department, courseNumber, firstName, lastName))
    requires EnrollStudent(b.registrar, department, courseNumber, firstName, lastName).result != Ok(true)
    ensures Interleave(b, schedule).registrar == b.registrar
    ensures Admissions(b, schedule, (department, courseNumber)) == 0
    decreases |schedule|
  {
    if schedule != [] {
      var c := EnrollStudentCommand(department, courseNumber, firstName, lastName);
      var w := schedule[0];
      var t := Turn(b, w);
      if w < |b.pending| && b.pending[w] != [] {
        assert b.pending[w][0] == c;
        CatalogProperties.EnrollStudentRefusedChangesNothing(b.registrar, department, courseNumber, firstName, lastName);
        forall v, i | 0 <= v < |t.pending| && 0 <= i < |t.pending[v]|
          ensures t.pending[v][i] == c
        {
          if v == w {
            assert t.pending[v][i] == b.pending[w][i + 1];
          }
        }
      }
      assert t.registrar == b.registrar;
      RefusedEnrollmentsAdmitNone(t, schedule[1..], department, courseNumber, firstName, lastName);
    }
  }

  /** From any registrar that keeps the invariants, workers issuing nothing but
      one enrollment admit the student at most once, whatever the interleaving. */
  lemma SameEnrollmentAdmitsAtMostOnce(b: Batch, schedule: seq<nat>,
                                       department: string, courseNumber: int,
                                       firstName: string, lastName: string)
    requires Inv(b.registrar)
    requires OnlyIssues(b, EnrollStudentCommand(department, courseNumber, firstName, lastName))
    ensures Admissions(b, schedule, (department, courseNumber)) <= 1
  {
    if || EnrollStudent(b.registrar, department, courseNumber, firstName, lastName).result == Ok(true)
       || IsStudentEnrolled(b.registrar, department, courseNumber, firstName, lastName)
    {
      DuplicateEnrollmentsAdmitOnce(b, schedule, department, courseNumber, firstName, lastName);
    } else {
      RefusedEnrollmentsAdmitNone(b, schedule, department, courseNumber, firstName, lastName);
    }
  }

  /** Two workers each issuing `enrollstudent CS 101 John Doe`, against a
      registrar where that enrollment would succeed: once both have finished,
      whatever the interleaving, exactly one of the two calls succeeded and
      John Doe is on the roster. */
  lemma TwoWorkersSameEnrollment(r: Registrar, schedule: seq<nat>)
    requires EnrollStudent(r, "CS", 101, "John", "Doe").result == Ok(true)
    requires var c := EnrollStudentCommand("CS", 101, "John", "Doe");
             Interleave(Batch(r, [[c], [c]]), schedule).pending == [[], []]
    ensures var c := EnrollStudentCommand("CS", 101, "John", "Doe");
            var b' := Interleave(Batch(r, [[c], [c]]), schedule);
            && Admissions(Batch(r, [[c], [c]]), schedule, ("CS", 101)) == 1
            && IsStudentEnrolled(b'.registrar, "CS", 101, "John", "Doe")
  {
    var c := EnrollStudentCommand("CS", 101, "John", "Doe");
    var b := Batch(r, [[c], [c]]);
    DuplicateEnrollmentsAdmitOnce(b, schedule, "CS", 101, "John", "Doe");
    assert Interleave(b, schedule).pending != b.pending;
  }
}
