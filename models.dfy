/**
 * The persistence side the view works against: the ProgramEnrollment table,
 * the ProgramCourseEnrollment rows it creates, and the course enrollments it
 * creates and deactivates. Rows are values in sequences; a program
 * enrollment is referred to by its `id`, a course enrollment by its position.
 */
module Models {
  import opened Wrappers

  /** CourseMode.MASTERS, the mode of every course enrollment made here. */
  const MASTERS: string := "masters"

  /** A program-level enrollment. `user` is None while the external key is
      not yet linked to an account (a "waiting" enrollment). */
  datatype ProgramEnrollment = ProgramEnrollment(
    id: nat,
    externalUserKey: string,
    programUuid: string,
    user: Option<nat>)

  /** A link between a program enrollment and one course run. */
  datatype ProgramCourseEnrollment = ProgramCourseEnrollment(
    programEnrollment: nat,
    courseEnrollment: Option<nat>,
    courseKey: string,
    status: string)

  /** A course-level enrollment of a user. */
  datatype CourseEnrollment = CourseEnrollment(
    user: nat,
    courseKey: string,
    mode: string,
    isActive: bool)

  /** The three tables as one value. */
  datatype Tables = Tables(
    programEnrollments: seq<ProgramEnrollment>,
    programCourseEnrollments: seq<ProgramCourseEnrollment>,
    courseEnrollments: seq<CourseEnrollment>)

  /** `program_enrollment.get_program_course_enrollment(course)` finds a row. */
  predicate HasProgramCourseEnrollment(rows: seq<ProgramCourseEnrollment>, programEnrollment: nat, course: string) {
    exists i :: 0 <= i < |rows| && rows[i].programEnrollment == programEnrollment && rows[i].courseKey == course
  }

  /** Program enrollments have distinct primary keys. */
  predicate DistinctIds(table: seq<ProgramEnrollment>) {
    forall i, j :: 0 <= i < |table| && 0 <= j < |table| && table[i].id == table[j].id ==> i == j
  }

  /** At most one ProgramCourseEnrollment per (program enrollment, course). */
  predicate UniqueProgramCourseEnrollments(rows: seq<ProgramCourseEnrollment>) {
    forall i, j :: 0 <= i < j < |rows| ==>
      !(rows[i].programEnrollment == rows[j].programEnrollment && rows[i].courseKey == rows[j].courseKey)
  }

  /** The database, updated in place by the view's effects. */
  class Store {
    var programEnrollments: seq<ProgramEnrollment>
    var programCourseEnrollments: seq<ProgramCourseEnrollment>
    var courseEnrollments: seq<CourseEnrollment>

    constructor (table: seq<ProgramEnrollment>)
      ensures programEnrollments == table
      ensures programCourseEnrollments == [] && courseEnrollments == []
    {
      programEnrollments := table;
      programCourseEnrollments := [];
      courseEnrollments := [];
    }

    /** The current contents of all three tables. */
    function State(): Tables
      reads this
    {
      Tables(programEnrollments, programCourseEnrollments, courseEnrollments)
    }

    /** Whether a ProgramCourseEnrollment exists for this program enrollment and course. */
    predicate HasCourseLink(programEnrollment: nat, course: string)
      reads this
    {
      HasProgramCourseEnrollment(programCourseEnrollments, programEnrollment, course)
    }

    /** CourseEnrollment.enroll(user, course, mode=...): records a new active
        enrollment and returns a reference to it. */
    method Enroll(user: nat, course: string, mode: string) returns (ref: nat)
      modifies this
      ensures ref == |old(courseEnrollments)|
      ensures courseEnrollments == old(courseEnrollments) + [CourseEnrollment(user, course, mode, true)]
      ensures programEnrollments == old(programEnrollments)
      ensures programCourseEnrollments == old(programCourseEnrollments)
    {
      ref := |courseEnrollments|;
      courseEnrollments := courseEnrollments + [CourseEnrollment(user, course, mode, true)];
    }

    /** course_enrollment.deactivate(): marks that enrollment inactive. */
    method Deactivate(ref: nat)
      requires ref < |courseEnrollments|
      modifies this
      ensures courseEnrollments == old(courseEnrollments)[ref := old(courseEnrollments)[ref].(isActive := false)]
      ensures programEnrollments == old(programEnrollments)
      ensures programCourseEnrollments == old(programCourseEnrollments)
    {
      courseEnrollments := courseEnrollments[ref := courseEnrollments[ref].(isActive := false)];
    }

    /** ProgramCourseEnrollment.objects.create(...): appends one row. */
    method CreateProgramCourseEnrollment(row: ProgramCourseEnrollment)
      modifies this
      ensures programCourseEnrollments == old(programCourseEnrollments) + [row]
      ensures programEnrollments == old(programEnrollments)
      ensures courseEnrollments == old(courseEnrollments)
    {
      programCourseEnrollments := programCourseEnrollments + [row];
    }
  }
}
