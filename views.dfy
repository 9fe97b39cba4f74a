/**
 * ProgramCourseEnrollmentView (lms/djangoapps/program_enrollments/views.py:85-180):
 * the POST handler that enrolls a batch of students in one course run of a
 * program, run step by step against the store. Each method is proved equal
 * to its specification in Reconciliation; the properties of those
 * specifications are proved in BatchProperties.
 */
module Views {
  import opened Wrappers
  import opened Constants
  import opened Serializers
  import opened Models
  import opened Reconciliation

  class ProgramCourseEnrollmentView {
    /** The course run named in the URL, already checked to exist and to
        belong to the program. */
    const course: string
    const store: Store

    constructor (course: string, store: Store)
      ensures this.course == course && this.store == store
    {
      this.course := course;
      this.store := store;
    }

    /** Enroll a list of students in the course. */
    method Post(records: seq<Record>) returns (response: Response)
      modifies store
      ensures Posted(response, store.State()) == PostSpec(old(store.State()), course, records)
    {
      var results: Results := map[];
      var seenStudentKeys: set<FieldValue> := {};
      var enrollments: seq<Record> := [];

      var i := 0;
      while i < |records|
        invariant 0 <= i <= |records|
        invariant Scan(records[..i]) == Scanning(results, seenStudentKeys, enrollments)
        invariant store.State() == old(store.State())
      {
        var enrollment := records[i];
        assert records[..i + 1][..i] == records[..i];
        if STUDENT_KEY_FIELD !in enrollment {
          ScanAbortSticks(records, i + 1);
          return Response(HTTP_422_UNPROCESSABLE_ENTITY, Message(STUDENT_KEY_REQUIRED));
        }
        var studentKey := enrollment[STUDENT_KEY_FIELD];
        if studentKey in seenStudentKeys {
          results := results[studentKey := DUPLICATED];
        } else {
          // intent: remember the key at its first occurrence
          seenStudentKeys := seenStudentKeys + {studentKey};
          IsValidIff(enrollment);
          HasInvalidStatusIff(enrollment);
          if IsValid(enrollment) {
            enrollments := enrollments + [enrollment];
          } else if HasInvalidStatus(Errors(enrollment)) {
            results := results[studentKey := INVALID_STATUS];
          } else {
            ScanAbortSticks(records, i + 1);
            return Response(HTTP_422_UNPROCESSABLE_ENTITY, Message(INVALID_ENROLLMENT_RECORD));
          }
        }
        i := i + 1;
      }
      assert records[..i] == records;

      var programEnrollments := ExistingProgramEnrollments(store.programEnrollments, StudentKeys(enrollments));
      results := EnrollQueued(enrollments, programEnrollments, results);

      response := Aggregate(results);
    }

    /** The second loop of `post`: each queued record gets the outcome of
        its enrollment, written under its own key. */
    method EnrollQueued(enrollments: seq<Record>, programEnrollments: map<FieldValue, ProgramEnrollment>,
                        firstResults: Results)
      returns (results: Results)
      requires forall j :: 0 <= j < |enrollments| ==> Enrollable(enrollments[j])
      modifies store
      ensures Reconciled(results, store.State()) ==
        SecondPass(old(store.State()), course, programEnrollments, enrollments, firstResults)
    {
      results := firstResults;
      var j := 0;
      while j < |enrollments|
        invariant 0 <= j <= |enrollments|
        invariant Reconciled(results, store.State()) ==
          SecondPass(old(store.State()), course, programEnrollments, enrollments[..j], firstResults)
      {
        var enrollment := enrollments[j];
        assert enrollments[..j + 1][..j] == enrollments[..j];
        var status := EnrollLearnerInCourse(enrollment, programEnrollments);
        // intent: the outcome goes under this record's own key
        results := results[enrollment[STUDENT_KEY_FIELD] := status];
        j := j + 1;
      }
      assert enrollments[..j] == enrollments;
    }

    /** The outcome of one queued record, creating a ProgramCourseEnrollment
        (and, for a linked user, a MASTERS-mode course enrollment) when the
        student is in the program and not yet in this course. */
    method EnrollLearnerInCourse(enrollment: Record, programEnrollments: map<FieldValue, ProgramEnrollment>)
      returns (status: string)
      requires Enrollable(enrollment)
      modifies store
      ensures Step(status, store.State()) == Enroll(old(store.State()), course, programEnrollments, enrollment)
    {
      var studentKey := enrollment[STUDENT_KEY_FIELD];
      if studentKey !in programEnrollments {
        return NOT_IN_PROGRAM;
      }
      var programEnrollment := programEnrollments[studentKey];
      if store.HasCourseLink(programEnrollment.id, course) {
        return CONFLICT;
      }

      status := enrollment[STATUS_FIELD].text;
      var courseEnrollment: Option<nat> := None;
      if programEnrollment.user.Some? {
        var ref := store.Enroll(programEnrollment.user.value, course, MASTERS);
        courseEnrollment := Some(ref);
        if status == INACTIVE {
          store.Deactivate(ref);
        }
      }
      store.CreateProgramCourseEnrollment(
        ProgramCourseEnrollment(programEnrollment.id, courseEnrollment, course, status));
    }
  }
}
