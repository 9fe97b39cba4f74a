# Program course enrollment: batch reconciliation

This project models one endpoint of the `program_enrollments` app of
edx-platform: `POST` on `ProgramCourseEnrollmentView`. The endpoint enrolls
a batch of students into one course run of a program. The model proves what
the endpoint does with such a batch.

The endpoint works in four steps:

1. **First pass.** It walks the records in order.
   - A record without `student_key` refuses the whole request (422, "student key required").
   - A key seen earlier in the batch is marked `duplicated`.
   - Every other record goes through `ProgramCourseEnrollmentRequestSerializer`.
     - A valid record is queued.
     - A record whose only fault is an unknown status is marked `invalid-status`.
     - Any other fault refuses the whole request (422, "invalid enrollment record").
2. **Bulk lookup.** It finds the program enrollments of the queued keys with one query.
3. **Second pass.** Each queued record gets its outcome from `enroll_learner_in_course`:
   - `not-in-program`;
   - `conflict`, when the program enrollment is already linked to the course;
   - otherwise a new ProgramCourseEnrollment, plus a MASTERS-mode course
     enrollment when a user is bound. The outcome is the requested status.
4. **Aggregate.** The number of non-error results gives 422 (none), 207 (some) or 200 (all).

Modules:

- `Constants` (constants.dfy): the result codes and `ERROR_STATUSES`.
- `Serializers` (serializers.dfy): the two field rules and
  `has_invalid_status`. They give a verdict: `Valid`, `InvalidStatus` or `Malformed`.
  `SerializerVerdict` reads it from the error map as the view does, and is
  proved equal to `Validate`, which states it from the two fields.
- `Models` (models.dfy):
  - the row types;
  - `Tables`, the database as a value;
  - class `Store`, the database updated in place by the three writes the view makes.
- `Reconciliation` (reconciliation.dfy): the endpoint as pure functions.
  - `Scan` is the first pass.
  - `ExistingProgramEnrollments` is the lookup.
  - `Enroll` is one record's decision and effects.
  - `SecondPass` is the second pass.
  - `Aggregate` is the status code.
  - `PostSpec` is the whole request.
- `Views` (views.dfy): class `ProgramCourseEnrollmentView`, whose `Post` and
  `EnrollLearnerInCourse` run the same loops against a `Store`. `Post`'s
  second loop is its own method, `EnrollQueued`. Each method is proved to
  produce the response and the state that its specification function gives.
- `BatchProperties` (batch_properties.dfy): what the endpoint guarantees,
  proved about `PostSpec`. Through `Post`'s postcondition, these guarantees
  hold for the view too.
- `Scenarios` (scenarios.dfy): small concrete batches.

### The code as written and the model

As written, `views.py` and `serializers.py` cannot run. Where they fail,
the model follows the evident intent, and comments in the Dafny files mark
each place:

- **Seen keys.** `seen_student_keys` is never added to (views.py:116,123).
  The model adds a key at its first occurrence, after the duplicate test.
- **Second-pass key.** The second pass writes `results[student_key]` with the
  variable left over from the first loop (views.py:136). The model writes
  under the record's own key.
- **The helper method.** `enroll_learner_in_course` lacks `self` and uses
  `=` for `==` (views.py:146,164). The model makes it a method of the view
  and compares the status with `==`.
- **The lookup.** It calls `map` on a list and passes an undefined field name
  to `in_bulk` (views.py:177,180). The model collects the queued
  records' keys and keys the map on `external_user_key`.
- **The serializer.** It is built positionally (views.py:126), and
  `has_invalid_status` reads `enrollee_serializer` (serializers.py:6). The
  model validates the record as the serializer's data and reads that
  serializer's own errors.

Behaviour of the code worth noting:

- **No program filter.** The lookup filters on the external user key only
  (views.py:178). A program enrollment from another program is matched all
  the same (`Scenarios.LookupIgnoresProgram`).
- **Where `conflict` and `internal-error` come from.** Nothing maps a
  unique-constraint violation to `conflict`; `conflict` comes only from the
  existing-link test (views.py:152-153, `BatchProperties.EnrollConflict`).
  Nothing produces `internal-error`, which is only classified.
- **`illegal-operation`.** It is one of `ERROR_STATUSES` (constants.py:19),
  counted as a failure, although nothing produces it.
- **A blank status.** It is an `invalid_choice` of the ChoiceField, so the
  record is marked `invalid-status` rather than refused.
- **Write order.** First-pass writes happen before second-pass writes.
  - A key whose first record is queued keeps its real outcome, even when the
    key is repeated.
  - A key whose first record has an unknown status ends as `duplicated` if it
    comes again.
  - For example, take the batch `a`/`enrolled`, `a`/`pending`, `b`/`bogus`,
    `c`/`enrolled`, where only `c` has a program enrollment and its user is
    bound. The answer is 207 with `a: not-in-program`, `b: invalid-status`
    and `c: enrolled`: the second pass overwrites `a`'s `duplicated`
    (`Scenarios.MixedBatch`).
- **Deactivation.** `inactive` is not among the serializer's choices
  (serializers.py:14), so no record that reaches the second pass has that
  status. The deactivation branch (views.py:164-165) is modelled and
  verified, but `post` never takes it (`BatchProperties.PostOnlyAppends`).

## Model

| member | source | states |
|---|---|---|
| Constants.ErrorStatusesExactly | lms/djangoapps/program_enrollments/constants.py:15-22 | a code is an error status exactly when it is one of duplicated, invalid-status, conflict, illegal-operation, not-in-program, internal-error |
| Constants.ActiveAndInactiveAreSuccesses | lms/djangoapps/program_enrollments/constants.py:6-22 | `active` and `inactive` are not error statuses, so an inactive outcome counts as a success |
| Constants.ResponseStatusesDistinct | lms/djangoapps/program_enrollments/constants.py:5-13 | the eight response codes are pairwise distinct |
| Constants.IsErrorStatus | lms/djangoapps/program_enrollments/constants.py:15-22 | a result code is a failure exactly when it is in `ERROR_STATUSES`, the membership test the aggregate step makes (views.py:138); `ErrorStatusesExactly` lists the six codes |
| Serializers.CharFieldErrors | lms/djangoapps/program_enrollments/serializers.py:16 | `student_key` has no error exactly when it is present and is a number or a string that is not blank once the characters Python's `str.strip()` removes are trimmed; at most one error code |
| Serializers.ChoiceFieldErrors | lms/djangoapps/program_enrollments/serializers.py:17 | `status` has no error exactly when it is a string among the choices (a blank string only if blanks are allowed, which they are not here); at most one error code |
| Serializers.Errors | lms/djangoapps/program_enrollments/serializers.py:16-17 | the error map has an entry for `student_key` exactly when the CharField fails and one for `status` exactly when the ChoiceField fails, each holding that field's errors, and no other entry |
| Serializers.IsValid | lms/djangoapps/program_enrollments/serializers.py:10-17 | `is_valid()`: the error map is empty; `IsValidIff` ties it to both declared fields passing |
| Serializers.HasInvalidStatus | lms/djangoapps/program_enrollments/serializers.py:5-7 | the error map has a `status` entry whose first code is `invalid_choice`; `HasInvalidStatusIff` says when that holds |
| Serializers.Validate | lms/djangoapps/program_enrollments/serializers.py:10-17 | Valid exactly when the key is a number or a non-blank string and the status is `pending` or `enrolled`; InvalidStatus exactly when the status is present, not null and outside the choices; Malformed otherwise |
| Serializers.IsValidIff | lms/djangoapps/program_enrollments/serializers.py:10-17 | `is_valid()` holds exactly when both declared fields pass |
| Serializers.SerializerVerdict | lms/djangoapps/program_enrollments/serializers.py:5-17 | the verdict read from the serializer (`is_valid()`, then `has_invalid_status()`) is the verdict of the declared fields: Valid exactly when the key is acceptable and the status is `pending` or `enrolled`; InvalidStatus exactly when the status is present, not null and outside the choices, whatever the key |
| Serializers.HasInvalidStatusIff | lms/djangoapps/program_enrollments/serializers.py:5-7 | `has_invalid_status` holds exactly when the status is present, not null and not one of the choices |
| Serializers.InactiveNeverAccepted | lms/djangoapps/program_enrollments/serializers.py:14-17 | a record asking for `inactive` is an invalid-status case, never valid |
| Serializers.BlankStatusRejected | lms/djangoapps/program_enrollments/serializers.py:17 | a blank status (empty or whitespace only) is rejected as an invalid choice |
| Serializers.BadKeyWithGoodStatusIsMalformed | lms/djangoapps/program_enrollments/serializers.py:5-17 | an acceptable status with a missing, null, blank, boolean, list or object key is malformed, not an invalid-status case |
| Serializers.VerdictDependsOnDeclaredFields | lms/djangoapps/program_enrollments/serializers.py:10-17 | two records that agree on `student_key` and `status` get the same serializer errors and the same verdict, whatever else they hold |
| Serializers.ChoicesAreSuccesses | lms/djangoapps/program_enrollments/serializers.py:14 | `pending` and `enrolled` are neither error statuses nor `inactive` |
| Models.HasProgramCourseEnrollment | lms/djangoapps/program_enrollments/views.py:152 | some link row exists for this program enrollment and this course, which is what `get_program_course_enrollment(course)` finds |
| Models.Store.Enroll | lms/djangoapps/program_enrollments/views.py:158-163 | `CourseEnrollment.enroll` appends one active enrollment of the user in the course with the given mode, returns its reference and leaves the other tables alone |
| Models.Store.Deactivate | lms/djangoapps/program_enrollments/views.py:164-165 | `deactivate()` marks exactly that course enrollment inactive and changes nothing else |
| Models.Store.CreateProgramCourseEnrollment | lms/djangoapps/program_enrollments/views.py:167-172 | `objects.create` appends exactly that row and changes nothing else |
| Reconciliation.ScanStep | lms/djangoapps/program_enrollments/views.py:119-132 | one iteration: a refused request stays refused; a running pass is refused exactly by a record without a key, or by the first record of a key when that record is malformed |
| Reconciliation.Scan | lms/djangoapps/program_enrollments/views.py:119-132 | the first pass, record by record; whenever it runs to the end, every queued record is valid |
| Reconciliation.ScanAbortSticks | lms/djangoapps/program_enrollments/views.py:121-132 | once a record has refused the request, later records change nothing (the early `return`) |
| Reconciliation.LastMatch | lms/djangoapps/program_enrollments/views.py:178-180 | finds the last table row with the given external key, and only such a row; no row when none matches |
| Reconciliation.StudentKeys | lms/djangoapps/program_enrollments/views.py:177 | the queued records' student keys, one per record, in order |
| Reconciliation.ExistingProgramEnrollments | lms/djangoapps/program_enrollments/views.py:176-180 | the lookup holds a key exactly when it is a queued key with a matching row, whatever the row's program; it maps the key to the last such row |
| Reconciliation.Enroll | lms/djangoapps/program_enrollments/views.py:146-173 | the program-enrollment table is unchanged and the other tables only grow. A link is appended exactly when the key is in the lookup and its program enrollment has no link to the course; otherwise nothing changes and the outcome is `not-in-program` or `conflict`. Whenever something is written, the outcome is the requested status |
| Reconciliation.SecondPass | lms/djangoapps/program_enrollments/views.py:134-136 | the second pass leaves the program-enrollment table alone, only appends to the other tables, at most one link per queued record, and keeps every first-pass result key |
| Reconciliation.SuccessCount | lms/djangoapps/program_enrollments/views.py:138-141 | no success means every result is an error; as many successes as results means none is |
| Reconciliation.Aggregate | lms/djangoapps/program_enrollments/views.py:138-144 | the body is the result map; 422 exactly when every result is an error (the empty map included), 207 exactly when there is at least one success and at least one error, 200 exactly when the map is non-empty and all successes |
| Reconciliation.PostSpec | lms/djangoapps/program_enrollments/views.py:110-144 | the status is 200, 207 or 422; a message body comes only with 422 and unchanged tables; the program-enrollment table never changes and the other tables only grow |
| Views.ProgramCourseEnrollmentView.Post | lms/djangoapps/program_enrollments/views.py:110-144 | the response and the new store contents are those of the whole-request specification on the old contents |
| Views.ProgramCourseEnrollmentView.EnrollQueued | lms/djangoapps/program_enrollments/views.py:134-136 | the result map and the new store contents are those of the second-pass specification on the old contents |
| Views.ProgramCourseEnrollmentView.EnrollLearnerInCourse | lms/djangoapps/program_enrollments/views.py:146-173 | the outcome and the new store contents are those of the per-record specification on the old contents |
| BatchProperties.ScanInvariant | lms/djangoapps/program_enrollments/views.py:115-132 | without a refusing record the first pass completes. Every key is seen. The queue holds, once each, every key whose first record is valid. Every other key's first record has an unknown status, and its result is `duplicated` if the key repeats, `invalid-status` otherwise. All first-pass results are errors |
| BatchProperties.QueueInvariant | lms/djangoapps/program_enrollments/views.py:119-132 | without a refusing record, the first pass has seen every key. Its queue holds, once each, the first record of every key whose first record is valid. Every other key's first record has an unknown status |
| BatchProperties.ResultInvariant | lms/djangoapps/program_enrollments/views.py:119-132 | without a refusing record, every key has a first-pass result or is queued, and all results are errors. A key that is not queued has `duplicated` if it came more than once, `invalid-status` otherwise |
| BatchProperties.EnrollNotInProgram | lms/djangoapps/program_enrollments/views.py:148-151 | a key missing from the lookup gives `not-in-program` and leaves the tables unchanged |
| BatchProperties.EnrollConflict | lms/djangoapps/program_enrollments/views.py:152-153 | a program enrollment already linked to the course gives `conflict` and leaves the tables unchanged |
| BatchProperties.EnrollCreates | lms/djangoapps/program_enrollments/views.py:155-173 | otherwise exactly one row is appended, for this program enrollment and course with the requested status, and the outcome is that status. A MASTERS course enrollment is appended exactly when a user is bound, and the row refers to it. That enrollment is inactive exactly when the status is `inactive` |
| BatchProperties.EnrollPreservesUniqueness | lms/djangoapps/program_enrollments/views.py:152-172 | one record never creates a second link for the same program enrollment and course |
| BatchProperties.SecondPassLinks | lms/djangoapps/program_enrollments/views.py:135-136 | the second pass leaves the program-enrollment table alone and only appends links, each for this course and for a program enrollment that a queued key matched |
| BatchProperties.SecondPassCourseEnrollments | lms/djangoapps/program_enrollments/views.py:157-165 | the second pass only appends course enrollments, each MASTERS-mode in this course, and active when the queue is valid |
| BatchProperties.SecondPassKeys | lms/djangoapps/program_enrollments/views.py:135-136 | the second pass writes exactly the queued keys and keeps every other first-pass result |
| BatchProperties.SecondPassOutcomes | lms/djangoapps/program_enrollments/views.py:134-136 | with distinct queued keys, each key's outcome is its record's outcome against the tables as they were before the pass, so processing order does not matter |
| BatchProperties.SecondPassCount | lms/djangoapps/program_enrollments/views.py:135-138 | the second pass creates one link per successful result |
| BatchProperties.SecondPassPreservesUniqueness | lms/djangoapps/program_enrollments/views.py:135-136 | the second pass keeps at most one link per program enrollment and course |
| BatchProperties.PostAborts | lms/djangoapps/program_enrollments/views.py:119-132 | the first refusing record decides the 422 message ("student key required" or "invalid enrollment record"), and nothing is written |
| BatchProperties.PostAbortIff | lms/djangoapps/program_enrollments/views.py:119-132 | the request is refused without a result map exactly when some record refuses it; a refused request is 422 and leaves the tables unchanged |
| BatchProperties.MissingKeyRefusesBatch | lms/djangoapps/program_enrollments/views.py:120-121 | a record without `student_key` anywhere in the batch gives 422 with no result map and no creation |
| BatchProperties.PostResults | lms/djangoapps/program_enrollments/views.py:115-136 | without a refusing record, the result map has exactly one entry per distinct submitted key. The first record of the key decides it: a valid one gets its outcome against the original tables; one with an unknown status gets `duplicated` if the key repeats, `invalid-status` otherwise |
| BatchProperties.PostCreations | lms/djangoapps/program_enrollments/views.py:134-138 | the program-enrollment table is untouched, and one link is created per successful result, so at most one per distinct key |
| BatchProperties.PostStatusCountsCreations | lms/djangoapps/program_enrollments/views.py:138-144 | 422 exactly when nothing was created, 200 exactly when every key of a non-empty batch got its link, 207 exactly when some but not all did |
| BatchProperties.PostPreservesUniqueness | lms/djangoapps/program_enrollments/views.py:110-144 | a request never leaves two links for the same program enrollment and course |
| BatchProperties.PostOnlyAppends | lms/djangoapps/program_enrollments/views.py:155-172 | a request only appends rows. Every new link is for the request's course. Every new course enrollment is an active MASTERS enrollment in that course: the request never deactivates |
| Scenarios.LookupIgnoresProgram | lms/djangoapps/program_enrollments/views.py:178 | a program enrollment of another program is found by its key alone |
| Scenarios.InvalidStatusThenRepeat | lms/djangoapps/program_enrollments/views.py:123-140 | a key with an unknown status that comes again ends as `duplicated`; nothing is written, and the answer is 422 |
| Scenarios.QueuedThenRepeat | lms/djangoapps/program_enrollments/views.py:123-144 | a queued key keeps its real outcome (`pending`, one link created, 200) although a later record with the key is marked `duplicated` |
| Scenarios.MixedBatch | lms/djangoapps/program_enrollments/views.py:115-144 | `a`/`enrolled`, `a`/`pending`, `b`/`bogus`, `c`/`enrolled`, with only `c` in the program and bound to a user, gives 207 with `a: not-in-program`, `b: invalid-status`, `c: enrolled`, one link and one active MASTERS course enrollment |

## Left out

- The catalog and course lookups that answer 404 (views.py:37-82) are out. The course run is a parameter, assumed to exist and to belong to the program.
- Authentication, permissions and DRF `Response` framing are out. A response is a status code plus a message or the result map.
- The ORM is out: `filter`, `select_related` and `in_bulk`. The lookup is a function over the program-enrollment table in table order, and when several rows share a key the last one wins.
- `CourseEnrollment.enroll` and `deactivate` are recorded effects. Their access checks and their handling of an existing enrollment are not modelled.
- Unique-constraint violations, concurrent requests and transactions are out. The source does not handle them.
- `Serializers.ChoiceFieldErrors`: a non-string status is always an invalid choice. DRF looks it up by its text, and no JSON number, boolean, list or object has the text `pending` or `enrolled`.
- Result keys are raw JSON values compared as values. Python's equalities between `1`, `1.0` and `true` as dictionary keys are not modelled.
- An unhashable `student_key` (a JSON list or object) gets the serializer's verdict in the model: `invalid`, so the record refuses the request, or `invalid-status` when its status is unknown. The source raises `TypeError` at the seen-keys test (views.py:123) before the serializer runs.
- A batch entry that is not a JSON object is out. In the source, a string or list entry without `student_key` gets 422 "student key required", since the test at views.py:120 is then a substring or membership test; a null, number or boolean entry, or a string or list containing `student_key`, raises `TypeError` (views.py:120-122).
- `ILLEGAL_OPERATION`, `ACTIVE` and `INTERNAL_ERROR` appear only in the classification. No operation produces them.
- The v1 API view and its tests (api/v1/views.py, api/v1/tests/test_views.py) are not part of this model. They wrap `ProgramEnrollmentSerializer` (api/v1/serializers.py), which this model does not cover.
