/**
 * The batch reconciliation performed by ProgramCourseEnrollmentView.post
 * (lms/djangoapps/program_enrollments/views.py:110-180), stated as pure
 * functions over the incoming records and the tables. Views.dfy runs the same
 * pipeline imperatively and is proved equal to PostSpec.
 *
 * Where the source as written cannot run, the model follows the evident intent:
 *  - the key of each record is added to the set of seen keys at its first
 *    occurrence (the source never adds to `seen_student_keys`);
 *  - the second pass writes the outcome under the record's own key (the
 *    source writes under the variable left over from the first pass);
 *  - the lookup collects the student keys of the queued records and keys the
 *    result on `external_user_key` (the source calls `map` on a list and
 *    passes an undefined name to `in_bulk`);
 *  - the serializer is given the record as its data, and the view's helper is
 *    a method of the view that compares the status with `==`.
 * The lookup filters on the student key only, not on the program, as the
 * source does.
 */
module Reconciliation {
  import opened Wrappers
  import opened Constants
  import opened Serializers
  import opened Models

  const HTTP_200_OK: int := 200
  const HTTP_207_MULTI_STATUS: int := 207
  const HTTP_422_UNPROCESSABLE_ENTITY: int := 422

  const STUDENT_KEY_REQUIRED: string := "student key required"
  const INVALID_ENROLLMENT_RECORD: string := "invalid enrollment record"

  /** The per-student result map, keyed by the raw `student_key` value. */
  type Results = map<FieldValue, string>

  datatype Body = Message(text: string) | Outcomes(results: Results)

  /** The HTTP response: a status code and either a message or the result map. */
  datatype Response = Response(status: int, body: Body)

  predicate HasKey(r: Record) {
    STUDENT_KEY_FIELD in r
  }

  function KeyOf(r: Record): FieldValue
    requires HasKey(r)
  {
    r[STUDENT_KEY_FIELD]
  }

  /** The distinct student keys present in a sequence of records. */
  function KeysOf(rs: seq<Record>): (keys: set<FieldValue>)
    ensures forall i :: 0 <= i < |rs| && HasKey(rs[i]) ==> KeyOf(rs[i]) in keys
    decreases |rs|
  {
    if rs == [] then {}
    else KeysOf(rs[..|rs| - 1]) + (if HasKey(rs[|rs| - 1]) then {KeyOf(rs[|rs| - 1])} else {})
  }

  /** The first record that carries key k. */
  function FirstRecord(rs: seq<Record>, k: FieldValue): (f: Option<Record>)
    ensures f.Some? <==> k in KeysOf(rs)
    ensures f.Some? ==> HasKey(f.value) && KeyOf(f.value) == k && f.value in rs
    decreases |rs|
  {
    if rs == [] then None
    else
      var last := rs[|rs| - 1];
      match FirstRecord(rs[..|rs| - 1], k)
      case Some(f) => Some(f)
      case None => if HasKey(last) && KeyOf(last) == k then Some(last) else None
  }

  /** How many records carry key k. */
  function Occurrences(rs: seq<Record>, k: FieldValue): (n: nat)
    ensures n > 0 <==> k in KeysOf(rs)
    decreases |rs|
  {
    if rs == [] then 0
    else
      var last := rs[|rs| - 1];
      Occurrences(rs[..|rs| - 1], k) + if HasKey(last) && KeyOf(last) == k then 1 else 0
  }

  /** Record i aborts the request when the first pass reaches it: it has no
      key, or it is the first with its key and invalid for a reason other
      than its status. */
  predicate Fatal(rs: seq<Record>, i: int) {
    0 <= i < |rs| &&
    (!HasKey(rs[i]) || (KeyOf(rs[i]) !in KeysOf(rs[..i]) && Validate(rs[i]) == Malformed))
  }

  /** The message of the abort caused by record r. */
  function AbortMessage(r: Record): string {
    if HasKey(r) then INVALID_ENROLLMENT_RECORD else STUDENT_KEY_REQUIRED
  }

  /** State of the first pass: either aborted with a message, or the result
      map, the seen keys and the queued records so far. */
  datatype FirstPass =
    | Aborted(message: string)
    | Scanning(results: Results, seen: set<FieldValue>, queued: seq<Record>)

  /** One iteration of the first loop (views.py:119-132). A request already
      refused stays refused; a running pass is refused exactly by a record
      without a key, or by the first record of a key when it is malformed. */
  function ScanStep(st: FirstPass, r: Record): (st': FirstPass)
    ensures st.Aborted? ==> st' == st
    ensures st.Scanning? ==>
      (st'.Aborted? <==> !HasKey(r) || (KeyOf(r) !in st.seen && Validate(r) == Malformed))
  {
    match st
    case Aborted(_) => st
    case Scanning(results, seen, queued) =>
      if !HasKey(r) then Aborted(STUDENT_KEY_REQUIRED)
      else
        var key := KeyOf(r);
        if key in seen then Scanning(results[key := DUPLICATED], seen, queued)
        else
          // intent: the key is remembered at its first occurrence
          var seen' := seen + {key};
          match Validate(r)
          case Valid => Scanning(results, seen', queued + [r])
          case InvalidStatus => Scanning(results[key := INVALID_STATUS], seen', queued)
          case Malformed => Aborted(INVALID_ENROLLMENT_RECORD)
  }

  /** The first pass over the records, in order. Every queued record is valid. */
  function Scan(rs: seq<Record>): (st: FirstPass)
    ensures st.Scanning? ==> forall j :: 0 <= j < |st.queued| ==> Validate(st.queued[j]) == Valid
    decreases |rs|
  {
    if rs == [] then Scanning(map[], {}, [])
    else ScanStep(Scan(rs[..|rs| - 1]), rs[|rs| - 1])
  }

  /** Once the first pass has aborted, later records change nothing. */
  lemma {:induction false} ScanAbortSticks(rs: seq<Record>, n: nat)
    requires n <= |rs| && Scan(rs[..n]).Aborted?
    ensures Scan(rs) == Scan(rs[..n])
    decreases |rs|
  {
    if n < |rs| {
      var prefix := rs[..|rs| - 1];
      assert prefix[..n] == rs[..n];
      ScanAbortSticks(prefix, n);
    } else {
      assert rs[..n] == rs;
    }
  }

  /** The position of the last program enrollment whose external key is k:
      the one a dictionary built over the table in order keeps. */
  function LastMatch(table: seq<ProgramEnrollment>, k: FieldValue): (m: Option<nat>)
    ensures m.Some? ==>
      m.value < |table| && Text(table[m.value].externalUserKey) == k &&
      forall j :: m.value < j < |table| ==> Text(table[j].externalUserKey) != k
    ensures m.None? ==> forall j :: 0 <= j < |table| ==> Text(table[j].externalUserKey) != k
  {
    if table == [] then None
    else if Text(table[|table| - 1].externalUserKey) == k then Some(|table| - 1)
    else LastMatch(table[..|table| - 1], k)
  }

  /** The student keys of the queued records, in order (views.py:177). */
  function StudentKeys(queued: seq<Record>): (keys: seq<FieldValue>)
    requires forall j :: 0 <= j < |queued| ==> HasKey(queued[j])
    ensures |keys| == |queued|
    ensures forall j :: 0 <= j < |queued| ==> keys[j] == KeyOf(queued[j])
  {
    if queued == [] then []
    else StudentKeys(queued[..|queued| - 1]) + [KeyOf(queued[|queued| - 1])]
  }

  /** get_existing_program_enrollments: the program enrollments whose external
      key is among `keys`, as a dictionary keyed on that key, built over the
      table in order. There is no filter on the program. */
  function ExistingProgramEnrollments(table: seq<ProgramEnrollment>, keys: seq<FieldValue>): (m: map<FieldValue, ProgramEnrollment>)
    ensures forall k :: k in m <==> k in keys && LastMatch(table, k).Some?
    ensures forall k :: k in m ==> m[k] == table[LastMatch(table, k).value]
    decreases |table|
  {
    if table == [] then map[]
    else
      var m := ExistingProgramEnrollments(table[..|table| - 1], keys);
      var row := table[|table| - 1];
      if Text(row.externalUserKey) in keys then m[Text(row.externalUserKey) := row] else m
  }

  /** What enroll_learner_in_course reads from a record: a student key and a
      textual status. Every validated record has both. */
  predicate Enrollable(r: Record) {
    HasKey(r) && STATUS_FIELD in r && r[STATUS_FIELD].Text?
  }

  /** The outcome of one record and the tables after its effects. */
  datatype Step = Step(outcome: string, tables: Tables)

  /** enroll_learner_in_course (views.py:146-173). */
  function Enroll(t: Tables, course: string, lookup: map<FieldValue, ProgramEnrollment>, r: Record): (s: Step)
    requires Enrollable(r)
    ensures s.tables.programEnrollments == t.programEnrollments
    ensures t.programCourseEnrollments <= s.tables.programCourseEnrollments
    ensures t.courseEnrollments <= s.tables.courseEnrollments
    ensures |s.tables.programCourseEnrollments| == |t.programCourseEnrollments| + 1 <==>
      KeyOf(r) in lookup && !HasProgramCourseEnrollment(t.programCourseEnrollments, lookup[KeyOf(r)].id, course)
    ensures |s.tables.programCourseEnrollments| != |t.programCourseEnrollments| + 1 ==>
      s.tables == t && (s.outcome == NOT_IN_PROGRAM || s.outcome == CONFLICT)
    ensures s.tables != t ==> s.outcome == r[STATUS_FIELD].text
  {
    var key := KeyOf(r);
    if key !in lookup then Step(NOT_IN_PROGRAM, t)
    else
      var pe := lookup[key];
      if HasProgramCourseEnrollment(t.programCourseEnrollments, pe.id, course) then Step(CONFLICT, t)
      else
        var status := r[STATUS_FIELD].text;
        match pe.user
        case None =>
          Step(status, t.(programCourseEnrollments :=
            t.programCourseEnrollments + [ProgramCourseEnrollment(pe.id, None, course, status)]))
        case Some(user) =>
          // enrolled in MASTERS mode, then deactivated when the status is `inactive`
          var ref := |t.courseEnrollments|;
          Step(status, t.(
            courseEnrollments := t.courseEnrollments + [CourseEnrollment(user, course, MASTERS, status != INACTIVE)],
            programCourseEnrollments :=
              t.programCourseEnrollments + [ProgramCourseEnrollment(pe.id, Some(ref), course, status)]))
  }

  /** Result map and tables after the second pass. */
  datatype Reconciled = Reconciled(results: Results, tables: Tables)

  /** The second loop (views.py:135-136), in queue order, each outcome written
      under the record's own key. */
  function SecondPass(t: Tables, course: string, lookup: map<FieldValue, ProgramEnrollment>,
                      queued: seq<Record>, results: Results): (d: Reconciled)
    requires forall j :: 0 <= j < |queued| ==> Enrollable(queued[j])
    ensures d.tables.programEnrollments == t.programEnrollments
    ensures t.programCourseEnrollments <= d.tables.programCourseEnrollments
    ensures t.courseEnrollments <= d.tables.courseEnrollments
    ensures |d.tables.programCourseEnrollments| <= |t.programCourseEnrollments| + |queued|
    ensures results.Keys <= d.results.Keys
    decreases |queued|
  {
    if queued == [] then Reconciled(results, t)
    else
      var prior := SecondPass(t, course, lookup, queued[..|queued| - 1], results);
      var r := queued[|queued| - 1];
      var step := Enroll(prior.tables, course, lookup, r);
      Reconciled(prior.results[KeyOf(r) := step.outcome], step.tables)
  }

  /** The students whose result is not an error code. */
  function SuccessKeys(results: Results): set<FieldValue> {
    set k | k in results && !IsErrorStatus(results[k])
  }

  lemma SubsetSize<T>(a: set<T>, b: set<T>)
    requires a <= b
    ensures |a| <= |b|
    decreases a
  {
    if a != {} {
      var x :| x in a;
      SubsetSize(a - {x}, b - {x});
    }
  }

  lemma SubsetOfSameSize<T>(a: set<T>, b: set<T>)
    requires a <= b && |a| == |b|
    ensures a == b
  {
    if a != b {
      var x :| x in b && x !in a;
      SubsetSize(a, b - {x});
    }
  }

  /** No success means every result is an error; as many successes as results means none is. */
  lemma SuccessCount(results: Results)
    ensures SuccessKeys(results) == {} <==> forall k :: k in results ==> IsErrorStatus(results[k])
    ensures |SuccessKeys(results)| == |results| <==> forall k :: k in results ==> !IsErrorStatus(results[k])
  {
    var successes := SuccessKeys(results);
    assert |results| == |results.Keys|;
    if successes != {} {
      var k :| k in successes;
    }
    if successes == {} {
      forall k | k in results ensures IsErrorStatus(results[k]) {
        assert k !in successes;
      }
    }
    if |successes| == |results| {
      SubsetOfSameSize(successes, results.Keys);
    }
    if forall k :: k in results ==> !IsErrorStatus(results[k]) {
      assert successes == results.Keys;
    }
  }

  /** The aggregate status (views.py:138-144): 422 when no result is a
      success (an empty map included), 207 when some but not all are, and
      200 when all are. */
  function Aggregate(results: Results): (resp: Response)
    ensures resp.body == Outcomes(results)
    ensures resp.status == HTTP_422_UNPROCESSABLE_ENTITY <==>
      forall k :: k in results ==> IsErrorStatus(results[k])
    ensures resp.status == HTTP_207_MULTI_STATUS <==>
      (exists k :: k in results && !IsErrorStatus(results[k])) &&
      (exists k :: k in results && IsErrorStatus(results[k]))
    ensures resp.status == HTTP_200_OK <==>
      results != map[] && forall k :: k in results ==> !IsErrorStatus(results[k])
  {
    SuccessCount(results);
    var successes := SuccessKeys(results);
    if successes == {} then Response(HTTP_422_UNPROCESSABLE_ENTITY, Outcomes(results))
    else if |successes| != |results| then Response(HTTP_207_MULTI_STATUS, Outcomes(results))
    else Response(HTTP_200_OK, Outcomes(results))
  }

  /** The response and the tables after the whole request. */
  datatype Posted = Posted(response: Response, tables: Tables)

  /** ProgramCourseEnrollmentView.post on course `course`, starting from tables `t`. */
  function PostSpec(t: Tables, course: string, records: seq<Record>): (p: Posted)
    ensures p.response.status == HTTP_200_OK || p.response.status == HTTP_207_MULTI_STATUS ||
      p.response.status == HTTP_422_UNPROCESSABLE_ENTITY
    ensures p.response.body.Message? ==> p.response.status == HTTP_422_UNPROCESSABLE_ENTITY && p.tables == t
    ensures p.tables.programEnrollments == t.programEnrollments
    ensures t.programCourseEnrollments <= p.tables.programCourseEnrollments
    ensures t.courseEnrollments <= p.tables.courseEnrollments
  {
    match Scan(records)
    case Aborted(message) => Posted(Response(HTTP_422_UNPROCESSABLE_ENTITY, Message(message)), t)
    case Scanning(results, _, queued) =>
      var lookup := ExistingProgramEnrollments(t.programEnrollments, StudentKeys(queued));
      var done := SecondPass(t, course, lookup, queued, results);
      Posted(Aggregate(done.results), done.tables)
  }

  /** The outcome a validated record should get, judged against the tables
      as they were when the request arrived. */
  function Decision(t: Tables, course: string, r: Record): string
    requires Enrollable(r)
  {
    match LastMatch(t.programEnrollments, KeyOf(r))
    case None => NOT_IN_PROGRAM
    case Some(i) =>
      if HasProgramCourseEnrollment(t.programCourseEnrollments, t.programEnrollments[i].id, course) then CONFLICT
      else r[STATUS_FIELD].text
  }
}
