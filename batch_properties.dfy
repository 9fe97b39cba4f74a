/**
 * What the batch reconciliation guarantees, proved about the specification
 * in Reconciliation (and so, through the view's postconditions, about the
 * view itself).
 */
module BatchProperties {
  import opened Wrappers
  import opened Constants
  import opened Serializers
  import opened Models
  import opened Reconciliation

  /** No record of the batch aborts the request. */
  predicate NoFatal(rs: seq<Record>) {
    forall i :: 0 <= i < |rs| ==> !Fatal(rs, i)
  }

  /** Every record carries a key and no two carry the same one. */
  predicate DistinctKeys(q: seq<Record>)
    decreases |q|
  {
    q == [] ||
    (DistinctKeys(q[..|q| - 1]) && HasKey(q[|q| - 1]) && KeyOf(q[|q| - 1]) !in KeysOf(q[..|q| - 1]))
  }

  // ---------------------------------------------------------------------
  // Sequences of records
  // ---------------------------------------------------------------------

  /** How the key vocabulary grows by one record. */
  lemma Snoc(p: seq<Record>, r: Record)
    ensures KeysOf(p + [r]) == KeysOf(p) + (if HasKey(r) then {KeyOf(r)} else {})
    ensures forall k :: FirstRecord(p + [r], k) ==
                       (if FirstRecord(p, k).Some? then FirstRecord(p, k)
                        else if HasKey(r) && KeyOf(r) == k then Some(r) else None)
    ensures forall k :: Occurrences(p + [r], k) ==
                       Occurrences(p, k) + (if HasKey(r) && KeyOf(r) == k then 1 else 0)
  {
    assert (p + [r])[..|p|] == p;
  }

  lemma NoFatalPrefix(rs: seq<Record>, n: nat)
    requires NoFatal(rs) && n <= |rs|
    ensures NoFatal(rs[..n])
  {
    forall i | 0 <= i < n ensures !Fatal(rs[..n], i) {
      assert rs[..n][..i] == rs[..i];
      assert !Fatal(rs, i);
    }
  }

  // ---------------------------------------------------------------------
  // The first pass
  // ---------------------------------------------------------------------

  /** What the first pass has established about its queue after the records
      rs: every key is seen; the queue holds, once each, the first record of
      every key whose first record is valid; every other key's first record
      has an invalid status. */
  ghost predicate QueueFacts(rs: seq<Record>, st: FirstPass) {
    && st.Scanning?
    && st.seen == KeysOf(rs)
    && DistinctKeys(st.queued)
    && (forall k :: k in KeysOf(st.queued) ==> k in KeysOf(rs) && FirstRecord(st.queued, k) == FirstRecord(rs, k))
    && (forall k :: k in KeysOf(rs) && k !in KeysOf(st.queued) ==> Validate(FirstRecord(rs, k).value) == InvalidStatus)
  }

  /** What the first pass has established about its results after the
      records rs: a key has a result or is queued; every result is an error;
      a key that is not queued has DUPLICATED if it came more than once,
      INVALID_STATUS otherwise. */
  ghost predicate ResultFacts(rs: seq<Record>, st: FirstPass) {
    && st.Scanning?
    && st.results.Keys + KeysOf(st.queued) == KeysOf(rs)
    && (forall k :: k in st.results ==> IsErrorStatus(st.results[k]))
    && (forall k :: k in KeysOf(rs) && k !in KeysOf(st.queued) ==>
          k in st.results && st.results[k] == (if Occurrences(rs, k) > 1 then DUPLICATED else INVALID_STATUS))
  }

  ghost predicate ScanFacts(rs: seq<Record>, st: FirstPass) {
    QueueFacts(rs, st) && ResultFacts(rs, st)
  }

  /** Without an aborting record the first pass runs to the end and
      establishes ScanFacts. */
  lemma ScanInvariant(rs: seq<Record>)
    requires NoFatal(rs)
    ensures ScanFacts(rs, Scan(rs))
  {
    QueueInvariant(rs);
    ResultInvariant(rs);
  }

  lemma {:induction false} QueueInvariant(rs: seq<Record>)
    requires NoFatal(rs)
    ensures QueueFacts(rs, Scan(rs))
    decreases |rs|, 0
  {
    if rs == [] {
      return;
    }
    var n := |rs| - 1;
    var p, r := rs[..n], rs[n];
    assert rs == p + [r];
    NoFatalPrefix(rs, n);
    assert !Fatal(rs, n);
    if KeyOf(r) in KeysOf(p) {
      QueueDuplicateStep(p, r);
    } else if Validate(r) == Valid {
      QueueAppendStep(p, r);
    } else {
      QueueInvalidStep(p, r);
    }
  }

  /** A repeated key leaves the queue alone. */
  lemma {:induction false} QueueDuplicateStep(p: seq<Record>, r: Record)
    requires NoFatal(p) && HasKey(r) && KeyOf(r) in KeysOf(p)
    ensures QueueFacts(p + [r], ScanStep(Scan(p), r))
    decreases |p|, 1
  {
    QueueInvariant(p);
    Snoc(p, r);
  }

  /** The valid first record of a key is queued. */
  lemma {:induction false} QueueAppendStep(p: seq<Record>, r: Record)
    requires NoFatal(p) && HasKey(r) && KeyOf(r) !in KeysOf(p) && Validate(r) == Valid
    ensures QueueFacts(p + [r], ScanStep(Scan(p), r))
    decreases |p|, 1
  {
    QueueInvariant(p);
    var st := Scan(p);
    var key := KeyOf(r);
    var q' := st.queued + [r];
    var rs' := p + [r];
    assert ScanStep(st, r) == Scanning(st.results, st.seen + {key}, q');
    Snoc(p, r);
    Snoc(st.queued, r);
    assert q'[..|st.queued|] == st.queued;
    assert DistinctKeys(q');
    forall k | k in KeysOf(q') ensures k in KeysOf(rs') && FirstRecord(q', k) == FirstRecord(rs', k) {
      if k != key {
        assert FirstRecord(q', k) == FirstRecord(st.queued, k);
      }
    }
  }

  /** The first record of a key that fails only on its status is not queued. */
  lemma {:induction false} QueueInvalidStep(p: seq<Record>, r: Record)
    requires NoFatal(p) && HasKey(r) && KeyOf(r) !in KeysOf(p) && Validate(r) != Valid
    requires !Fatal(p + [r], |p|)
    ensures QueueFacts(p + [r], ScanStep(Scan(p), r))
    decreases |p|, 1
  {
    QueueInvariant(p);
    var st := Scan(p);
    var key := KeyOf(r);
    var rs' := p + [r];
    Snoc(p, r);
    assert rs'[..|p|] == p;
    assert Validate(r) == InvalidStatus;
    assert ScanStep(st, r) == Scanning(st.results[key := INVALID_STATUS], st.seen + {key}, st.queued);
    forall k | k in KeysOf(st.queued) ensures k in KeysOf(rs') && FirstRecord(st.queued, k) == FirstRecord(rs', k) {
      assert k in KeysOf(p);
    }
    forall k | k in KeysOf(rs') && k !in KeysOf(st.queued)
      ensures Validate(FirstRecord(rs', k).value) == InvalidStatus
    {
      if k == key {
        assert FirstRecord(rs', k) == Some(r);
      } else {
        assert FirstRecord(rs', k) == FirstRecord(p, k);
      }
    }
  }

  lemma {:induction false} ResultInvariant(rs: seq<Record>)
    requires NoFatal(rs)
    ensures ResultFacts(rs, Scan(rs))
    decreases |rs|, 0
  {
    if rs == [] {
      return;
    }
    var n := |rs| - 1;
    var p, r := rs[..n], rs[n];
    assert rs == p + [r];
    NoFatalPrefix(rs, n);
    assert !Fatal(rs, n);
    if KeyOf(r) in KeysOf(p) {
      ResultDuplicateStep(p, r);
    } else if Validate(r) == Valid {
      ResultAppendStep(p, r);
    } else {
      ResultInvalidStep(p, r);
    }
  }

  /** A repeated key is recorded as DUPLICATED. */
  lemma {:induction false} ResultDuplicateStep(p: seq<Record>, r: Record)
    requires NoFatal(p) && HasKey(r) && KeyOf(r) in KeysOf(p)
    ensures ResultFacts(p + [r], ScanStep(Scan(p), r))
    decreases |p|, 1
  {
    ResultInvariant(p);
    QueueInvariant(p);
    Snoc(p, r);
  }

  /** Queuing a record writes no result. */
  lemma {:induction false} ResultAppendStep(p: seq<Record>, r: Record)
    requires NoFatal(p) && HasKey(r) && KeyOf(r) !in KeysOf(p) && Validate(r) == Valid
    ensures ResultFacts(p + [r], ScanStep(Scan(p), r))
    decreases |p|, 1
  {
    ResultInvariant(p);
    QueueInvariant(p);
    var st := Scan(p);
    Snoc(p, r);
    Snoc(st.queued, r);
  }

  /** The first record of a key that fails only on its status is recorded
      as INVALID_STATUS. */
  lemma {:induction false} ResultInvalidStep(p: seq<Record>, r: Record)
    requires NoFatal(p) && HasKey(r) && KeyOf(r) !in KeysOf(p) && Validate(r) != Valid
    requires !Fatal(p + [r], |p|)
    ensures ResultFacts(p + [r], ScanStep(Scan(p), r))
    decreases |p|, 1
  {
    ResultInvariant(p);
    QueueInvariant(p);
    var st := Scan(p);
    var key := KeyOf(r);
    var rs' := p + [r];
    Snoc(p, r);
    assert rs'[..|p|] == p;
    assert Validate(r) == InvalidStatus;
    var results' := st.results[key := INVALID_STATUS];
    assert ScanStep(st, r) == Scanning(results', st.seen + {key}, st.queued);
    assert key !in KeysOf(st.queued);
    forall k | k in KeysOf(rs') && k !in KeysOf(st.queued)
      ensures k in results' && results'[k] == (if Occurrences(rs', k) > 1 then DUPLICATED else INVALID_STATUS)
    {
      if k == key {
        assert Occurrences(rs', k) == 1;
      } else {
        assert Occurrences(rs', k) == Occurrences(p, k);
      }
    }
  }

  // ---------------------------------------------------------------------
  // One record: enroll_learner_in_course
  // ---------------------------------------------------------------------

  /** A key with no program enrollment yields NOT_IN_PROGRAM and creates nothing. */
  lemma EnrollNotInProgram(t: Tables, course: string, lookup: map<FieldValue, ProgramEnrollment>, r: Record)
    requires Enrollable(r) && KeyOf(r) !in lookup
    ensures Enroll(t, course, lookup, r) == Step(NOT_IN_PROGRAM, t)
  {
  }

  /** A program enrollment already linked to the course yields CONFLICT and creates nothing. */
  lemma EnrollConflict(t: Tables, course: string, lookup: map<FieldValue, ProgramEnrollment>, r: Record)
    requires Enrollable(r) && KeyOf(r) in lookup
    requires HasProgramCourseEnrollment(t.programCourseEnrollments, lookup[KeyOf(r)].id, course)
    ensures Enroll(t, course, lookup, r) == Step(CONFLICT, t)
  {
  }

  /** Otherwise exactly one ProgramCourseEnrollment with the requested status is
      created and the outcome is that status; a MASTERS-mode course enrollment
      is created exactly when the program enrollment has a user, and it is
      inactive exactly when the status is `inactive`. */
  lemma EnrollCreates(t: Tables, course: string, lookup: map<FieldValue, ProgramEnrollment>, r: Record)
    requires Enrollable(r) && KeyOf(r) in lookup
    requires !HasProgramCourseEnrollment(t.programCourseEnrollments, lookup[KeyOf(r)].id, course)
    ensures var pe, status, s := lookup[KeyOf(r)], r[STATUS_FIELD].text, Enroll(t, course, lookup, r);
      && s.outcome == status
      && s.tables.programEnrollments == t.programEnrollments
      && |s.tables.programCourseEnrollments| == |t.programCourseEnrollments| + 1
      && s.tables.programCourseEnrollments[..|t.programCourseEnrollments|] == t.programCourseEnrollments
      && var row := s.tables.programCourseEnrollments[|t.programCourseEnrollments|];
      && row.programEnrollment == pe.id && row.courseKey == course && row.status == status
      && (row.courseEnrollment.Some? <==> pe.user.Some?)
      && (pe.user.None? ==> s.tables.courseEnrollments == t.courseEnrollments)
      && (pe.user.Some? ==>
            row.courseEnrollment == Some(|t.courseEnrollments|) &&
            s.tables.courseEnrollments ==
              t.courseEnrollments + [CourseEnrollment(pe.user.value, course, MASTERS, status != INACTIVE)])
  {
  }

  /** Adding one record's effects keeps at most one ProgramCourseEnrollment
      per program enrollment and course. */
  lemma EnrollPreservesUniqueness(t: Tables, course: string, lookup: map<FieldValue, ProgramEnrollment>, r: Record)
    requires Enrollable(r) && UniqueProgramCourseEnrollments(t.programCourseEnrollments)
    ensures UniqueProgramCourseEnrollments(Enroll(t, course, lookup, r).tables.programCourseEnrollments)
  {
    var rows := Enroll(t, course, lookup, r).tables.programCourseEnrollments;
    if rows != t.programCourseEnrollments {
      var n := |t.programCourseEnrollments|;
      forall i | 0 <= i < n
        ensures !(rows[i].programEnrollment == rows[n].programEnrollment && rows[i].courseKey == rows[n].courseKey)
      {
        assert rows[i] == t.programCourseEnrollments[i];
      }
    }
  }

  /** Rows appended for other program enrollments do not change whether one
      is already linked to the course. */
  lemma LinkUnchangedByOtherRows(before: seq<ProgramCourseEnrollment>, after: seq<ProgramCourseEnrollment>, id: nat, course: string)
    requires |before| <= |after| && after[..|before|] == before
    requires forall m :: |before| <= m < |after| ==> after[m].programEnrollment != id
    ensures HasProgramCourseEnrollment(after, id, course) == HasProgramCourseEnrollment(before, id, course)
  {
    if HasProgramCourseEnrollment(after, id, course) {
      var i :| 0 <= i < |after| && after[i].programEnrollment == id && after[i].courseKey == course;
      assert i < |before| && before[i] == after[i];
    }
    if HasProgramCourseEnrollment(before, id, course) {
      var i :| 0 <= i < |before| && before[i].programEnrollment == id && before[i].courseKey == course;
      assert after[i] == before[i];
    }
  }

  // ---------------------------------------------------------------------
  // The second pass
  // ---------------------------------------------------------------------

  predicate AllEnrollable(q: seq<Record>) {
    forall j :: 0 <= j < |q| ==> Enrollable(q[j])
  }

  predicate AllValid(q: seq<Record>) {
    forall j :: 0 <= j < |q| ==> Validate(q[j]) == Valid
  }

  /** The ids of the program enrollments that the keys of q match. */
  function MatchedIds(lookup: map<FieldValue, ProgramEnrollment>, q: seq<Record>): set<nat> {
    set k | k in KeysOf(q) && k in lookup :: lookup[k].id
  }

  /** The second pass leaves the program-enrollment table alone and only
      appends ProgramCourseEnrollments, each for this course and for a
      program enrollment that some queued key matched. */
  lemma {:induction false} SecondPassLinks(t: Tables, course: string, lookup: map<FieldValue, ProgramEnrollment>,
                                          q: seq<Record>, results: Results)
    requires AllEnrollable(q)
    ensures var o := SecondPass(t, course, lookup, q, results).tables;
      && o.programEnrollments == t.programEnrollments
      && |t.programCourseEnrollments| <= |o.programCourseEnrollments|
      && o.programCourseEnrollments[..|t.programCourseEnrollments|] == t.programCourseEnrollments
      && (forall m :: |t.programCourseEnrollments| <= m < |o.programCourseEnrollments| ==>
            o.programCourseEnrollments[m].courseKey == course &&
            o.programCourseEnrollments[m].programEnrollment in MatchedIds(lookup, q))
    decreases |q|
  {
    if q != [] {
      var n := |q| - 1;
      var p, r := q[..n], q[n];
      assert q == p + [r];
      SecondPassLinks(t, course, lookup, p, results);
      Snoc(p, r);
      assert MatchedIds(lookup, p) <= MatchedIds(lookup, q);
    }
  }

  /** The second pass only appends course enrollments, each a MASTERS-mode
      enrollment in this course, active when every queued record is valid. */
  lemma {:induction false} SecondPassCourseEnrollments(t: Tables, course: string, lookup: map<FieldValue, ProgramEnrollment>,
                                                      q: seq<Record>, results: Results)
    requires AllEnrollable(q)
    ensures var o := SecondPass(t, course, lookup, q, results).tables;
      && |t.courseEnrollments| <= |o.courseEnrollments|
      && o.courseEnrollments[..|t.courseEnrollments|] == t.courseEnrollments
      && (forall m :: |t.courseEnrollments| <= m < |o.courseEnrollments| ==>
            o.courseEnrollments[m].courseKey == course && o.courseEnrollments[m].mode == MASTERS &&
            (AllValid(q) ==> o.courseEnrollments[m].isActive))
    decreases |q|
  {
    if q != [] {
      var n := |q| - 1;
      var p, r := q[..n], q[n];
      assert q == p + [r];
      SecondPassCourseEnrollments(t, course, lookup, p, results);
      if AllValid(q) {
        assert AllValid(p) && Validate(r) == Valid;
        ChoicesAreSuccesses();
      }
    }
  }

  /** The second pass writes exactly the queued keys and leaves every other
      result of the first pass as it was. */
  lemma {:induction false} SecondPassKeys(t: Tables, course: string, lookup: map<FieldValue, ProgramEnrollment>,
                                         q: seq<Record>, results: Results)
    requires AllEnrollable(q)
    ensures var o := SecondPass(t, course, lookup, q, results).results;
      && o.Keys == results.Keys + KeysOf(q)
      && forall k :: k in results && k !in KeysOf(q) ==> o[k] == results[k]
    decreases |q|
  {
    if q != [] {
      var n := |q| - 1;
      assert q == q[..n] + [q[n]];
      SecondPassKeys(t, course, lookup, q[..n], results);
      Snoc(q[..n], q[n]);
    }
  }

  /** One queued record, processed after the records p, gets the outcome the
      original tables dictate: the rows the earlier records added belong to
      other program enrollments. */
  lemma EnrollAgainstOriginal(t: Tables, t': Tables, course: string, keys: seq<FieldValue>, p: seq<Record>, r: Record)
    requires DistinctIds(t.programEnrollments) && Enrollable(r) && KeyOf(r) in keys && KeyOf(r) !in KeysOf(p)
    requires t'.programEnrollments == t.programEnrollments
    requires |t.programCourseEnrollments| <= |t'.programCourseEnrollments|
    requires t'.programCourseEnrollments[..|t.programCourseEnrollments|] == t.programCourseEnrollments
    requires forall m :: |t.programCourseEnrollments| <= m < |t'.programCourseEnrollments| ==>
      t'.programCourseEnrollments[m].programEnrollment in
        MatchedIds(ExistingProgramEnrollments(t.programEnrollments, keys), p)
    ensures Enroll(t', course, ExistingProgramEnrollments(t.programEnrollments, keys), r).outcome == Decision(t, course, r)
  {
    var lookup := ExistingProgramEnrollments(t.programEnrollments, keys);
    var key := KeyOf(r);
    if key in lookup {
      var i := LastMatch(t.programEnrollments, key).value;
      var id := lookup[key].id;
      assert lookup[key] == t.programEnrollments[i];
      forall k | k in KeysOf(p) && k in lookup ensures lookup[k].id != id {
        var i' := LastMatch(t.programEnrollments, k).value;
        assert lookup[k] == t.programEnrollments[i'];
        assert i' != i;
      }
      assert id !in MatchedIds(lookup, p);
      LinkUnchangedByOtherRows(t.programCourseEnrollments, t'.programCourseEnrollments, id, course);
    }
  }

  lemma KeysAreStudentKeys(q: seq<Record>)
    requires forall j :: 0 <= j < |q| ==> HasKey(q[j])
    ensures forall k :: k in KeysOf(q) ==> k in StudentKeys(q)
  {
    forall k | k in KeysOf(q) ensures k in StudentKeys(q) {
      var f := FirstRecord(q, k).value;
      var j :| 0 <= j < |q| && q[j] == f;
      assert StudentKeys(q)[j] == k;
    }
  }

  /** With distinct queued keys, each queued key's outcome is the one its
      record gets against the original tables: outcomes do not depend on the
      order in which distinct students are processed. */
  lemma {:induction false} SecondPassOutcomes(t: Tables, course: string, keys: seq<FieldValue>,
                                             q: seq<Record>, results: Results)
    requires AllEnrollable(q) && DistinctKeys(q) && DistinctIds(t.programEnrollments)
    requires forall k :: k in KeysOf(q) ==> k in keys
    ensures var o := SecondPass(t, course, ExistingProgramEnrollments(t.programEnrollments, keys), q, results).results;
      forall k :: k in KeysOf(q) ==> k in o && o[k] == Decision(t, course, FirstRecord(q, k).value)
    decreases |q|
  {
    if q != [] {
      var lookup := ExistingProgramEnrollments(t.programEnrollments, keys);
      var n := |q| - 1;
      var p, r := q[..n], q[n];
      assert q == p + [r];
      Snoc(p, r);
      SecondPassOutcomes(t, course, keys, p, results);
      SecondPassLinks(t, course, lookup, p, results);
      var prior := SecondPass(t, course, lookup, p, results);
      EnrollAgainstOriginal(t, prior.tables, course, keys, p, r);
      var o := prior.results[KeyOf(r) := Enroll(prior.tables, course, lookup, r).outcome];
      forall k | k in KeysOf(q) ensures k in o && o[k] == Decision(t, course, FirstRecord(q, k).value) {
        if k != KeyOf(r) {
          assert FirstRecord(q, k) == FirstRecord(p, k);
        }
      }
    }
  }

  /** A valid record adds one ProgramCourseEnrollment exactly when its outcome is a success. */
  lemma EnrollCount(t: Tables, course: string, lookup: map<FieldValue, ProgramEnrollment>, r: Record)
    requires Enrollable(r) && Validate(r) == Valid
    ensures var s := Enroll(t, course, lookup, r);
      |s.tables.programCourseEnrollments| ==
        |t.programCourseEnrollments| + (if IsErrorStatus(s.outcome) then 0 else 1)
  {
    ChoicesAreSuccesses();
  }

  /** Writing a key that was not a success adds one success exactly when the new value is one. */
  lemma SuccessKeysUpdate(results: Results, key: FieldValue, outcome: string)
    requires key !in SuccessKeys(results)
    ensures |SuccessKeys(results[key := outcome])| ==
      |SuccessKeys(results)| + (if IsErrorStatus(outcome) then 0 else 1)
  {
    var after := results[key := outcome];
    if IsErrorStatus(outcome) {
      assert SuccessKeys(after) == SuccessKeys(results);
    } else {
      assert SuccessKeys(after) == SuccessKeys(results) + {key};
    }
  }

  /** When the first-pass results are all errors and the queue is valid with
      distinct keys, the second pass creates one ProgramCourseEnrollment per
      successful result. */
  lemma {:induction false} SecondPassCount(t: Tables, course: string, lookup: map<FieldValue, ProgramEnrollment>,
                                          q: seq<Record>, results: Results)
    requires AllValid(q) && AllEnrollable(q) && DistinctKeys(q)
    requires forall k :: k in results ==> IsErrorStatus(results[k])
    ensures var o := SecondPass(t, course, lookup, q, results);
      |o.tables.programCourseEnrollments| == |t.programCourseEnrollments| + |SuccessKeys(o.results)|
    decreases |q|
  {
    if q != [] {
      var n := |q| - 1;
      var p, r := q[..n], q[n];
      assert q == p + [r];
      Snoc(p, r);
      assert AllValid(p) && Validate(r) == Valid;
      SecondPassCount(t, course, lookup, p, results);
      SecondPassKeys(t, course, lookup, p, results);
      var prior := SecondPass(t, course, lookup, p, results);
      var key := KeyOf(r);
      assert key !in SuccessKeys(prior.results);
      EnrollCount(prior.tables, course, lookup, r);
      SuccessKeysUpdate(prior.results, key, Enroll(prior.tables, course, lookup, r).outcome);
    }
  }

  lemma {:induction false} SecondPassPreservesUniqueness(t: Tables, course: string, lookup: map<FieldValue, ProgramEnrollment>,
                                                        q: seq<Record>, results: Results)
    requires AllEnrollable(q) && UniqueProgramCourseEnrollments(t.programCourseEnrollments)
    ensures UniqueProgramCourseEnrollments(SecondPass(t, course, lookup, q, results).tables.programCourseEnrollments)
    decreases |q|
  {
    if q != [] {
      var n := |q| - 1;
      SecondPassPreservesUniqueness(t, course, lookup, q[..n], results);
      EnrollPreservesUniqueness(SecondPass(t, course, lookup, q[..n], results).tables, course, lookup, q[n]);
    }
  }

  // ---------------------------------------------------------------------
  // The whole request
  // ---------------------------------------------------------------------

  /** The first record that aborts the request decides the 422 message, and
      nothing is written. */
  lemma PostAborts(t: Tables, course: string, rs: seq<Record>, i: nat)
    requires Fatal(rs, i) && forall j :: 0 <= j < i ==> !Fatal(rs, j)
    ensures PostSpec(t, course, rs) ==
      Posted(Response(HTTP_422_UNPROCESSABLE_ENTITY, Message(AbortMessage(rs[i]))), t)
  {
    assert NoFatal(rs[..i]) by {
      forall j | 0 <= j < i ensures !Fatal(rs[..i], j) {
        assert rs[..i][..j] == rs[..j];
        assert !Fatal(rs, j);
      }
    }
    ScanInvariant(rs[..i]);
    assert rs[..i + 1][..i] == rs[..i];
    ScanAbortSticks(rs, i + 1);
  }

  /** The earliest aborting record, when there is one. */
  lemma FirstFatal(rs: seq<Record>) returns (i: nat)
    requires exists i :: Fatal(rs, i)
    ensures Fatal(rs, i) && forall j :: 0 <= j < i ==> !Fatal(rs, j)
  {
    var k :| Fatal(rs, k);
    i := 0;
    while !Fatal(rs, i)
      invariant i <= k
      invariant forall j :: 0 <= j < i ==> !Fatal(rs, j)
      decreases k - i
    {
      i := i + 1;
    }
  }

  /** The request is refused as a whole exactly when some record lacks a
      student key, or is the first of its key and neither valid nor merely of
      an unknown status; a refused request writes nothing. */
  lemma PostAbortIff(t: Tables, course: string, rs: seq<Record>)
    ensures PostSpec(t, course, rs).response.body.Message? <==> exists i :: Fatal(rs, i)
    ensures (exists i :: Fatal(rs, i)) ==>
      PostSpec(t, course, rs).tables == t &&
      PostSpec(t, course, rs).response.status == HTTP_422_UNPROCESSABLE_ENTITY
  {
    if exists i :: Fatal(rs, i) {
      var i := FirstFatal(rs);
      PostAborts(t, course, rs, i);
    } else {
      ScanInvariant(rs);
    }
  }

  /** A record without a student key anywhere in the batch refuses the whole request. */
  lemma MissingKeyRefusesBatch(t: Tables, course: string, rs: seq<Record>, i: nat)
    requires i < |rs| && !HasKey(rs[i])
    ensures PostSpec(t, course, rs).tables == t
    ensures PostSpec(t, course, rs).response.status == HTTP_422_UNPROCESSABLE_ENTITY
    ensures PostSpec(t, course, rs).response.body.Message?
  {
    assert Fatal(rs, i);
    PostAbortIff(t, course, rs);
  }

  /** What one student key's result is, given the first record of the key. */
  predicate ResultFor(t: Tables, course: string, rs: seq<Record>, results: Results, k: FieldValue)
    requires k in KeysOf(rs) && k in results
  {
    var f := FirstRecord(rs, k).value;
    || (Validate(f) == Valid && results[k] == Decision(t, course, f))
    || (Validate(f) == InvalidStatus &&
        results[k] == (if Occurrences(rs, k) > 1 then DUPLICATED else INVALID_STATUS))
  }

  /** The first record of a queued key is valid. */
  lemma QueuedFirstValid(q: seq<Record>, k: FieldValue)
    requires forall j :: 0 <= j < |q| ==> Validate(q[j]) == Valid
    requires k in KeysOf(q)
    ensures Validate(FirstRecord(q, k).value) == Valid
  {
    var f := FirstRecord(q, k).value;
    var j :| 0 <= j < |q| && q[j] == f;
  }

  /** Without an aborting record, every student key of the batch gets exactly
      one result: the first record of the key decides it; a valid one gets
      the outcome the original tables dictate, and one with an unknown status
      gets DUPLICATED when the key repeats, INVALID_STATUS otherwise. */
  lemma PostResults(t: Tables, course: string, rs: seq<Record>)
    requires NoFatal(rs) && DistinctIds(t.programEnrollments)
    ensures PostSpec(t, course, rs).response.body.Outcomes?
    ensures PostSpec(t, course, rs).response.body.results.Keys == KeysOf(rs)
    ensures forall k :: k in KeysOf(rs) ==> ResultFor(t, course, rs, PostSpec(t, course, rs).response.body.results, k)
  {
    ScanInvariant(rs);
    var st := Scan(rs);
    var q := st.queued;
    var keys := StudentKeys(q);
    var lookup := ExistingProgramEnrollments(t.programEnrollments, keys);
    KeysAreStudentKeys(q);
    SecondPassKeys(t, course, lookup, q, st.results);
    SecondPassOutcomes(t, course, keys, q, st.results);
    var o := SecondPass(t, course, lookup, q, st.results).results;
    assert PostSpec(t, course, rs).response.body.results == o;
    forall k | k in KeysOf(rs) ensures ResultFor(t, course, rs, o, k) {
      if k in KeysOf(q) {
        QueuedFirstValid(q, k);
      }
    }
  }

  /** Without an aborting record the program-enrollment table is untouched,
      and one ProgramCourseEnrollment is created per successful result, so at
      most one per distinct student key of the batch. */
  lemma PostCreations(t: Tables, course: string, rs: seq<Record>)
    requires NoFatal(rs)
    ensures var p := PostSpec(t, course, rs);
      && p.response.body.Outcomes?
      && p.tables.programEnrollments == t.programEnrollments
      && |p.tables.programCourseEnrollments| ==
           |t.programCourseEnrollments| + |SuccessKeys(p.response.body.results)|
      && |p.tables.programCourseEnrollments| <= |t.programCourseEnrollments| + |KeysOf(rs)|
  {
    ScanInvariant(rs);
    var st := Scan(rs);
    var lookup := ExistingProgramEnrollments(t.programEnrollments, StudentKeys(st.queued));
    SecondPassLinks(t, course, lookup, st.queued, st.results);
    SecondPassKeys(t, course, lookup, st.queued, st.results);
    SecondPassCount(t, course, lookup, st.queued, st.results);
    var results := PostSpec(t, course, rs).response.body.results;
    assert results.Keys == KeysOf(rs);
    SubsetSize(SuccessKeys(results), results.Keys);
    assert |results| == |results.Keys|;
  }

  /** Without an aborting record the status code says how much was created:
      422 exactly when nothing was, 200 exactly when every student key of a
      non-empty batch got its ProgramCourseEnrollment, 207 otherwise. */
  lemma PostStatusCountsCreations(t: Tables, course: string, rs: seq<Record>)
    requires NoFatal(rs)
    ensures var p := PostSpec(t, course, rs);
      var created := |p.tables.programCourseEnrollments| - |t.programCourseEnrollments|;
      && (p.response.status == HTTP_422_UNPROCESSABLE_ENTITY <==> created == 0)
      && (p.response.status == HTTP_200_OK <==> KeysOf(rs) != {} && created == |KeysOf(rs)|)
      && (p.response.status == HTTP_207_MULTI_STATUS <==> 0 < created < |KeysOf(rs)|)
  {
    PostCreations(t, course, rs);
    ScanInvariant(rs);
    var st := Scan(rs);
    var lookup := ExistingProgramEnrollments(t.programEnrollments, StudentKeys(st.queued));
    SecondPassKeys(t, course, lookup, st.queued, st.results);
    var results := PostSpec(t, course, rs).response.body.results;
    assert results.Keys == KeysOf(rs);
    assert |results| == |KeysOf(rs)|;
    SuccessCount(results);
  }

  /** No request ever leaves two ProgramCourseEnrollments for the same
      program enrollment and course, given that none existed before. */
  lemma PostPreservesUniqueness(t: Tables, course: string, rs: seq<Record>)
    requires UniqueProgramCourseEnrollments(t.programCourseEnrollments)
    ensures UniqueProgramCourseEnrollments(PostSpec(t, course, rs).tables.programCourseEnrollments)
  {
    var st := Scan(rs);
    if st.Scanning? {
      var lookup := ExistingProgramEnrollments(t.programEnrollments, StudentKeys(st.queued));
      SecondPassPreservesUniqueness(t, course, lookup, st.queued, st.results);
    }
  }

  /** A request only appends: existing rows and the program-enrollment table
      are kept, every new ProgramCourseEnrollment is for the request's course,
      and every new course enrollment is an active MASTERS-mode enrollment in
      that course; the deactivating branch of enroll_learner_in_course is
      never taken. */
  lemma PostOnlyAppends(t: Tables, course: string, rs: seq<Record>)
    ensures var o := PostSpec(t, course, rs).tables;
      && o.programEnrollments == t.programEnrollments
      && |t.programCourseEnrollments| <= |o.programCourseEnrollments|
      && o.programCourseEnrollments[..|t.programCourseEnrollments|] == t.programCourseEnrollments
      && |t.courseEnrollments| <= |o.courseEnrollments|
      && o.courseEnrollments[..|t.courseEnrollments|] == t.courseEnrollments
      && (forall m :: |t.programCourseEnrollments| <= m < |o.programCourseEnrollments| ==>
            o.programCourseEnrollments[m].courseKey == course)
      && (forall m :: |t.courseEnrollments| <= m < |o.courseEnrollments| ==>
            o.courseEnrollments[m] == CourseEnrollment(o.courseEnrollments[m].user, course, MASTERS, true))
  {
    var st := Scan(rs);
    if st.Scanning? {
      var lookup := ExistingProgramEnrollments(t.programEnrollments, StudentKeys(st.queued));
      SecondPassLinks(t, course, lookup, st.queued, st.results);
      SecondPassCourseEnrollments(t, course, lookup, st.queued, st.results);
    }
  }
}
