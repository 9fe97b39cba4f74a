/**
 * Small concrete batches that pin down the write order of the two passes
 * and the reach of the bulk lookup.
 */
module Scenarios {
  import opened Wrappers
  import opened Constants
  import opened Serializers
  import opened Models
  import opened Reconciliation

  function Rec(key: string, status: string): Record {
    map[STUDENT_KEY_FIELD := Text(key), STATUS_FIELD := Text(status)]
  }

  /** The lookup matches on the external user key alone: a program
      enrollment in some other program is found all the same. */
  lemma LookupIgnoresProgram()
    ensures var table := [ProgramEnrollment(7, "learner-1", "other-program", None)];
      var m := ExistingProgramEnrollments(table, [Text("learner-1")]);
      Text("learner-1") in m && m[Text("learner-1")].programUuid == "other-program"
  {
    var table := [ProgramEnrollment(7, "learner-1", "other-program", None)];
    assert LastMatch(table, Text("learner-1")) == Some(0);
  }

  /** A key whose first record has an unknown status and which comes again
      ends as DUPLICATED; nothing is created, so the answer is 422. */
  lemma InvalidStatusThenRepeat(t: Tables, course: string)
    ensures PostSpec(t, course, [Rec("a", "bogus"), Rec("a", "pending")]) ==
      Posted(Response(HTTP_422_UNPROCESSABLE_ENTITY, Outcomes(map[Text("a") := DUPLICATED])), t)
  {
    var r1, r2 := Rec("a", "bogus"), Rec("a", "pending");
    var rs := [r1, r2];
    assert Validate(r1) == InvalidStatus by {
      assert !IsBlank("a") by { assert "a"[0] == 'a'; }
      assert "bogus" !in STATUS_CHOICES;
    }
    assert rs[..1] == [r1] && [r1][..0] == [];
    assert HasKey(r1) && KeyOf(r1) == Text("a") && HasKey(r2) && KeyOf(r2) == Text("a");
    assert Scan([r1]) == ScanStep(Scanning(map[], {}, []), r1);
    assert Scan([r1]) == Scanning(map[Text("a") := INVALID_STATUS], {Text("a")}, []);
    assert Scan(rs) == ScanStep(Scan([r1]), r2);
    assert Scan(rs) == Scanning(map[Text("a") := DUPLICATED], {Text("a")}, []);
    assert SuccessKeys(map[Text("a") := DUPLICATED]) == {};
  }

  lemma QueuedThenRepeatScan()
    ensures Scan([Rec("a", "pending"), Rec("a", "bogus")]) ==
      Scanning(map[Text("a") := DUPLICATED], {Text("a")}, [Rec("a", "pending")])
  {
    var r1, r2 := Rec("a", "pending"), Rec("a", "bogus");
    var rs := [r1, r2];
    assert Validate(r1) == Valid by {
      assert !IsBlank("a") by { assert "a"[0] == 'a'; }
      assert "pending" in STATUS_CHOICES;
    }
    assert rs[..1] == [r1] && [r1][..0] == [];
    assert HasKey(r1) && KeyOf(r1) == Text("a") && HasKey(r2) && KeyOf(r2) == Text("a");
    assert Scan([r1]) == ScanStep(Scanning(map[], {}, []), r1);
    assert Scan([r1]) == Scanning(map[], {Text("a")}, [r1]);
    assert Scan(rs) == ScanStep(Scan([r1]), r2);
  }

  lemma QueuedThenRepeatSecondPass(course: string)
    ensures var t := Tables([ProgramEnrollment(1, "a", "program", None)], [], []);
      var lookup := ExistingProgramEnrollments(t.programEnrollments, [Text("a")]);
      SecondPass(t, course, lookup, [Rec("a", "pending")], map[Text("a") := DUPLICATED]) ==
        Reconciled(map[Text("a") := "pending"],
                   Tables(t.programEnrollments, [ProgramCourseEnrollment(1, None, course, "pending")], []))
  {
    var t := Tables([ProgramEnrollment(1, "a", "program", None)], [], []);
    var r1 := Rec("a", "pending");
    var results := map[Text("a") := DUPLICATED];
    var lookup := ExistingProgramEnrollments(t.programEnrollments, [Text("a")]);
    assert LastMatch(t.programEnrollments, Text("a")) == Some(0);
    assert lookup == map[Text("a") := t.programEnrollments[0]];
    assert HasKey(r1) && KeyOf(r1) == Text("a") && r1[STATUS_FIELD] == Text("pending");
    assert !HasProgramCourseEnrollment(t.programCourseEnrollments, 1, course);
    assert SecondPass(t, course, lookup, [r1][..0], results) == Reconciled(results, t);
  }

  lemma AggregateOnePending()
    ensures Aggregate(map[Text("a") := "pending"]) == Response(HTTP_200_OK, Outcomes(map[Text("a") := "pending"]))
  {
    assert "pending" !in ERROR_STATUSES;
    assert SuccessKeys(map[Text("a") := "pending"]) == {Text("a")};
  }

  /** A key whose first record is queued keeps the outcome of its enrollment
      even when a later record with the same key is marked DUPLICATED. */
  lemma QueuedThenRepeat(course: string)
    ensures var t := Tables([ProgramEnrollment(1, "a", "program", None)], [], []);
      PostSpec(t, course, [Rec("a", "pending"), Rec("a", "bogus")]) ==
        Posted(Response(HTTP_200_OK, Outcomes(map[Text("a") := "pending"])),
               Tables(t.programEnrollments, [ProgramCourseEnrollment(1, None, course, "pending")], []))
  {
    QueuedThenRepeatScan();
    QueuedThenRepeatSecondPass(course);
    AggregateOnePending();
    var r1 := Rec("a", "pending");
    assert KeyOf(r1) == Text("a");
    assert StudentKeys([r1]) == [Text("a")];
  }

  /** The first pass over `rs + [r]` is one more step after the pass over `rs`. */
  lemma ScanAppend(rs: seq<Record>, r: Record)
    ensures Scan(rs + [r]) == ScanStep(Scan(rs), r)
  {
    assert (rs + [r])[..|rs|] == rs;
  }

  /** A record whose key starts with a non-space character and whose status
      is among the choices is valid. */
  lemma ValidRec(key: string, status: string)
    requires |key| > 0 && !IsWhitespace(key[0])
    requires status in STATUS_CHOICES
    ensures Validate(Rec(key, status)) == Valid && KeyOf(Rec(key, status)) == Text(key)
  {
  }

  lemma ScanStepQueues(results: Results, seen: set<FieldValue>, queued: seq<Record>, r: Record)
    requires HasKey(r) && KeyOf(r) !in seen && Validate(r) == Valid
    ensures ScanStep(Scanning(results, seen, queued), r) == Scanning(results, seen + {KeyOf(r)}, queued + [r])
  {
  }

  lemma ScanStepDuplicate(results: Results, seen: set<FieldValue>, queued: seq<Record>, r: Record)
    requires HasKey(r) && KeyOf(r) in seen
    ensures ScanStep(Scanning(results, seen, queued), r) == Scanning(results[KeyOf(r) := DUPLICATED], seen, queued)
  {
  }

  lemma ScanStepInvalidStatus(results: Results, seen: set<FieldValue>, queued: seq<Record>, r: Record)
    requires HasKey(r) && KeyOf(r) !in seen && Validate(r) == InvalidStatus
    ensures ScanStep(Scanning(results, seen, queued), r) ==
      Scanning(results[KeyOf(r) := INVALID_STATUS], seen + {KeyOf(r)}, queued)
  {
  }

  /** The first pass over a mixed batch: `a` is queued through its first
      record and marked DUPLICATED by its second, `b` has an unknown status,
      and `c` is queued. */
  lemma MixedBatchScan(ra1: Record, ra2: Record, rb: Record, rc: Record)
    requires HasKey(ra1) && HasKey(ra2) && HasKey(rb) && HasKey(rc)
    requires KeyOf(ra1) == Text("a") && KeyOf(ra2) == Text("a") && KeyOf(rb) == Text("b") && KeyOf(rc) == Text("c")
    requires Validate(ra1) == Valid && Validate(rb) == InvalidStatus && Validate(rc) == Valid
    ensures Scan([ra1, ra2, rb, rc]) ==
      Scanning(map[Text("a") := DUPLICATED, Text("b") := INVALID_STATUS], {Text("a"), Text("b"), Text("c")}, [ra1, rc])
  {
    var a, b, c := Text("a"), Text("b"), Text("c");
    ScanAppend([], ra1);
    assert [] + [ra1] == [ra1];
    ScanStepQueues(map[], {}, [], ra1);
    ScanAppend([ra1], ra2);
    assert [ra1] + [ra2] == [ra1, ra2];
    ScanStepDuplicate(map[], {a}, [ra1], ra2);
    ScanAppend([ra1, ra2], rb);
    assert [ra1, ra2] + [rb] == [ra1, ra2, rb];
    ScanStepInvalidStatus(map[a := DUPLICATED], {a}, [ra1], rb);
    ScanAppend([ra1, ra2, rb], rc);
    assert [ra1, ra2, rb] + [rc] == [ra1, ra2, rb, rc];
    assert c !in {a} + {b} by { assert "c"[0] != "a"[0] && "c"[0] != "b"[0]; }
    ScanStepQueues(map[a := DUPLICATED][b := INVALID_STATUS], {a} + {b}, [ra1], rc);
    assert [ra1] + [rc] == [ra1, rc];
  }

  /** The bulk lookup of the mixed batch finds the one program enrollment, `c`'s. */
  lemma MixedBatchLookup(pe: ProgramEnrollment)
    requires pe.externalUserKey == "c"
    ensures ExistingProgramEnrollments([pe], [Text("a"), Text("c")]) == map[Text("c") := pe]
  {
    assert [pe][..0] == [];
  }

  /** The second pass over the mixed batch: `a` has no program enrollment,
      while `c` has one with a bound user, so `c` gets a MASTERS course
      enrollment and its link. */
  lemma MixedBatchSecondPass(t: Tables, course: string, pe: ProgramEnrollment, ra1: Record, rc: Record)
    requires t == Tables([pe], [], []) && pe.id == 1 && pe.user == Some(5)
    requires Enrollable(ra1) && Enrollable(rc) && KeyOf(ra1) == Text("a") && KeyOf(rc) == Text("c")
    requires rc[STATUS_FIELD] == Text("enrolled")
    ensures SecondPass(t, course, map[Text("c") := pe], [ra1, rc], map[Text("a") := DUPLICATED, Text("b") := INVALID_STATUS]) ==
      Reconciled(map[Text("a") := NOT_IN_PROGRAM, Text("b") := INVALID_STATUS, Text("c") := "enrolled"],
                 Tables([pe], [ProgramCourseEnrollment(1, Some(0), course, "enrolled")], [CourseEnrollment(5, course, MASTERS, true)]))
  {
    var lookup := map[Text("c") := pe];
    var results := map[Text("a") := DUPLICATED, Text("b") := INVALID_STATUS];
    assert Text("a") !in lookup by { assert "a"[0] != "c"[0]; }
    assert [ra1, rc][..1] == [ra1] && [ra1][..0] == [];
    assert SecondPass(t, course, lookup, [ra1], results) == Reconciled(results[Text("a") := NOT_IN_PROGRAM], t);
    assert !HasProgramCourseEnrollment(t.programCourseEnrollments, 1, course);
    assert "enrolled" != INACTIVE;
  }

  lemma AggregateMixed()
    ensures var results := map[Text("a") := NOT_IN_PROGRAM, Text("b") := INVALID_STATUS, Text("c") := "enrolled"];
      Aggregate(results) == Response(HTTP_207_MULTI_STATUS, Outcomes(results))
  {
    var results := map[Text("a") := NOT_IN_PROGRAM, Text("b") := INVALID_STATUS, Text("c") := "enrolled"];
    assert "enrolled" !in ERROR_STATUSES;
    assert Text("c") in results && !IsErrorStatus(results[Text("c")]);
    assert Text("a") in results && IsErrorStatus(results[Text("a")]);
  }

  /** A mixed batch: `a` twice (first `enrolled`, then `pending`) with no
      program enrollment, `b` with an unknown status, and `c` with a program
      enrollment whose user is bound. The repeated `a` ends `not-in-program`,
      since its first record was queued and the second pass writes after the
      first; `b` is `invalid-status`; `c` is enrolled in MASTERS mode. Some
      succeed and some fail, so the answer is 207. */
  lemma MixedBatch(course: string)
    ensures var t := Tables([ProgramEnrollment(1, "c", "program", Some(5))], [], []);
      PostSpec(t, course, [Rec("a", "enrolled"), Rec("a", "pending"), Rec("b", "bogus"), Rec("c", "enrolled")]) ==
        Posted(Response(HTTP_207_MULTI_STATUS,
                        Outcomes(map[Text("a") := NOT_IN_PROGRAM, Text("b") := INVALID_STATUS, Text("c") := "enrolled"])),
               Tables(t.programEnrollments, [ProgramCourseEnrollment(1, Some(0), course, "enrolled")],
                      [CourseEnrollment(5, course, MASTERS, true)]))
  {
    var pe := ProgramEnrollment(1, "c", "program", Some(5));
    var t := Tables([pe], [], []);
    var ra1, ra2, rb, rc := Rec("a", "enrolled"), Rec("a", "pending"), Rec("b", "bogus"), Rec("c", "enrolled");
    assert "a"[0] == 'a' && "c"[0] == 'c';
    ValidRec("a", "enrolled");
    ValidRec("c", "enrolled");
    assert KeyOf(ra2) == Text("a") && KeyOf(rb) == Text("b");
    assert Validate(rb) == InvalidStatus by {
      assert "bogus" !in STATUS_CHOICES;
    }
    MixedBatchScan(ra1, ra2, rb, rc);
    assert StudentKeys([ra1, rc]) == [Text("a"), Text("c")];
    MixedBatchLookup(pe);
    MixedBatchSecondPass(t, course, pe, ra1, rc);
    AggregateMixed();
  }
}
