/**
 * The per-record request validator
 * (lms/djangoapps/program_enrollments/serializers.py):
 * ProgramCourseEnrollmentRequestSerializer with its two declared fields, and
 * InvalidStatusMixin.has_invalid_status.
 *
 * The serializer is modelled as the map of field errors that validation
 * produces (field name -> list of error codes, as in the serializer's
 * `errors`), following the field classes' own rules. SerializerVerdict
 * reads a verdict from it the way the view does; Validate states the same
 * verdict directly from the two fields, and the rest of the model uses it.
 */
module Serializers {
  import opened Constants

  /** A value in an incoming JSON record: a string, null, a number, or any
      other JSON value (boolean, list, object); the last two are kept by
      their literal text. */
  datatype FieldValue = Text(text: string) | Null | Number(literal: string) | Other(literal: string)

  /** One raw batch entry: field name -> value. */
  type Record = map<string, FieldValue>

  /** The error codes the two field classes can raise. */
  datatype ErrorCode = Required | NullValue | Blank | Invalid | InvalidChoice

  type FieldErrors = map<string, seq<ErrorCode>>

  /** ProgramCourseEnrollmentRequestSerializer.STATUS_CHOICES */
  const STATUS_CHOICES: seq<string> := ["pending", "enrolled"]

  const STUDENT_KEY_FIELD: string := "student_key"
  const STATUS_FIELD: string := "status"

  /** The characters a CharField trims before its blank test: those Python's
      `str.strip()` removes, the characters for which `str.isspace()` holds. */
  predicate IsWhitespace(c: char) {
    ('\t' <= c <= '\r') || ('\U{1C}' <= c <= ' ') || c == '\U{85}' || c == '\U{A0}' ||
    c == '\U{1680}' || ('\U{2000}' <= c <= '\U{200A}') || c == '\U{2028}' || c == '\U{2029}' ||
    c == '\U{202F}' || c == '\U{205F}' || c == '\U{3000}'
  }

  /** Empty once surrounding whitespace is trimmed. */
  predicate IsBlank(s: string) {
    forall i :: 0 <= i < |s| ==> IsWhitespace(s[i])
  }

  /** Errors of a required CharField named `name`. A number is accepted and
      read as its decimal text, which is never blank; booleans, lists and
      objects are invalid. */
  function CharFieldErrors(r: Record, name: string, allowBlank: bool): (errs: seq<ErrorCode>)
    ensures errs == [] <==>
      name in r && (r[name].Number? || (r[name].Text? && (allowBlank || !IsBlank(r[name].text))))
    ensures |errs| <= 1
  {
    if name !in r then [Required]
    else match r[name]
      case Null => [NullValue]
      case Number(_) => []
      case Other(_) => [Invalid]
      case Text(s) => if !allowBlank && IsBlank(s) then [Blank] else []
  }

  /** Errors of a required ChoiceField named `name`. A blank string is
      accepted only when `allowBlank`; otherwise it is just another value
      outside the choices. A non-string value is looked up by its text, and
      no such text is one of the choices used here. */
  function ChoiceFieldErrors(r: Record, name: string, choices: seq<string>, allowBlank: bool): (errs: seq<ErrorCode>)
    ensures errs == [] <==> name in r && r[name].Text? && (r[name].text in choices || (allowBlank && r[name].text == ""))
    ensures |errs| <= 1
  {
    if name !in r then [Required]
    else match r[name]
      case Null => [NullValue]
      case Number(_) | Other(_) => [InvalidChoice]
      case Text(s) => if (s == "" && allowBlank) || s in choices then [] else [InvalidChoice]
  }

  /** The serializer's `errors` after validation: one entry per failing
      declared field, holding that field's errors, and nothing else. */
  function Errors(r: Record): (e: FieldErrors)
    ensures e.Keys <= {STUDENT_KEY_FIELD, STATUS_FIELD}
    ensures STUDENT_KEY_FIELD in e <==> CharFieldErrors(r, STUDENT_KEY_FIELD, false) != []
    ensures STUDENT_KEY_FIELD in e ==> e[STUDENT_KEY_FIELD] == CharFieldErrors(r, STUDENT_KEY_FIELD, false)
    ensures STATUS_FIELD in e <==> ChoiceFieldErrors(r, STATUS_FIELD, STATUS_CHOICES, false) != []
    ensures STATUS_FIELD in e ==> e[STATUS_FIELD] == ChoiceFieldErrors(r, STATUS_FIELD, STATUS_CHOICES, false)
  {
    var keyErrors := CharFieldErrors(r, STUDENT_KEY_FIELD, false);
    var statusErrors := ChoiceFieldErrors(r, STATUS_FIELD, STATUS_CHOICES, false);
    (if keyErrors == [] then map[] else map[STUDENT_KEY_FIELD := keyErrors]) +
    (if statusErrors == [] then map[] else map[STATUS_FIELD := statusErrors])
  }

  /** `is_valid()`: no field failed. */
  predicate IsValid(r: Record) {
    Errors(r) == map[]
  }

  /** A record is valid exactly when both declared fields pass. */
  lemma IsValidIff(r: Record)
    ensures IsValid(r) <==>
      CharFieldErrors(r, STUDENT_KEY_FIELD, false) == [] &&
      ChoiceFieldErrors(r, STATUS_FIELD, STATUS_CHOICES, false) == []
  {
    if CharFieldErrors(r, STUDENT_KEY_FIELD, false) != [] {
      assert STUDENT_KEY_FIELD in Errors(r);
    }
    if ChoiceFieldErrors(r, STATUS_FIELD, STATUS_CHOICES, false) != [] {
      assert STATUS_FIELD in Errors(r);
    }
  }

  /** InvalidStatusMixin.has_invalid_status: the first error on `status` is
      `invalid_choice`. Intent: it reads this serializer's own `errors` (the
      source names an undefined `enrollee_serializer`). */
  predicate HasInvalidStatus(errors: FieldErrors) {
    STATUS_FIELD in errors && |errors[STATUS_FIELD]| > 0 && errors[STATUS_FIELD][0] == InvalidChoice
  }

  /** How the view reads a validated record. */
  datatype Verdict = Valid | InvalidStatus | Malformed

  /** An acceptable student key: a string that is not blank, or a number. */
  predicate GoodStudentKey(r: Record) {
    STUDENT_KEY_FIELD in r &&
    (r[STUDENT_KEY_FIELD].Number? || (r[STUDENT_KEY_FIELD].Text? && !IsBlank(r[STUDENT_KEY_FIELD].text)))
  }

  /** A status that is present, not null, and not one of the choices. */
  predicate UnknownStatus(r: Record) {
    STATUS_FIELD in r && !r[STATUS_FIELD].Null? &&
    !(r[STATUS_FIELD].Text? && r[STATUS_FIELD].text in STATUS_CHOICES)
  }

  /** A status that is one of the choices. */
  predicate AcceptedStatus(r: Record) {
    STATUS_FIELD in r && r[STATUS_FIELD].Text? && r[STATUS_FIELD].text in STATUS_CHOICES
  }

  /** The verdict on one record, stated from the two declared fields: valid,
      invalid only through an unknown status, or invalid for another reason. */
  function Validate(r: Record): (v: Verdict)
    ensures v == Valid <==> GoodStudentKey(r) && AcceptedStatus(r)
    ensures v == InvalidStatus <==> UnknownStatus(r)
  {
    if GoodStudentKey(r) && AcceptedStatus(r) then Valid
    else if UnknownStatus(r) then InvalidStatus
    else Malformed
  }

  /** The verdict as the view reads the serializer: `is_valid()` first, then
      `has_invalid_status()`. It is the verdict of the declared fields. */
  function SerializerVerdict(r: Record): (v: Verdict)
    ensures v == Validate(r)
  {
    IsValidIff(r);
    HasInvalidStatusIff(r);
    if IsValid(r) then Valid
    else if HasInvalidStatus(Errors(r)) then InvalidStatus
    else Malformed
  }

  /** has_invalid_status holds exactly when the status is present, not null
      and outside the choices, whatever the student key. */
  lemma HasInvalidStatusIff(r: Record)
    ensures HasInvalidStatus(Errors(r)) <==> UnknownStatus(r)
  {
  }

  /** `inactive` is never an accepted request status. */
  lemma InactiveNeverAccepted(r: Record)
    requires STATUS_FIELD in r && r[STATUS_FIELD] == Text(INACTIVE)
    ensures Validate(r) == InvalidStatus
  {
  }

  /** A blank status is rejected, as an invalid choice. */
  lemma BlankStatusRejected(r: Record)
    requires STATUS_FIELD in r && r[STATUS_FIELD].Text? && IsBlank(r[STATUS_FIELD].text)
    ensures Validate(r) == InvalidStatus
  {
    var s := r[STATUS_FIELD].text;
    assert "pending"[0] == 'p' && "enrolled"[0] == 'e';
    assert s != "pending" && s != "enrolled" by {
      if |s| > 0 { assert IsWhitespace(s[0]); }
    }
  }

  /** An acceptable status with a blank or missing student key is not an
      invalid-status case: the record is malformed. */
  lemma BadKeyWithGoodStatusIsMalformed(r: Record)
    requires !GoodStudentKey(r)
    requires STATUS_FIELD in r && r[STATUS_FIELD].Text? && r[STATUS_FIELD].text in STATUS_CHOICES
    ensures Validate(r) == Malformed
  {
  }

  /** The serializer's errors, and so its verdict, depend on the two declared fields only. */
  lemma VerdictDependsOnDeclaredFields(r1: Record, r2: Record)
    requires (STUDENT_KEY_FIELD in r1) == (STUDENT_KEY_FIELD in r2)
    requires STUDENT_KEY_FIELD in r1 ==> r1[STUDENT_KEY_FIELD] == r2[STUDENT_KEY_FIELD]
    requires (STATUS_FIELD in r1) == (STATUS_FIELD in r2)
    requires STATUS_FIELD in r1 ==> r1[STATUS_FIELD] == r2[STATUS_FIELD]
    ensures Errors(r1) == Errors(r2)
    ensures SerializerVerdict(r1) == SerializerVerdict(r2)
  {
    assert CharFieldErrors(r1, STUDENT_KEY_FIELD, false) == CharFieldErrors(r2, STUDENT_KEY_FIELD, false);
    assert ChoiceFieldErrors(r1, STATUS_FIELD, STATUS_CHOICES, false) == ChoiceFieldErrors(r2, STATUS_FIELD, STATUS_CHOICES, false);
  }

  /** The accepted request statuses are not error codes, so they count as successes. */
  lemma ChoicesAreSuccesses()
    ensures forall s :: s in STATUS_CHOICES ==> !IsErrorStatus(s) && s != INACTIVE
  {
  }
}
