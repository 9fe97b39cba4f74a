/**
 * The result-code vocabulary of the course-enrollment app
 * (lms/djangoapps/program_enrollments/constants.py, class ResponseStatuses).
 */
module Constants {

  const ACTIVE: string := "active"
  const INACTIVE: string := "inactive"
  const DUPLICATED: string := "duplicated"
  const INVALID_STATUS: string := "invalid-status"
  const CONFLICT: string := "conflict"
  const ILLEGAL_OPERATION: string := "illegal-operation"
  const NOT_IN_PROGRAM: string := "not-in-program"
  const INTERNAL_ERROR: string := "internal-error"

  /** The eight codes in declaration order. */
  const RESPONSE_STATUSES: seq<string> :=
    [ACTIVE, INACTIVE, DUPLICATED, INVALID_STATUS, CONFLICT, ILLEGAL_OPERATION, NOT_IN_PROGRAM, INTERNAL_ERROR]

  /** The tuple ERROR_STATUSES; the source only ever tests membership in it. */
  const ERROR_STATUSES: seq<string> :=
    [DUPLICATED, INVALID_STATUS, CONFLICT, ILLEGAL_OPERATION, NOT_IN_PROGRAM, INTERNAL_ERROR]

  /** `v in ResponseStatuses.ERROR_STATUSES` */
  predicate IsErrorStatus(s: string) {
    s in ERROR_STATUSES
  }

  /** ERROR_STATUSES holds exactly the six failure codes. */
  lemma ErrorStatusesExactly(s: string)
    ensures IsErrorStatus(s) <==>
      s == DUPLICATED || s == INVALID_STATUS || s == CONFLICT ||
      s == ILLEGAL_OPERATION || s == NOT_IN_PROGRAM || s == INTERNAL_ERROR
  {
  }

  /** `active` and `inactive` are not failures: an `inactive` outcome counts as a success. */
  lemma ActiveAndInactiveAreSuccesses()
    ensures !IsErrorStatus(ACTIVE) && !IsErrorStatus(INACTIVE)
  {
  }

  /** The eight string values are pairwise distinct, so membership classifies them unambiguously. */
  lemma ResponseStatusesDistinct()
    ensures |RESPONSE_STATUSES| == 8
    ensures forall i, j :: 0 <= i < j < |RESPONSE_STATUSES| ==> RESPONSE_STATUSES[i] != RESPONSE_STATUSES[j]
  {
  }
}
