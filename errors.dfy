/**
 * The error codes of the grammar front end. `prs_ErrCode` is a C enum whose
 * enumerators are numbered from 0 in declaration order; functions that mix
 * counts and codes in one `int` are modelled on `Value()`.
 */
module Errors {
  datatype ErrCode =
    | Ok
    | InvalidCharRange
    | InvalidRange
    | InvalidRangePattern
    | TokenInvalid
    | TokenMissingEnd
    | TokenMissingValue
    | TokenInvalidValue
    | TokenUnknownValueType
    | TokenSelfRef
    | TokenExists
    | RuleEmpty
    | RuleInvalid
    | RuleMissingEnd
    | RuleMissingValue
    | RuleExists
    | UnknownToken
    | UnknownRule
    | UnknownItem
    | PrEmpty
    | PrItemUnknownType
    | StringBlockMissingEnd
    | StringBlockEmpty
  {
    /** The enumerator's value in the C enum. */
    function Value(): int {
      match this
      case Ok => 0
      case InvalidCharRange => 1
      case InvalidRange => 2
      case InvalidRangePattern => 3
      case TokenInvalid => 4
      case TokenMissingEnd => 5
      case TokenMissingValue => 6
      case TokenInvalidValue => 7
      case TokenUnknownValueType => 8
      case TokenSelfRef => 9
      case TokenExists => 10
      case RuleEmpty => 11
      case RuleInvalid => 12
      case RuleMissingEnd => 13
      case RuleMissingValue => 14
      case RuleExists => 15
      case UnknownToken => 16
      case UnknownRule => 17
      case UnknownItem => 18
      case PrEmpty => 19
      case PrItemUnknownType => 20
      case StringBlockMissingEnd => 21
      case StringBlockEmpty => 22
    }
  }

  /** `PRS_MAX_CODE_NUMBER`: one past the largest error code. */
  const MAX_CODE_NUMBER: int := 23

  /** Distinct enumerators have distinct values, all in [0, PRS_MAX_CODE_NUMBER). */
  lemma ValueInjective(a: ErrCode, b: ErrCode)
    ensures 0 <= a.Value() < MAX_CODE_NUMBER
    ensures a.Value() == b.Value() <==> a == b
  {
  }
}
