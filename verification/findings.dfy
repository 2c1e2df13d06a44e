/** The findings a file analysis reports, without their message texts. */
module Findings {
  import opened Basics

  datatype Severity = Info | Warning | Blocker

  datatype Code =
    | DECODE_ERROR
    | INVALID_SPAN_ASCII_UNSUPPORTED
    | RECOVERY_BOUND_EXCEEDED
    | BINARY_OR_NUL_BYTE
    | TRIGRAPH_BACKSLASH_UNSUPPORTED
    | TRIGRAPH_DIRECTIVE_UNSUPPORTED
    | TRIGRAPH_SEQUENCE_REVIEW
    | BACKSLASH_HSPACE_NEWLINE_UNSUPPORTED
    | RAW_STRING_UNSUPPORTED
    | STRAY_BACKSLASH
    | UNTERMINATED_HEADER_NAME
    | UNSUPPORTED_INCLUDE_FORM
    | UNTERMINATED_BLOCK_COMMENT
    | UNTERMINATED_STRING
    | UNTERMINATED_CHAR
    | MALFORMED_CHAR_LITERAL
    | NON_COMMENT_NON_ASCII
    | DBCS_TRAIL_BACKSLASH_UNSUPPORTED
    | PRIVATE_USE_CODE_POINT
    | C1_CONTROL_CODE_POINT
    | REPLACEMENT_CODE_POINT
    | NONCHARACTER_CODE_POINT
    | UNASSIGNED_CODE_POINT
    | MIXED_SINGLE_BYTE_ARTIFACT
    | REPLACEMENT_BOUND_EXCEEDED
    | REPLACEMENT_APPLIED
    | FINDINGS_TRUNCATED
    | REPLACEMENT_TRIGRAPH_HAZARD
    | OUTPUT_BOUND_EXCEEDED
    | OUTPUT_NOT_UTF8
    | OUTPUT_NOT_STABLE
    | OUTSIDE_COMMENT_DRIFT
    | OUTPUT_NOT_IDEMPOTENT

  /** `offset` is the byte offset, absent for findings about the whole file. */
  datatype Finding = Finding(code: Code, severity: Severity, offset: Option<nat>)

  predicate HasBlocker(fs: seq<Finding>) {
    exists i :: 0 <= i < |fs| && fs[i].severity == Blocker
  }
}
