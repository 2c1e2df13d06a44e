/** Shared value types: optional results, bytes and text predicates. */
module Basics {
  datatype Option<+T> = None | Some(value: T)

  type Byte = b: int | 0 <= b < 256

  /** `ord(c) > 127`: the only test the recoder makes on non-ASCII text. */
  predicate NonAscii(c: char) {
    c as int > 127
  }

  predicate IsNewline(c: char) {
    c == '\r' || c == '\n'
  }

  /** Horizontal white space: space, tab, vertical tab, form feed. */
  predicate IsHSpace(c: char) {
    c == ' ' || c == '\t' || c == '\U{0B}' || c == '\U{0C}'
  }

  predicate IsLetter(c: char) {
    'a' <= c <= 'z' || 'A' <= c <= 'Z'
  }

  predicate IsIdentStart(c: char) {
    IsLetter(c) || c == '_'
  }

  predicate IsIdent(c: char) {
    IsIdentStart(c) || '0' <= c <= '9'
  }

  function Sum(ns: seq<nat>): nat {
    if ns == [] then 0 else ns[0] + Sum(ns[1..])
  }
}
