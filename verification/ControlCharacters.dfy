/** The control characters both engines know, and the parameter bytes of a control sequence. */
module ControlCharacters {
  import opened Decimal

  const ESC: char := '\U{1b}'
  const BEL: char := '\U{07}'
  const BS: char := '\U{08}'
  const TAB: char := '\U{09}'
  const LF: char := '\U{0a}'
  const CR: char := '\U{0d}'
  const SO: char := '\U{0e}'
  const SI: char := '\U{0f}'
  const NUL: char := '\U{00}'

  predicate IsParam(c: char) { IsDigit(c) || c == ';' }

  predicate IsParams(s: string) { forall i :: 0 <= i < |s| ==> IsParam(s[i]) }
}
