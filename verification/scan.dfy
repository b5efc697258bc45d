/** Building blocks for the hand-written regular-expression matchers: the
    `\b` word-boundary assertion and greedy runs of one character class.
    Word characters are the ASCII ones, `[A-Za-z0-9_]`. */
module Scan {
  import opened Strings

  predicate WordAt(t: string, k: int) { 0 <= k < |t| && IsWordChar(t[k]) }

  /** The regex assertion `\b` at position `k`. */
  predicate Boundary(t: string, k: int) { WordAt(t, k - 1) != WordAt(t, k) }

  /** The character classes the matchers use. */
  datatype CharClass =
    | Space        // `\s`
    | NotNewline   // `.`
    | Letter       // `[A-Za-z]`
    | Digit        // `\d`
    | PhraseChar   // `[a-z0-9 \-/&]`
    | DeptChar     // `[A-Z&]`

  predicate InClass(c: char, cls: CharClass) {
    match cls
    case Space => IsSpace(c)
    case NotNewline => c != '\n'
    case Letter => IsAsciiLetter(c)
    case Digit => IsDigit(c)
    case PhraseChar => IsAsciiLower(c) || IsDigit(c) || c == ' ' || c == '-' || c == '/' || c == '&'
    case DeptChar => IsAsciiUpper(c) || c == '&'
  }

  /** A regex match: its capture group and the position where it ends. */
  datatype Hit = Hit(group: string, end: nat)

  /** Length of the longest run of `cls` characters starting at `i`: what a
      greedy `cls*` consumes there. */
  function Run(t: string, i: nat, cls: CharClass): (n: nat)
    requires i <= |t|
    ensures i + n <= |t|
    ensures forall k | i <= k < i + n :: InClass(t[k], cls)
    ensures i + n < |t| ==> !InClass(t[i + n], cls)
    decreases |t| - i
  {
    if i < |t| && InClass(t[i], cls) then 1 + Run(t, i + 1, cls) else 0
  }
}
