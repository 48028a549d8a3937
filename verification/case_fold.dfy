/**
  Character case folding as used by the book search.

  The search compares characters by the rule of Kotlin's `Char.equals(other, ignoreCase = true)`,
  which the JVM's `String.regionMatches(true, ...)` applies as well:
  two characters are equal when they are identical, when their upper-case forms are
  identical, or when the lower-case forms of their upper-case forms are identical.
  This model restricts the case mapping to ASCII letters: `ToUpper` and `ToLower`
  change 'a'..'z' and 'A'..'Z' and leave every other character alone.
 */
module CaseFold {

  predicate IsAsciiUpper(c: char) {
    'A' <= c <= 'Z'
  }

  predicate IsAsciiLower(c: char) {
    'a' <= c <= 'z'
  }

  /** Upper-case form of `c`; only ASCII lower-case letters change. */
  function ToUpper(c: char): (u: char)
    ensures IsAsciiLower(c) ==> IsAsciiUpper(u) && u as int == c as int - 32
    ensures !IsAsciiLower(c) ==> u == c
    ensures !IsAsciiLower(u)
  {
    if IsAsciiLower(c) then (c as int - 32) as char else c
  }

  /** Lower-case form of `c`; only ASCII upper-case letters change. */
  function ToLower(c: char): (l: char)
    ensures IsAsciiUpper(c) ==> IsAsciiLower(l) && l as int == c as int + 32
    ensures !IsAsciiUpper(c) ==> l == c
    ensures !IsAsciiUpper(l)
  {
    if IsAsciiUpper(c) then (c as int + 32) as char else c
  }

  /**
    Kotlin's case-insensitive character comparison, step by step.
    It holds exactly when both characters have the same lower-case form,
    so it is an equivalence relation.
   */
  predicate EqualsIgnoreCase(a: char, b: char)
    ensures EqualsIgnoreCase(a, b) <==> ToLower(a) == ToLower(b)
  {
    if a == b then true
    else
      var aUpper := ToUpper(a);
      var bUpper := ToUpper(b);
      aUpper == bUpper || ToLower(aUpper) == ToLower(bUpper)
  }

  /** The lower-case form of every character of `s`, in order. */
  function Fold(s: string): string {
    seq(|s|, i requires 0 <= i < |s| => ToLower(s[i]))
  }
}
