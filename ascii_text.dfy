/**
 * Upper-casing as `String.prototype.toUpperCase` does it on ASCII text:
 * 'a'..'z' become 'A'..'Z' and every other character is kept.
 */
module AsciiText {

  predicate IsLower(ch: char) {
    'a' <= ch <= 'z'
  }

  function UpperChar(ch: char): (u: char)
    ensures !IsLower(u)
    ensures IsLower(ch) ==> u as int == ch as int - 32 && 'A' <= u <= 'Z'
    ensures !IsLower(ch) ==> u == ch
  {
    if IsLower(ch) then (ch as int - 32) as char else ch
  }

  /** True when the text has no lower-case ASCII letter. */
  predicate IsUpper(s: string) {
    forall i :: 0 <= i < |s| ==> !IsLower(s[i])
  }

  function ToUpper(s: string): (r: string)
    ensures |r| == |s| && IsUpper(r)
    ensures forall i :: 0 <= i < |s| ==> r[i] == UpperChar(s[i])
  {
    seq(|s|, i requires 0 <= i < |s| => UpperChar(s[i]))
  }

  /** Text that is already upper case is left alone; in particular upper-casing twice is upper-casing once. */
  lemma ToUpperKeepsUpper(s: string)
    requires IsUpper(s)
    ensures ToUpper(s) == s
  {
  }

  lemma ToUpperIdempotent(s: string)
    ensures ToUpper(ToUpper(s)) == ToUpper(s)
  {
    ToUpperKeepsUpper(ToUpper(s));
  }
}
