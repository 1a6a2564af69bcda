/** Keystrokes as the two controllers see them: a typed character or one of the
    special keys they react to; every other key type is OtherKey. A missing
    keystroke (null in the source) is None at the call sites. */
module Keys {

  datatype Key = Character(c: char) | ArrowLeft | ArrowRight | ArrowUp | ArrowDown | Enter | Escape | OtherKey

  /** Character.toLowerCase for every character whose lower case is an ASCII letter:
      A to Z, the capital I with dot above (to i) and the Kelvin sign (to k); every
      other character is kept. */
  function ToLower(c: char): (r: char)
    ensures 'A' <= c <= 'Z' ==> 'a' <= r <= 'z' && r as int - c as int == 32
    ensures c == '\U{0130}' ==> r == 'i'
    ensures c == '\U{212A}' ==> r == 'k'
    ensures !('A' <= c <= 'Z') && c != '\U{0130}' && c != '\U{212A}' ==> r == c
  {
    if 'A' <= c <= 'Z' then (c as int + 32) as char
    else if c == '\U{0130}' then 'i'
    else if c == '\U{212A}' then 'k'
    else c
  }

  /** The lower case is an ASCII letter exactly for the ASCII letters and the two
      other characters that fold onto one. */
  lemma LowerIsAsciiLetter(c: char)
    ensures 'a' <= ToLower(c) <= 'z' <==>
      'a' <= c <= 'z' || 'A' <= c <= 'Z' || c == '\U{0130}' || c == '\U{212A}'
  {
  }

  /** A character key whose lower-case form is `lower`. */
  predicate IsLetter(k: Key, lower: char)
  {
    k.Character? && ToLower(k.c) == lower
  }

  lemma BothCasesMatch(lower: char)
    requires 'a' <= lower <= 'z'
    ensures IsLetter(Character(lower), lower)
    ensures IsLetter(Character((lower as int - 32) as char), lower)
  {
  }
}
