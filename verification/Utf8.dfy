/** UTF-8 as Go decodes it: byte strings, one `char` for one byte. */
module Utf8 {

  predicate Within(c: char, lo: int, hi: int) {
    lo <= c as int <= hi
  }

  predicate Continuation(c: char) {
    Within(c, 0x80, 0xBF)
  }

  /** The second byte a three- or four-byte sequence may have, by its first byte. */
  predicate Second(first: char, c: char) {
    match first as int
    case 0xE0 => Within(c, 0xA0, 0xBF)
    case 0xED => Within(c, 0x80, 0x9F)
    case 0xF0 => Within(c, 0x90, 0xBF)
    case 0xF4 => Within(c, 0x80, 0x8F)
    case _ => Continuation(c)
  }

  /** Bytes of the encoded rune `s` starts with; 0 when `s` is empty or malformed there. */
  function RuneWidth(s: string): (n: nat)
    ensures n <= |s| && n <= 4
  {
    if s == "" then 0
    else if Within(s[0], 0, 0x7F) then 1
    else if Within(s[0], 0xC2, 0xDF) && |s| >= 2 && Continuation(s[1]) then 2
    else if Within(s[0], 0xE0, 0xEF) && |s| >= 3 && Second(s[0], s[1]) && Continuation(s[2]) then 3
    else if Within(s[0], 0xF0, 0xF4) && |s| >= 4 && Second(s[0], s[1]) && Continuation(s[2]) && Continuation(s[3]) then 4
    else 0
  }

  /** utf8.ValidString. */
  predicate ValidString(s: string) {
    s == "" || (RuneWidth(s) > 0 && ValidString(s[RuneWidth(s)..]))
  }

  /** unicode.IsControl of the first rune: U+0000-001F and U+007F-009F. */
  predicate StartsWithControl(s: string) {
    s != "" && (Within(s[0], 0, 0x1F) || s[0] as int == 0x7F || (RuneWidth(s) == 2 && s[0] as int == 0xC2 && Within(s[1], 0x80, 0x9F)))
  }

  /** strings.ContainsFunc(s, unicode.IsControl): runes are walked, a malformed byte counting
      as one rune that is no control. */
  predicate ContainsControl(s: string) {
    s != "" && (StartsWithControl(s) || ContainsControl(s[if RuneWidth(s) == 0 then 1 else RuneWidth(s)..]))
  }

  predicate IsAscii(s: string) {
    forall i :: 0 <= i < |s| ==> Within(s[i], 0, 0x7F)
  }

  /** Printable ASCII is valid and free of controls. */
  lemma {:induction false} PlainAscii(s: string)
    requires forall i :: 0 <= i < |s| ==> Within(s[i], 0x20, 0x7E)
    ensures ValidString(s) && !ContainsControl(s)
  {
    if s != "" {
      PlainAscii(s[1..]);
    }
  }
}
