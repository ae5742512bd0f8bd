/**
 * The fixed character sets both tools consult: the characters that commonly
 * appear in TCVN3 (.VnTime) text, the code point range taken for a single
 * accented Latin letter, and the whitelist of characters normal in Unicode
 * Vietnamese text.
 *
 * The non-ASCII sets are written as unions of code point ranges; each range
 * list denotes exactly the characters the source lists.
 */
module Charsets {
  import opened PyStr

  /**
   * `TCVN3_HINTS`: the 73 characters that commonly occur in TCVN3 text
   * ("µ¸¶·¹¨»¾¼½Æ©..."), all in U+00A1..U+00FE.
   */
  predicate IsTcvn3Hint(c: char) {
    var n := c as int;
    || 0xA1 <= n <= 0xAC || n == 0xAE || 0xB5 <= n <= 0xB9 || 0xBB <= n <= 0xBE
    || 0xC6 <= n <= 0xCC || 0xCE <= n <= 0xD8 || 0xDC <= n <= 0xDF || 0xE1 <= n <= 0xEF
    || 0xF1 <= n <= 0xFE
  }

  /**
   * One accented Latin character, U+00C0..U+1EF9: the range of `RE_UNI_CHAR`,
   * which the double-encoding repair also counts.
   */
  predicate IsVietnameseRange(c: char) { 0xC0 <= c as int <= 0x1EF9 }

  /**
   * The 134 precomposed Vietnamese letters of `_VIET_UNI_OK`, upper and lower
   * case ("àáạảã...ỹđ", "ÀÁẠẢÃ...ỸĐ"): those of Latin-1, the pairs Ăă Đđ Ĩĩ Ũũ
   * Ơơ Ưư, and the whole Latin Extended Additional block used for Vietnamese.
   */
  predicate IsVietLetter(c: char) {
    var n := c as int;
    var m := if 0xE0 <= n <= 0xFF then n - 0x20 else n;
    || (0xC0 <= n <= 0xFF && (0xC0 <= m <= 0xC3 || 0xC8 <= m <= 0xCA || 0xCC <= m <= 0xCD
                              || 0xD2 <= m <= 0xD5 || 0xD9 <= m <= 0xDA || m == 0xDD))
    || n == 0x102 || n == 0x103 || n == 0x110 || n == 0x111 || n == 0x128 || n == 0x129
    || n == 0x168 || n == 0x169 || n == 0x1A0 || n == 0x1A1 || n == 0x1AF || n == 0x1B0
    || 0x1EA0 <= n <= 0x1EF9
  }

  /**
   * The ASCII digits, whitespace and punctuation of `_VIET_UNI_OK`. The quotes
   * meant as typographic are plain `"` and `'` in the set as written, because
   * the literal there closes and reopens on them.
   */
  predicate IsVietAsciiOther(c: char) {
    || c == ' ' || c == '.' || c == ',' || c == ';' || c == ':' || c == '!' || c == '?'
    || c == '"' || c == '\'' || c == '(' || c == ')' || c == '[' || c == ']' || c == '{'
    || c == '}' || c == '-' || c == '_' || c == '/' || c == '\\' || c == '|' || c == '@'
    || c == '#' || c == '%' || c == '&' || c == '*' || c == '+' || c == '=' || c == '\n'
    || c == '\t' || c == '$'
  }

  /** The non-ASCII signs of `_VIET_UNI_OK`: … € ¥ £ ₫ ‰ ° ± × ÷. */
  predicate IsVietSign(c: char) {
    var n := c as int;
    || n == 0x2026 || n == 0x20AC || n == 0xA5 || n == 0xA3 || n == 0x20AB
    || n == 0x2030 || n == 0xB0 || n == 0xB1 || n == 0xD7 || n == 0xF7
  }

  /** Membership of `_VIET_UNI_OK`. */
  predicate InVietUniOk(c: char) {
    IsAsciiLetter(c) || IsAsciiDigit(c) || IsVietAsciiOther(c) || IsVietLetter(c) || IsVietSign(c)
  }

  /** Every whitelisted character is ASCII, an accented letter in U+00C0..U+1EF9, or one of the ten signs. */
  lemma VietUniOkShape(c: char)
    requires InVietUniOk(c)
    ensures IsAscii(c) || IsVietnameseRange(c) || IsVietSign(c)
  {
  }
}
