/**
 * `parse_unicode_hex` in build_tcvn3_map.py: reading a code point written as
 * `U+00C0` or `00C0` and returning the character, or nothing when the text is
 * not such a code point.
 */
module HexCodePoint {
  import opened Wrappers
  import opened PyStr

  /** The code points a `char` can hold: every Unicode scalar value. */
  predicate IsScalarValue(n: int) { 0 <= n < 0xD800 || 0xE000 <= n <= 0x10FFFF }

  /** What reaches `int(_, 16)`: stripped, upper-cased, then every "U+" and every "U" removed. */
  function HexBody(db: CharDb, s: string): string {
    RemoveAll(RemoveAll(Upper(db, Strip(s)), "U+"), "U")
  }

  /**
   * `parse_unicode_hex`: the character whose code point the text spells in
   * hexadecimal, `None` where `int()` or `chr()` raises.
   */
  function ParseUnicodeHex(db: CharDb, s: string): Option<char> {
    match ParseInt(HexBody(db, s), 16)
    case None => None
    case Some(n) => if IsScalarValue(n) then Some(n as char) else None
  }

  /** A hexadecimal digit in either case. */
  predicate IsHexDigit(c: char) { IsAsciiDigit(c) || 'a' <= c <= 'f' || 'A' <= c <= 'F' }

  /** A non-empty string of hexadecimal digits and nothing else. */
  predicate IsHexText(h: string) {
    |h| > 0 && forall i :: 0 <= i < |h| ==> IsHexDigit(h[i])
  }

  /** Strings whose digits agree one by one have the same value. */
  lemma {:induction false} ValueOfPointwise(a: string, b: string, base: nat)
    requires |a| == |b|
    requires forall i :: 0 <= i < |a| ==> IsDigitOf(a[i], base) && DigitValue(a[i]) == DigitValue(b[i])
    ensures ValueOf(a, base) == ValueOf(b, base)
    decreases |a|
  {
    if |a| > 0 {
      ValueOfPointwise(a[..|a| - 1], b[..|b| - 1], base);
    }
  }

  /** Upper-casing hexadecimal digits keeps their values and leaves digits and A-F. */
  lemma HexUpper(db: CharDb, h: string)
    requires IsHexText(h)
    ensures var u := Upper(db, h);
      && |u| == |h|
      && (forall i :: 0 <= i < |u| ==> IsAsciiDigit(u[i]) || 'A' <= u[i] <= 'F')
      && (forall i :: 0 <= i < |u| ==> DigitValue(u[i]) == DigitValue(h[i]))
  {
    UpperAscii(db, h);
  }

  /** Text of digits and A-F has no "U" to remove. */
  lemma NoUToRemove(u: string)
    requires forall i :: 0 <= i < |u| ==> IsAsciiDigit(u[i]) || 'A' <= u[i] <= 'F'
    ensures RemoveAll(RemoveAll(u, "U+"), "U") == u
  {
    NotContainsFirst(u, "U+");
    RemoveAllAbsent(u, "U+");
    NotContainsFirst(u, "U");
    RemoveAllAbsent(u, "U");
  }

  /** The digits of a hexadecimal string, upper-cased, reach `int()` untouched. */
  lemma HexDigitsBody(db: CharDb, h: string)
    requires IsHexText(h)
    ensures var u := Upper(db, h);
      && RemoveAll(RemoveAll(u, "U+"), "U") == u
      && ParseInt(u, 16) == Some(ValueOf(h, 16) as int)
  {
    HexUpper(db, h);
    var u := Upper(db, h);
    NoUToRemove(u);
    assert forall i :: 0 <= i < |u| ==> IsDigitOf(u[i], 16);
    ParseIntDigits(u, 16);
    ValueOfPointwise(u, h, 16);
  }

  lemma HexBodyBare(db: CharDb, h: string)
    requires IsHexText(h)
    ensures HexBody(db, h) == Upper(db, h)
  {
    assert Strip(h) == h by {
      assert IsHexDigit(h[0]) && IsHexDigit(h[|h| - 1]);
      StripNoop(h);
    }
    HexDigitsBody(db, h);
  }

  lemma UpperPrefix(db: CharDb, h: string)
    ensures Upper(db, "U+" + h) == "U+" + Upper(db, h)
  {
    UpperConcat(db, "U+", h);
    UpperAscii(db, "U+");
    assert Upper(db, "U+") == "U+";
  }

  lemma HexBodyPrefixed(db: CharDb, h: string)
    requires IsHexText(h)
    ensures HexBody(db, "U+" + h) == Upper(db, h)
  {
    HexDigitsBody(db, h);
    var p := "U+" + h;
    assert p[|p| - 1] == h[|h| - 1];
    StripNoop(p);
    UpperPrefix(db, h);
    RemoveAllPrefix("U+", Upper(db, h));
  }

  /**
   * `U+XXXX` and bare `XXXX` read alike: the character with that code point,
   * or `None` beyond U+10FFFF (and, in this model, for surrogates).
   */
  lemma ParseHexText(db: CharDb, h: string)
    requires IsHexText(h)
    ensures var v := ValueOf(h, 16);
      && ParseUnicodeHex(db, h) == (if IsScalarValue(v) then Some(v as char) else None)
      && ParseUnicodeHex(db, "U+" + h) == ParseUnicodeHex(db, h)
  {
    HexDigitsBody(db, h);
    HexBodyBare(db, h);
    HexBodyPrefixed(db, h);
  }

  /** `s` padded with leading zeros to at least `w` characters, as `:04X` does. */
  function ZeroPad(s: string, w: nat): (r: string)
    ensures |r| >= w && |r| >= |s|
    ensures r[|r| - |s|..] == s
    ensures forall i :: 0 <= i < |r| - |s| ==> r[i] == '0'
    decreases w - |s|
  {
    if |s| >= w then s else ZeroPad("0" + s, w)
  }

  /** The `U+XXXX` notation of a character, at least four upper-case hex digits. */
  function Notation(c: char): (r: string)
    ensures |r| >= 6 && r[..2] == "U+"
  {
    "U+" + ZeroPad(Digits(c as int, 16), 4)
  }

  lemma {:induction false} ValueOfZeroPad(s: string, w: nat)
    requires forall i :: 0 <= i < |s| ==> IsDigitOf(s[i], 16)
    ensures forall i :: 0 <= i < |ZeroPad(s, w)| ==> IsDigitOf(ZeroPad(s, w)[i], 16)
    ensures ValueOf(ZeroPad(s, w), 16) == ValueOf(s, 16)
    decreases w - |s|
  {
    if |s| < w {
      ValueOfLeadingZero(s, 16);
      ValueOfZeroPad("0" + s, w);
    }
  }

  lemma ZeroPadHex(ds: string, w: nat)
    requires IsHexText(ds)
    ensures IsHexText(ZeroPad(ds, w))
  {
    var h := ZeroPad(ds, w);
    forall i | 0 <= i < |h|
      ensures IsHexDigit(h[i])
    {
      if i >= |h| - |ds| {
        assert h[i] == h[|h| - |ds|..][i - (|h| - |ds|)];
      }
    }
  }

  /** Reading back the notation of a character gives the character. */
  lemma NotationRoundTrip(db: CharDb, c: char)
    ensures ParseUnicodeHex(db, Notation(c)) == Some(c)
  {
    var ds := Digits(c as int, 16);
    var h := ZeroPad(ds, 4);
    ZeroPadHex(ds, 4);
    ValueOfZeroPad(ds, 4);
    ValueOfDigits(c as int, 16);
    assert ValueOf(h, 16) == c as int;
    assert IsScalarValue(c as int);
    ParseHexText(db, h);
    assert Notation(c) == "U+" + h;
  }

  /**
   * An ASCII text with a character that is neither whitespace, a hex digit, a
   * lower-case letter, nor one of the characters `int()` or the "U" removal
   * tolerate (`U + - _ X`) is rejected.
   */
  lemma RejectsNonHex(db: CharDb, s: string, k: nat)
    requires forall i :: 0 <= i < |s| ==> IsAscii(s[i])
    requires k < |s|
    requires !IsSpace(s[k]) && !IsHexDigit(s[k]) && !('a' <= s[k] <= 'z')
    requires s[k] !in "U+-_X"
    ensures ParseUnicodeHex(db, s) == None
  {
    var c := s[k];
    var t := Strip(s);
    StripKeeps(s, k);
    var j :| 0 <= j < |t| && t[j] == c;
    UpperAscii(db, t);
    var u := Upper(db, t);
    assert u[j] == c;
    RemoveAllKeeps(u, "U+", j);
    var v := RemoveAll(u, "U+");
    var j2 :| 0 <= j2 < |v| && v[j2] == c;
    RemoveAllKeeps(v, "U", j2);
    var w := RemoveAll(v, "U");
    var j3 :| 0 <= j3 < |w| && w[j3] == c;
    ParseIntAlphabet(w, 16, j3);
  }
}
