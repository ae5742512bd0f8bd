/**
 * The Python `str` primitives the converter is built on: whitespace,
 * `strip()`, `upper()`, `in` on substrings, `replace(pat, "")`, integer
 * formatting and `int(s, base)`.
 *
 * ASCII behaviour is fixed here, as Python defines it. For every other
 * character the Unicode character database is a parameter, `CharDb`, so the
 * model does not transcribe Unicode tables; `Consistent` states the few facts
 * about that database which Python's own definitions guarantee.
 */
module PyStr {
  import opened Wrappers

  /** The first letter of a Unicode general category, `unicodedata.category(c)[0]`. */
  datatype MajorCategory = Letter | Mark | Number | Punctuation | Symbol | Separator | Other

  /** Python's view of the Unicode database for non-ASCII characters. */
  datatype CharDb = CharDb(
    category: char -> MajorCategory,
    isAlpha: char -> bool,
    isDigit: char -> bool,
    isAlnum: char -> bool,
    upper: char -> string)

  predicate IsAscii(c: char) { c as int < 0x80 }
  predicate IsAsciiLetter(c: char) { 'a' <= c <= 'z' || 'A' <= c <= 'Z' }
  predicate IsAsciiDigit(c: char) { '0' <= c <= '9' }

  /** `c.isspace()`: the characters Python treats as whitespace. */
  predicate IsSpace(c: char) {
    || '\t' <= c <= '\r'
    || '\U{1C}' <= c <= ' '
    || c == '\U{85}' || c == '\U{A0}' || c == '\U{1680}'
    || '\U{2000}' <= c <= '\U{200A}'
    || c == '\U{2028}' || c == '\U{2029}' || c == '\U{202F}' || c == '\U{205F}' || c == '\U{3000}'
  }

  /** `unicodedata.category(c)[0]`. */
  function Category(db: CharDb, c: char): MajorCategory {
    if !IsAscii(c) then db.category(c)
    else if IsAsciiLetter(c) then Letter
    else if IsAsciiDigit(c) then Number
    else if c == ' ' then Separator
    else if c < ' ' || c == '\U{7F}' then Other
    else if c in "$+<=>^`|~" then Symbol
    else Punctuation
  }

  /** `c.isalpha()`. */
  predicate IsAlpha(db: CharDb, c: char) {
    if IsAscii(c) then IsAsciiLetter(c) else db.isAlpha(c)
  }

  /** `c.isdigit()`. */
  predicate IsDigit(db: CharDb, c: char) {
    if IsAscii(c) then IsAsciiDigit(c) else db.isDigit(c)
  }

  /** `c.isalnum()`. */
  predicate IsAlnum(db: CharDb, c: char) {
    if IsAscii(c) then IsAsciiLetter(c) || IsAsciiDigit(c) else db.isAlnum(c)
  }

  /**
   * What Python's definitions guarantee of the database: alphabetic means
   * category L, `isdigit` means category N, both imply `isalnum`, and every
   * whitespace character is a separator or a control character.
   */
  ghost predicate Consistent(db: CharDb) {
    && (forall c :: IsAlpha(db, c) ==> Category(db, c) == Letter)
    && (forall c :: IsDigit(db, c) ==> Category(db, c) == Number)
    && (forall c :: IsAlpha(db, c) ==> IsAlnum(db, c))
    && (forall c :: IsDigit(db, c) ==> IsAlnum(db, c))
    && (forall c :: IsSpace(c) ==> Category(db, c) == Separator || Category(db, c) == Other)
  }

  lemma SpaceIsNotAlpha(db: CharDb, c: char)
    requires Consistent(db)
    requires IsSpace(c)
    ensures !IsAlpha(db, c)
  {
  }

  /** The upper case of an ASCII character. */
  function AsciiUpper(c: char): char {
    if 'a' <= c <= 'z' then (c as int - 32) as char else c
  }

  /** `c.upper()`: full case mapping, which may yield several characters. */
  function UpperChar(db: CharDb, c: char): string {
    if IsAscii(c) then [AsciiUpper(c)] else db.upper(c)
  }

  /** `s.upper()`. */
  function Upper(db: CharDb, s: string): (r: string)
    ensures (forall i :: 0 <= i < |s| ==> IsAscii(s[i])) ==> |r| == |s|
  {
    if |s| == 0 then [] else UpperChar(db, s[0]) + Upper(db, s[1..])
  }

  lemma {:induction false} UpperConcat(db: CharDb, a: string, b: string)
    ensures Upper(db, a + b) == Upper(db, a) + Upper(db, b)
    decreases |a|
  {
    if |a| == 0 {
      assert a + b == b;
    } else {
      assert (a + b)[1..] == a[1..] + b;
      UpperConcat(db, a[1..], b);
    }
  }

  /** On ASCII text `upper()` works character by character. */
  lemma {:induction false} UpperAscii(db: CharDb, s: string)
    requires forall i :: 0 <= i < |s| ==> IsAscii(s[i])
    ensures |Upper(db, s)| == |s|
    ensures forall i :: 0 <= i < |s| ==> Upper(db, s)[i] == AsciiUpper(s[i])
    decreases |s|
  {
    if |s| > 0 {
      UpperAscii(db, s[1..]);
    }
  }

  /** ASCII text without lower-case letters is its own upper case. */
  lemma UpperNoLower(db: CharDb, s: string)
    requires forall i :: 0 <= i < |s| ==> IsAscii(s[i]) && !('a' <= s[i] <= 'z')
    ensures Upper(db, s) == s
  {
    UpperAscii(db, s);
  }

  /** Where `lstrip()` stops scanning from `i`: the first non-whitespace position at or after `i`. */
  function LeftEdge(s: string, i: nat): (k: nat)
    requires i <= |s|
    ensures i <= k <= |s|
    ensures forall j :: i <= j < k ==> IsSpace(s[j])
    ensures k < |s| ==> !IsSpace(s[k])
    decreases |s| - i
  {
    if i < |s| && IsSpace(s[i]) then LeftEdge(s, i + 1) else i
  }

  /** Where `rstrip()` stops scanning back from `hi`, never passing `lo`. */
  function RightEdge(s: string, lo: nat, hi: nat): (k: nat)
    requires lo <= hi <= |s|
    ensures lo <= k <= hi
    ensures forall j :: k <= j < hi ==> IsSpace(s[j])
    ensures k > lo ==> !IsSpace(s[k - 1])
    decreases hi - lo
  {
    if hi > lo && IsSpace(s[hi - 1]) then RightEdge(s, lo, hi - 1) else hi
  }

  /** Where `strip()` starts: the number of leading whitespace characters. */
  function StripStart(s: string): (i: nat)
    ensures i <= |s|
  {
    LeftEdge(s, 0)
  }

  /** Where `strip()` ends. */
  function StripEnd(s: string): (e: nat)
    ensures StripStart(s) <= e <= |s|
  {
    RightEdge(s, StripStart(s), |s|)
  }

  /** `s.strip()`: the infix left after removing whitespace at both ends. */
  function Strip(s: string): (r: string)
    ensures |r| <= |s|
    ensures r != [] ==> !IsSpace(r[0]) && !IsSpace(r[|r| - 1])
  {
    var i, e := StripStart(s), StripEnd(s);
    assert i < e ==> !IsSpace(s[i]) && !IsSpace(s[e - 1]);
    s[i..e]
  }

  /** `strip()` keeps a contiguous run of the text. */
  lemma StripSlice(s: string)
    ensures StripStart(s) + |Strip(s)| <= |s|
    ensures Strip(s) == s[StripStart(s)..StripStart(s) + |Strip(s)|]
  {
  }

  /** Only all-whitespace text strips to nothing. */
  lemma StripBlank(s: string)
    ensures Strip(s) == [] <==> forall k :: 0 <= k < |s| ==> IsSpace(s[k])
  {
  }

  /** What `strip()` removes is whitespace, at both ends. */
  lemma StripRemovesSpace(s: string)
    ensures forall k :: 0 <= k < StripStart(s) ==> IsSpace(s[k])
    ensures forall k :: StripStart(s) + |Strip(s)| <= k < |s| ==> IsSpace(s[k])
  {
    assert StripStart(s) + |Strip(s)| == StripEnd(s);
  }

  /** Text with no whitespace at either end is its own `strip()`. */
  lemma StripNoop(s: string)
    requires s != [] ==> !IsSpace(s[0]) && !IsSpace(s[|s| - 1])
    ensures Strip(s) == s
  {
  }

  /** A character that is not whitespace survives `strip()`. */
  lemma StripKeeps(s: string, k: nat)
    requires k < |s| && !IsSpace(s[k])
    ensures s[k] in Strip(s)
  {
    StripRemovesSpace(s);
    var i := StripStart(s);
    assert i <= k < i + |Strip(s)|;
    assert Strip(s)[k - i] == s[k];
  }

  /** `not s.strip()`. */
  predicate IsBlank(s: string) { Strip(s) == [] }

  /** `pat` occurs in `s` starting at index `i`. */
  predicate OccursAt(s: string, pat: string, i: nat) {
    i + |pat| <= |s| && s[i..i + |pat|] == pat
  }

  /** `pat in s`. */
  predicate Contains(s: string, pat: string) {
    exists i: nat :: i <= |s| && OccursAt(s, pat, i)
  }

  /** `s.startswith(p)`. */
  predicate StartsWith(s: string, p: string) {
    |p| <= |s| && s[..|p|] == p
  }

  lemma ContainsTail(s: string, pat: string)
    requires |s| > 0
    requires Contains(s[1..], pat)
    ensures Contains(s, pat)
  {
    var i: nat :| i <= |s[1..]| && OccursAt(s[1..], pat, i);
    assert s[i + 1..i + 1 + |pat|] == s[1..][i..i + |pat|];
    assert OccursAt(s, pat, i + 1);
  }

  /** `s.replace(pat, "")`: occurrences are removed left to right without overlap. */
  function RemoveAll(s: string, pat: string): (r: string)
    requires |pat| > 0
    ensures |r| <= |s|
    decreases |s|
  {
    if |s| == 0 then []
    else if StartsWith(s, pat) then RemoveAll(s[|pat|..], pat)
    else [s[0]] + RemoveAll(s[1..], pat)
  }

  /** A pattern whose first character never occurs is not contained. */
  lemma NotContainsFirst(s: string, pat: string)
    requires |pat| > 0
    requires forall i :: 0 <= i < |s| ==> s[i] != pat[0]
    ensures !Contains(s, pat)
  {
    forall i: nat | i <= |s|
      ensures !OccursAt(s, pat, i)
    {
      if i + |pat| <= |s| {
        assert s[i..i + |pat|][0] == s[i];
      }
    }
  }

  /** A character that does not occur in the pattern survives `replace(pat, "")`. */
  lemma {:induction false} RemoveAllKeeps(s: string, pat: string, k: nat)
    requires |pat| > 0
    requires k < |s| && s[k] !in pat
    ensures s[k] in RemoveAll(s, pat)
    decreases |s|
  {
    if StartsWith(s, pat) {
      RemoveAllKeeps(s[|pat|..], pat, k - |pat|);
    } else if k > 0 {
      RemoveAllKeeps(s[1..], pat, k - 1);
    }
  }

  /** Text that does not contain the pattern is left as it is. */
  lemma {:induction false} RemoveAllAbsent(s: string, pat: string)
    requires |pat| > 0
    requires !Contains(s, pat)
    ensures RemoveAll(s, pat) == s
    decreases |s|
  {
    if |s| > 0 {
      assert !StartsWith(s, pat) by {
        if StartsWith(s, pat) {
          assert OccursAt(s, pat, 0);
        }
      }
      if Contains(s[1..], pat) {
        ContainsTail(s, pat);
      }
      RemoveAllAbsent(s[1..], pat);
      assert [s[0]] + s[1..] == s;
    }
  }

  /** Text beginning with the pattern loses that occurrence. */
  lemma RemoveAllPrefix(p: string, s: string)
    requires |p| > 0
    ensures RemoveAll(p + s, p) == RemoveAll(s, p)
  {
    assert StartsWith(p + s, p);
    assert (p + s)[|p|..] == s;
  }

  /** The characters occurring in a text. */
  function CharsOf(s: string): set<char> {
    set c | c in s
  }

  /** Removing a one-character pattern removes exactly that character. */
  lemma {:induction false} RemoveCharChars(s: string, c: char)
    ensures CharsOf(RemoveAll(s, [c])) == CharsOf(s) - {c}
    decreases |s|
  {
    if |s| > 0 {
      RemoveCharChars(s[1..], c);
      assert forall x :: x in s <==> x == s[0] || x in s[1..];
      var r := RemoveAll(s, [c]);
      if s[0] != c {
        assert s[..1][0] == s[0];
        assert r == [s[0]] + RemoveAll(s[1..], [c]);
        assert forall x :: x in r <==> x == s[0] || x in RemoveAll(s[1..], [c]);
        assert CharsOf(r) == {s[0]} + CharsOf(RemoveAll(s[1..], [c]));
        assert CharsOf(s) == {s[0]} + CharsOf(s[1..]);
      } else {
        assert s[..1] == [c];
        assert r == RemoveAll(s[1..], [c]);
      }
    }
  }

  /** `s.isdigit()`: non-empty, every character a digit. */
  predicate IsDigits(db: CharDb, s: string) {
    |s| > 0 && forall i :: 0 <= i < |s| ==> IsDigit(db, s[i])
  }

  // ---------------------------------------------------------------------
  // Digits: `f"{n}"`, hexadecimal formatting and `int(s, base)`.
  // ---------------------------------------------------------------------

  /** The value of a digit character, as `int()` reads it (letters count from 10). */
  function DigitValue(c: char): nat {
    if '0' <= c <= '9' then c as nat - '0' as nat
    else if 'a' <= c <= 'z' then c as nat - 'a' as nat + 10
    else if 'A' <= c <= 'Z' then c as nat - 'A' as nat + 10
    else 36
  }

  predicate IsDigitOf(c: char, base: nat) { DigitValue(c) < base }

  /** The digit written for a value below sixteen (upper-case letters). */
  function DigitChar(d: nat): (c: char)
    requires d < 16
    ensures DigitValue(c) == d
    ensures IsAsciiDigit(c) || 'A' <= c <= 'F'
  {
    if d < 10 then ('0' as int + d) as char else ('A' as int + d - 10) as char
  }

  lemma DivShrinks(n: nat, base: nat)
    requires 2 <= base <= n
    ensures n / base < n && n % base < base
    ensures n == n / base * base + n % base
  {
  }

  /** `n` written in `base` without leading zeros. */
  function Digits(n: nat, base: nat): (r: string)
    requires 2 <= base <= 16
    ensures |r| > 0
    ensures forall i :: 0 <= i < |r| ==> IsDigitOf(r[i], base) && (IsAsciiDigit(r[i]) || 'A' <= r[i] <= 'F')
  {
    if n < base then [DigitChar(n)]
    else
      DivShrinks(n, base);
      var front := Digits(n / base, base);
      var r := front + [DigitChar(n % base)];
      assert forall i :: 0 <= i < |front| ==> r[i] == front[i];
      r
  }

  /** `f"{n}"`. */
  function Decimal(n: nat): string { Digits(n, 10) }

  lemma MulNat(a: nat, b: nat)
    ensures a * b >= 0
  {
  }

  /** The number a string of digits denotes in `base`. */
  function ValueOf(ds: string, base: nat): nat
    requires forall i :: 0 <= i < |ds| ==> IsDigitOf(ds[i], base)
  {
    if |ds| == 0 then 0
    else
      var v := ValueOf(ds[..|ds| - 1], base);
      MulNat(v, base);
      v * base + DigitValue(ds[|ds| - 1])
  }

  /** Appending a digit multiplies the value by the base and adds the digit. */
  lemma ValueOfSnoc(front: string, c: char, base: nat)
    requires forall i :: 0 <= i < |front| ==> IsDigitOf(front[i], base)
    requires IsDigitOf(c, base)
    ensures forall i :: 0 <= i < |front + [c]| ==> IsDigitOf((front + [c])[i], base)
    ensures ValueOf(front + [c], base) == ValueOf(front, base) * base + DigitValue(c)
  {
    var ds := front + [c];
    assert ds[..|ds| - 1] == front;
  }

  /** Formatting and reading back a number are inverse. */
  lemma {:induction false} ValueOfDigits(n: nat, base: nat)
    requires base == 10 || base == 16
    ensures ValueOf(Digits(n, base), base) == n
    decreases n
  {
    if n >= base {
      var q, d := n / base, n % base;
      DivShrinks(n, base);
      ValueOfDigits(q, base);
      var front := Digits(q, base);
      assert Digits(n, base) == front + [DigitChar(d)];
      ValueOfSnoc(front, DigitChar(d), base);
    }
  }

  /** Leading zero digits do not change the value. */
  lemma {:induction false} ValueOfLeadingZero(ds: string, base: nat)
    requires base >= 2
    requires forall i :: 0 <= i < |ds| ==> IsDigitOf(ds[i], base)
    ensures ValueOf("0" + ds, base) == ValueOf(ds, base)
    decreases |ds|
  {
    if |ds| == 0 {
      assert ("0" + ds)[..0] == [];
    } else {
      assert ("0" + ds)[..|"0" + ds| - 1] == "0" + ds[..|ds| - 1];
      ValueOfLeadingZero(ds[..|ds| - 1], base);
    }
  }

  /** Decimal strings are distinct for distinct numbers. */
  lemma DecimalInjective(m: nat, n: nat)
    requires Decimal(m) == Decimal(n)
    ensures m == n
  {
    ValueOfDigits(m, 10);
    ValueOfDigits(n, 10);
  }

  /** `s.replace("_", "")` on a digit string. */
  function WithoutUnderscores(ds: string): (r: string)
    ensures (forall i :: 0 <= i < |ds| ==> ds[i] == '_' || IsDigitOf(ds[i], 36)) ==>
              forall i :: 0 <= i < |r| ==> r[i] != '_' && exists j :: 0 <= j < |ds| && ds[j] == r[i]
    ensures (forall i :: 0 <= i < |ds| ==> ds[i] != '_') ==> r == ds
  {
    if |ds| == 0 then []
    else if ds[0] == '_' then WithoutUnderscores(ds[1..])
    else [ds[0]] + WithoutUnderscores(ds[1..])
  }

  /**
   * The digit part of an integer literal as `int()` accepts it: digits of the
   * base, single underscores between them, an underscore first only right
   * after a `0x` prefix.
   */
  predicate WellFormedDigits(ds: string, base: nat, afterPrefix: bool) {
    && |ds| > 0
    && (forall i :: 0 <= i < |ds| ==> ds[i] == '_' || IsDigitOf(ds[i], base))
    && ds[|ds| - 1] != '_'
    && (ds[0] == '_' ==> afterPrefix)
    && (forall i :: 0 <= i < |ds| - 1 ==> !(ds[i] == '_' && ds[i + 1] == '_'))
  }

  lemma WithoutUnderscoresDigits(ds: string, base: nat)
    requires base <= 36
    requires forall i :: 0 <= i < |ds| ==> ds[i] == '_' || IsDigitOf(ds[i], base)
    ensures forall i :: 0 <= i < |WithoutUnderscores(ds)| ==> IsDigitOf(WithoutUnderscores(ds)[i], base)
  {
    var r := WithoutUnderscores(ds);
    forall i | 0 <= i < |r|
      ensures IsDigitOf(r[i], base)
    {
      var j :| 0 <= j < |ds| && ds[j] == r[i];
    }
  }

  /** Whether `s` begins, after its sign, with the `0x` prefix `int(s, 16)` accepts. */
  predicate HasHexPrefix(body: string, base: nat) {
    base == 16 && |body| >= 2 && body[0] == '0' && (body[1] == 'x' || body[1] == 'X')
  }

  /** The digit part of a literal, or `None` if `int()` would reject it. */
  function ParseDigits(ds: string, base: nat, afterPrefix: bool): (r: Option<nat>)
    requires 2 <= base <= 36
  {
    if WellFormedDigits(ds, base, afterPrefix) then
      WithoutUnderscoresDigits(ds, base);
      Some(ValueOf(WithoutUnderscores(ds), base))
    else None
  }

  /** An unsigned literal, with the optional `0x` prefix in base 16. */
  function ParseUnsigned(body: string, base: nat): (r: Option<nat>)
    requires base == 10 || base == 16
  {
    if HasHexPrefix(body, base) then ParseDigits(body[2..], base, true)
    else ParseDigits(body, base, false)
  }

  /** `int(s, base)` for base 10 or 16; `None` where Python raises `ValueError`. */
  function ParseInt(s: string, base: nat): (r: Option<int>)
    requires base == 10 || base == 16
  {
    ParseSigned(Strip(s), base)
  }

  /** An optionally signed literal with no surrounding whitespace. */
  function ParseSigned(t: string, base: nat): (r: Option<int>)
    requires base == 10 || base == 16
  {
    if |t| > 0 && (t[0] == '-' || t[0] == '+') then
      match ParseUnsigned(t[1..], base)
      case None => None
      case Some(v) =>
        var n: int := if t[0] == '-' then -(v as int) else v;
        Some(n)
    else
      match ParseUnsigned(t, base)
      case None => None
      case Some(v) => Some(v)
  }

  /**
   * A plain digit string is read as the number it denotes; any character that is
   * neither whitespace, a sign, an underscore, a digit nor the prefix letter makes
   * `int()` fail.
   */
  lemma ParseIntDigits(ds: string, base: nat)
    requires base == 10 || base == 16
    requires |ds| > 0
    requires forall i :: 0 <= i < |ds| ==> IsDigitOf(ds[i], base) && (IsAsciiDigit(ds[i]) || 'A' <= ds[i] <= 'F')
    ensures ParseInt(ds, base) == Some(ValueOf(ds, base) as int)
  {
    StripNoop(ds);
    assert !HasHexPrefix(ds, base) by {
      if |ds| >= 2 {
        assert ds[1] != 'x' && ds[1] != 'X';
      }
    }
    ParseDigitsPlain(ds, base);
    assert ParseUnsigned(ds, base) == Some(ValueOf(ds, base));
    assert !(ds[0] == '-' || ds[0] == '+');
  }

  lemma ParseDigitsPlain(ds: string, base: nat)
    requires base == 10 || base == 16
    requires |ds| > 0
    requires forall i :: 0 <= i < |ds| ==> IsDigitOf(ds[i], base) && (IsAsciiDigit(ds[i]) || 'A' <= ds[i] <= 'F')
    ensures ParseDigits(ds, base, false) == Some(ValueOf(ds, base))
  {
    assert WellFormedDigits(ds, base, false);
    assert WithoutUnderscores(ds) == ds;
  }

  /** A character `int()` never accepts in the digit part makes the unsigned literal fail. */
  lemma ParseUnsignedAlphabet(body: string, base: nat, k: nat)
    requires base == 10 || base == 16
    requires k < |body|
    requires body[k] != '_' && body[k] != 'x' && body[k] != 'X' && !IsDigitOf(body[k], base)
    ensures ParseUnsigned(body, base) == None
  {
    if HasHexPrefix(body, base) {
      assert k >= 2;
      assert body[2..][k - 2] == body[k];
    }
  }

  lemma ParseIntAlphabet(s: string, base: nat, i: nat)
    requires base == 10 || base == 16
    requires i < |s|
    requires !IsSpace(s[i]) && s[i] != '-' && s[i] != '+' && s[i] != '_' && s[i] != 'x' && s[i] != 'X'
    requires !IsDigitOf(s[i], base)
    ensures ParseInt(s, base) == None
  {
    var t := Strip(s);
    StripKeeps(s, i);
    var k :| 0 <= k < |t| && t[k] == s[i];
    ParseSignedAlphabet(t, base, k);
  }

  lemma ParseSignedAlphabet(t: string, base: nat, k: nat)
    requires base == 10 || base == 16
    requires k < |t|
    requires t[k] != '-' && t[k] != '+' && t[k] != '_' && t[k] != 'x' && t[k] != 'X'
    requires !IsDigitOf(t[k], base)
    ensures ParseSigned(t, base) == None
  {
    if t[0] == '-' || t[0] == '+' {
      assert t[1..][k - 1] == t[k];
      ParseUnsignedAlphabet(t[1..], base, k - 1);
    } else {
      ParseUnsignedAlphabet(t, base, k);
    }
  }
}
