/**
 * Deciding whether a cell's text needs converting: `looks_like_unicode_vietnamese`
 * and `is_likely_non_text_content` in convert_excel_tcvn3.py.
 *
 * A text "looks like Unicode Vietnamese" when it is blank, has no letter, or
 * consists only of whitelisted characters and characters of the separator,
 * punctuation, control and symbol categories. A letter outside the whitelist,
 * such as the TCVN3 byte 0xB5 read as `µ`, makes it a conversion candidate.
 */
module Classifier {
  import opened PyStr
  import opened Charsets

  /** The first loop: some character is a letter (`isalpha`). */
  function HasLetter(db: CharDb, s: string): bool
    decreases |s|
  {
    if |s| == 0 then false
    else if IsAlpha(db, s[0]) then true
    else HasLetter(db, s[1..])
  }

  /** A character normal in Unicode Vietnamese text: whitelisted, or of category Z, P, C or S. */
  predicate IsUsual(db: CharDb, c: char) {
    || InVietUniOk(c)
    || Category(db, c) == Separator
    || Category(db, c) == Punctuation
    || Category(db, c) == Other
    || Category(db, c) == Symbol
  }

  /** The second loop: it returns false at the first character that is not usual. */
  function AllUsual(db: CharDb, s: string): bool
    decreases |s|
  {
    if |s| == 0 then true
    else if !IsUsual(db, s[0]) then false
    else AllUsual(db, s[1..])
  }

  /** `looks_like_unicode_vietnamese`. */
  function LooksLikeUnicodeVietnamese(db: CharDb, s: string): (r: bool)
    ensures IsBlank(s) ==> r
  {
    if |s| == 0 then true
    else if IsBlank(s) then true
    else if !HasLetter(db, s) then true
    else AllUsual(db, s)
  }

  /** The first loop finds a letter exactly when there is one. */
  lemma {:induction false} HasLetterMeans(db: CharDb, s: string)
    ensures HasLetter(db, s) <==> exists i :: 0 <= i < |s| && IsAlpha(db, s[i])
    decreases |s|
  {
    if |s| > 0 {
      HasLetterMeans(db, s[1..]);
      if exists i :: 0 <= i < |s| && IsAlpha(db, s[i]) {
        var i :| 0 <= i < |s| && IsAlpha(db, s[i]);
        if i > 0 {
          assert s[1..][i - 1] == s[i];
        }
      }
      if exists i :: 0 <= i < |s[1..]| && IsAlpha(db, s[1..][i]) {
        var i :| 0 <= i < |s[1..]| && IsAlpha(db, s[1..][i]);
        assert s[i + 1] == s[1..][i];
      }
    }
  }

  /** The second loop passes exactly when every character is usual. */
  lemma {:induction false} AllUsualMeans(db: CharDb, s: string)
    ensures AllUsual(db, s) <==> forall i :: 0 <= i < |s| ==> IsUsual(db, s[i])
    decreases |s|
  {
    if |s| > 0 {
      AllUsualMeans(db, s[1..]);
      if forall i :: 0 <= i < |s[1..]| ==> IsUsual(db, s[1..][i]) {
        forall i | 0 <= i < |s| && i > 0
          ensures IsUsual(db, s[i])
        {
          assert s[i] == s[1..][i - 1];
        }
      }
    }
  }

  /**
   * The text needs no conversion exactly when it is blank, has no letter, or
   * has only usual characters.
   */
  lemma LooksLikeMeans(db: CharDb, s: string)
    ensures LooksLikeUnicodeVietnamese(db, s) <==>
      || IsBlank(s)
      || (forall i :: 0 <= i < |s| ==> !IsAlpha(db, s[i]))
      || (forall i :: 0 <= i < |s| ==> IsUsual(db, s[i]))
  {
    HasLetterMeans(db, s);
    AllUsualMeans(db, s);
    if |s| == 0 {
      StripBlank(s);
    }
  }

  /** Every ASCII character is usual: letters and digits are whitelisted, the rest are of category Z, P, C or S. */
  lemma AsciiIsUsual(db: CharDb, c: char)
    requires IsAscii(c)
    ensures IsUsual(db, c)
  {
  }

  /** Plain ASCII text is never taken for TCVN3. */
  lemma AsciiLooksUnicode(db: CharDb, s: string)
    requires forall i :: 0 <= i < |s| ==> IsAscii(s[i])
    ensures LooksLikeUnicodeVietnamese(db, s)
  {
    forall i | 0 <= i < |s|
      ensures IsUsual(db, s[i])
    {
      AsciiIsUsual(db, s[i]);
    }
    LooksLikeMeans(db, s);
  }

  /** Text written only with whitelisted characters is taken for Unicode Vietnamese. */
  lemma WhitelistedLooksUnicode(db: CharDb, s: string)
    requires forall i :: 0 <= i < |s| ==> InVietUniOk(s[i])
    ensures LooksLikeUnicodeVietnamese(db, s)
  {
    LooksLikeMeans(db, s);
  }

  /** One letter outside the whitelist makes the text a conversion candidate. */
  lemma StrayLetterFlags(db: CharDb, s: string, k: nat)
    requires Consistent(db)
    requires k < |s| && IsAlpha(db, s[k]) && !InVietUniOk(s[k])
    ensures !LooksLikeUnicodeVietnamese(db, s)
  {
    if IsSpace(s[k]) {
      SpaceIsNotAlpha(db, s[k]);
    }
    StripBlank(s);
    assert !IsUsual(db, s[k]);
    LooksLikeMeans(db, s);
  }

  /** "Hµ Néi", the TCVN3 bytes of "Hà Nội" read as Latin-1, needs converting. */
  lemma ExampleTcvn3Flagged(db: CharDb)
    requires Consistent(db) && db.isAlpha('µ')
    ensures !LooksLikeUnicodeVietnamese(db, "Hµ Néi")
  {
    StrayLetterFlags(db, "Hµ Néi", 1);
  }

  /** "Hà Nội" itself does not. */
  lemma ExampleUnicodeKept(db: CharDb)
    ensures LooksLikeUnicodeVietnamese(db, "Hà N\U{1ED9}i")
  {
    WhitelistedLooksUnicode(db, "Hà N\U{1ED9}i");
  }

  /** The separators deleted before the digit test of `is_likely_non_text_content`. */
  predicate IsNumberSeparator(c: char) {
    c == '.' || c == ',' || c == '-' || c == '/' || c == ':'
  }

  /** `s.replace('.', '').replace(',', '').replace('-', '').replace('/', '').replace(':', '')`. */
  function WithoutSeparators(s: string): string {
    RemoveAll(RemoveAll(RemoveAll(RemoveAll(RemoveAll(s, "."), ","), "-"), "/"), ":")
  }

  /** The separator removal keeps every other character and nothing else. */
  lemma WithoutSeparatorsChars(s: string)
    ensures CharsOf(WithoutSeparators(s)) == CharsOf(s) - {'.', ',', '-', '/', ':'}
  {
    var a := RemoveAll(s, ".");
    var b := RemoveAll(a, ",");
    var c := RemoveAll(b, "-");
    var d := RemoveAll(c, "/");
    RemoveCharChars(s, '.');
    RemoveCharChars(a, ',');
    RemoveCharChars(b, '-');
    RemoveCharChars(c, '/');
    RemoveCharChars(d, ':');
  }

  /** A character survives the separator removal exactly when it occurs and is no separator. */
  lemma WithoutSeparatorsHas(s: string, x: char)
    ensures x in WithoutSeparators(s) <==> x in s && !IsNumberSeparator(x)
  {
    WithoutSeparatorsChars(s);
    assert x in WithoutSeparators(s) <==> x in CharsOf(WithoutSeparators(s));
    assert x in s <==> x in CharsOf(s);
  }

  /** `any(ch.isalnum() for ch in s)`. */
  predicate HasAlnum(db: CharDb, s: string) {
    exists i :: 0 <= i < |s| && IsAlnum(db, s[i])
  }

  /**
   * `is_likely_non_text_content`: blank text, a number or date once the
   * separators are gone, or text without letters and digits.
   */
  function IsLikelyNonTextContent(db: CharDb, s: string): (r: bool)
    ensures IsBlank(s) ==> r
    ensures !HasAlnum(db, Strip(s)) ==> r
  {
    if |s| == 0 || IsBlank(s) then true
    else
      var t := Strip(s);
      if IsDigits(db, WithoutSeparators(t)) then true
      else if !HasAlnum(db, t) then true
      else false
  }

  /** Numbers, dates and times written with ASCII digits and separators are not text. */
  lemma NumbersAreNonText(db: CharDb, s: string, k: nat)
    requires forall i :: 0 <= i < |s| ==> IsAsciiDigit(s[i]) || IsNumberSeparator(s[i])
    requires k < |s| && IsAsciiDigit(s[k])
    ensures IsLikelyNonTextContent(db, s)
  {
    StripNoop(s);
    var w := WithoutSeparators(s);
    WithoutSeparatorsHas(s, s[k]);
    forall i | 0 <= i < |w|
      ensures IsDigit(db, w[i])
    {
      WithoutSeparatorsHas(s, w[i]);
    }
  }

  /** A text holding an ASCII letter is text. */
  lemma LetterMakesText(db: CharDb, s: string, k: nat)
    requires k < |s| && IsAsciiLetter(s[k])
    ensures !IsLikelyNonTextContent(db, s)
  {
    var t := Strip(s);
    StripKeeps(s, k);
    var j :| 0 <= j < |t| && t[j] == s[k];
    var w := WithoutSeparators(t);
    WithoutSeparatorsHas(t, s[k]);
    assert !IsDigits(db, w);
    assert HasAlnum(db, t);
  }

  /**
   * The "otherwise" of `is_likely_non_text_content`: stripped text with an
   * alphanumeric character and a character that is neither a digit nor a
   * separator (a letter, a space inside "1 2", the `#` of "12#") is text.
   */
  lemma MixedContentIsText(db: CharDb, s: string, i: nat, k: nat)
    requires i < |Strip(s)| && IsAlnum(db, Strip(s)[i])
    requires k < |Strip(s)| && !IsNumberSeparator(Strip(s)[k]) && !IsDigit(db, Strip(s)[k])
    ensures !IsLikelyNonTextContent(db, s)
  {
    var t := Strip(s);
    StripBlank(s);
    var w := WithoutSeparators(t);
    WithoutSeparatorsHas(t, t[k]);
    var j :| 0 <= j < |w| && w[j] == t[k];
    assert !IsDigits(db, w);
    assert HasAlnum(db, t);
  }

  /** Any letter, ASCII or not (the "ở" of Vietnamese text), makes the input text. */
  lemma AlphaMakesText(db: CharDb, s: string, k: nat)
    requires Consistent(db)
    requires k < |s| && IsAlpha(db, s[k])
    ensures !IsLikelyNonTextContent(db, s)
  {
    if IsSpace(s[k]) {
      SpaceIsNotAlpha(db, s[k]);
    }
    StripKeeps(s, k);
    var t := Strip(s);
    var j :| 0 <= j < |t| && t[j] == s[k];
    assert IsAlnum(db, t[j]) && !IsDigit(db, t[j]);
    MixedContentIsText(db, s, j, j);
  }

  /** "1 2" and "12#" are text, though made mostly of digits. */
  lemma ExampleMixedDigits(db: CharDb)
    ensures !IsLikelyNonTextContent(db, "1 2")
    ensures !IsLikelyNonTextContent(db, "12#")
  {
    StripNoop("1 2");
    StripNoop("12#");
    MixedContentIsText(db, "1 2", 0, 1);
    MixedContentIsText(db, "12#", 0, 2);
  }

  /** No character of the stripped text is a letter. */
  lemma NoLetterInStripped(db: CharDb, s: string)
    requires Consistent(db)
    requires forall i :: 0 <= i < |Strip(s)| ==> !IsAlpha(db, Strip(s)[i])
    ensures forall i :: 0 <= i < |s| ==> !IsAlpha(db, s[i])
  {
    StripSlice(s);
    StripRemovesSpace(s);
    var a := StripStart(s);
    forall i | 0 <= i < |s|
      ensures !IsAlpha(db, s[i])
    {
      if a <= i < a + |Strip(s)| {
        assert s[i] == Strip(s)[i - a];
      } else {
        SpaceIsNotAlpha(db, s[i]);
      }
    }
  }

  /**
   * What is not text is never a conversion candidate: the two tests agree
   * on numbers, dates, punctuation and blank cells.
   */
  lemma NonTextLooksUnicode(db: CharDb, s: string)
    requires Consistent(db)
    requires IsLikelyNonTextContent(db, s)
    ensures LooksLikeUnicodeVietnamese(db, s)
  {
    if !IsBlank(s) {
      var t := Strip(s);
      var w := WithoutSeparators(t);
      if IsDigits(db, w) {
        forall i | 0 <= i < |t|
          ensures !IsAlpha(db, t[i])
        {
          if !IsNumberSeparator(t[i]) {
            WithoutSeparatorsHas(t, t[i]);
            var j :| 0 <= j < |w| && w[j] == t[i];
            assert IsDigit(db, w[j]);
          }
        }
      } else {
        assert !HasAlnum(db, t);
      }
      NoLetterInStripped(db, s);
      LooksLikeMeans(db, s);
    }
  }
}
