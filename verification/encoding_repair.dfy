/**
 * Repair of double-encoded text: UTF-8 bytes that were read back one byte per
 * character under ISO-8859-1, so that "À" shows up as "Ã" followed by U+0080
 * (`fix_double_encoding` in build_tcvn3_map.py).
 *
 * The byte-level codecs are written out: ISO-8859-1 encoding, which fails on
 * any character above U+00FF, and Python's strict UTF-8 decoder, which rejects
 * overlong forms, surrogates and code points above U+10FFFF.
 */
module EncodingRepair {
  import opened Wrappers
  import opened PyStr
  import opened Charsets

  type byte = x: int | 0 <= x < 256

  /** The substrings whose presence suggests UTF-8 read as ISO-8859-1. */
  const Telltales: seq<string> := ["Ã", "â", "Â", "â€", "Â¢", "Â£"]

  /** How many characters of the repaired text are inspected. */
  const SampleLength: nat := 500

  /** The repaired text must show more Vietnamese-range characters than this. */
  const MinVietnameseChars: nat := 10

  predicate HasTelltale(text: string) {
    exists i :: 0 <= i < |Telltales| && Contains(text, Telltales[i])
  }

  /** Every telltale starts with one of three lead-byte characters, so that is all the test sees. */
  lemma TelltaleChars(text: string)
    ensures HasTelltale(text) <==> exists i :: 0 <= i < |text| && text[i] in {'Ã', 'â', 'Â'}
  {
    if HasTelltale(text) {
      var j :| 0 <= j < |Telltales| && Contains(text, Telltales[j]);
      var i: nat :| i <= |text| && OccursAt(text, Telltales[j], i);
      assert Telltales[j][0] in {'Ã', 'â', 'Â'};
      assert text[i] == text[i..i + |Telltales[j]|][0];
    }
    if exists i :: 0 <= i < |text| && text[i] in {'Ã', 'â', 'Â'} {
      var i :| 0 <= i < |text| && text[i] in {'Ã', 'â', 'Â'};
      var j := if text[i] == 'Ã' then 0 else if text[i] == 'â' then 1 else 2;
      assert OccursAt(text, Telltales[j], i);
    }
  }

  function VietnameseCount(s: string): (n: nat)
    ensures n <= |s|
  {
    if |s| == 0 then 0
    else VietnameseCount(s[..|s| - 1]) + (if IsVietnameseRange(s[|s| - 1]) then 1 else 0)
  }

  /** `text.encode('iso-8859-1')`: one byte per character, failing above U+00FF. */
  function Latin1Encode(text: string): (r: Option<seq<byte>>)
    ensures r.Some? <==> forall i :: 0 <= i < |text| ==> text[i] as int < 256
    ensures r.Some? ==> |r.value| == |text| && forall i :: 0 <= i < |text| ==> r.value[i] == text[i] as int
  {
    if forall i :: 0 <= i < |text| ==> text[i] as int < 256
    then Some(seq(|text|, i requires 0 <= i < |text| => text[i] as int))
    else None
  }

  /** `data.decode('iso-8859-1')`: every byte is the character with that code point. */
  function Latin1Decode(b: seq<byte>): (r: string)
    ensures |r| == |b|
  {
    seq(|b|, i requires 0 <= i < |b| => b[i] as char)
  }

  lemma Latin1RoundTrip(b: seq<byte>)
    ensures Latin1Encode(Latin1Decode(b)) == Some(b)
  {
    var t := Latin1Decode(b);
    assert forall i :: 0 <= i < |t| ==> t[i] as int == b[i];
    assert Latin1Encode(t).value == b;
  }

  predicate IsContinuation(b: int) { 0x80 <= b <= 0xBF }

  /**
   * The first character of a UTF-8 byte sequence and how many bytes it takes,
   * or `None` where Python's strict decoder raises `UnicodeDecodeError`.
   */
  function DecodeFirst(b: seq<byte>): (r: Option<(char, nat)>)
    requires |b| > 0
    ensures r.Some? ==> 1 <= r.value.1 <= |b| && r.value.1 <= 4
    ensures r.Some? && r.value.1 > 1 ==> IsContinuation(b[1])
    ensures r.Some? && b[0] >= 0x80 ==> r.value.1 > 1
  {
    var b0 := b[0] as int;
    if b0 < 0x80 then Some((b0 as char, 1))
    else if 0xC2 <= b0 <= 0xDF then
      if |b| >= 2 && IsContinuation(b[1])
      then Some((((b0 - 0xC0) * 64 + (b[1] as int - 0x80)) as char, 2))
      else None
    else if 0xE0 <= b0 <= 0xEF then
      var lo := if b0 == 0xE0 then 0xA0 else 0x80;
      var hi := if b0 == 0xED then 0x9F else 0xBF;
      if |b| >= 3 && lo <= b[1] <= hi && IsContinuation(b[2])
      then Some((((b0 - 0xE0) * 4096 + (b[1] as int - 0x80) * 64 + (b[2] as int - 0x80)) as char, 3))
      else None
    else if 0xF0 <= b0 <= 0xF4 then
      var lo := if b0 == 0xF0 then 0x90 else 0x80;
      var hi := if b0 == 0xF4 then 0x8F else 0xBF;
      if |b| >= 4 && lo <= b[1] <= hi && IsContinuation(b[2]) && IsContinuation(b[3])
      then Some((((b0 - 0xF0) * 262144 + (b[1] as int - 0x80) * 4096 + (b[2] as int - 0x80) * 64 + (b[3] as int - 0x80)) as char, 4))
      else None
    else None
  }

  /** `data.decode('utf-8')` in strict mode; never longer than its input. */
  function DecodeUtf8(b: seq<byte>): (r: Option<string>)
    ensures r.Some? ==> |r.value| <= |b|
    decreases |b|
  {
    if |b| == 0 then Some([])
    else match DecodeFirst(b)
      case None => None
      case Some((c, n)) =>
        match DecodeUtf8(b[n..])
        case None => None
        case Some(rest) => Some([c] + rest)
  }

  /** The UTF-8 encoding of one character. */
  function EncodeChar(c: char): (r: seq<byte>)
    ensures 1 <= |r| <= 4
  {
    var v := c as int;
    if v < 0x80 then [v]
    else if v < 0x800 then [0xC0 + v / 64, 0x80 + v % 64]
    else if v < 0x10000 then [0xE0 + v / 4096, 0x80 + (v / 64) % 64, 0x80 + v % 64]
    else [0xF0 + v / 262144, 0x80 + (v / 4096) % 64, 0x80 + (v / 64) % 64, 0x80 + v % 64]
  }

  /** `s.encode('utf-8')`. */
  function EncodeUtf8(s: string): seq<byte> {
    if |s| == 0 then [] else EncodeChar(s[0]) + EncodeUtf8(s[1..])
  }

  lemma DecodeEncodeTwo(c: char, rest: seq<byte>)
    requires 0x80 <= c as int < 0x800
    ensures DecodeFirst(EncodeChar(c) + rest) == Some((c, 2))
  {
    var v := c as int;
    var b := EncodeChar(c) + rest;
    assert b[0] == 0xC0 + v / 64 && b[1] == 0x80 + v % 64;
    assert v == (v / 64) * 64 + v % 64;
  }

  lemma DecodeEncodeThree(c: char, rest: seq<byte>)
    requires 0x800 <= c as int < 0x10000
    ensures DecodeFirst(EncodeChar(c) + rest) == Some((c, 3))
  {
    var v := c as int;
    var b := EncodeChar(c) + rest;
    var hi, mid, lo := v / 4096, (v / 64) % 64, v % 64;
    assert v / 64 == hi * 64 + mid;
    assert v == hi * 4096 + mid * 64 + lo;
    assert b[0] == 0xE0 + hi && b[1] == 0x80 + mid && b[2] == 0x80 + lo;
  }

  lemma DecodeEncodeFour(c: char, rest: seq<byte>)
    requires 0x10000 <= c as int
    ensures DecodeFirst(EncodeChar(c) + rest) == Some((c, 4))
  {
    var v := c as int;
    var b := EncodeChar(c) + rest;
    var top, hi, mid, lo := v / 262144, (v / 4096) % 64, (v / 64) % 64, v % 64;
    assert v / 4096 == top * 64 + hi;
    assert v / 64 == (v / 4096) * 64 + mid;
    assert v == top * 262144 + hi * 4096 + mid * 64 + lo;
    assert b[0] == 0xF0 + top && b[1] == 0x80 + hi && b[2] == 0x80 + mid && b[3] == 0x80 + lo;
  }

  lemma DecodeEncodeChar(c: char, rest: seq<byte>)
    ensures DecodeFirst(EncodeChar(c) + rest) == Some((c, |EncodeChar(c)|))
  {
    var v := c as int;
    if v < 0x80 {
    } else if v < 0x800 {
      DecodeEncodeTwo(c, rest);
    } else if v < 0x10000 {
      DecodeEncodeThree(c, rest);
    } else {
      DecodeEncodeFour(c, rest);
    }
  }

  /** Decoding undoes encoding, for every string. */
  lemma {:induction false} DecodeEncode(s: string)
    ensures DecodeUtf8(EncodeUtf8(s)) == Some(s)
    decreases |s|
  {
    if |s| > 0 {
      var e := EncodeChar(s[0]);
      DecodeEncodeChar(s[0], EncodeUtf8(s[1..]));
      assert (e + EncodeUtf8(s[1..]))[|e|..] == EncodeUtf8(s[1..]);
      DecodeEncode(s[1..]);
      assert [s[0]] + s[1..] == s;
    }
  }

  /** A successful decode of bytes with no continuation byte saw only ASCII. */
  lemma {:induction false} DecodeWithoutContinuations(b: seq<byte>)
    requires DecodeUtf8(b).Some?
    requires forall i :: 0 <= i < |b| ==> !IsContinuation(b[i])
    ensures forall i :: 0 <= i < |b| ==> b[i] < 0x80
    decreases |b|
  {
    if |b| > 0 {
      var n := DecodeFirst(b).value.1;
      assert n == 1;
      DecodeWithoutContinuations(b[1..]);
      forall i | 1 <= i < |b|
        ensures b[i] < 0x80
      {
        assert b[i] == b[1..][i - 1];
      }
    }
  }

  /**
   * The whole-text attempt: re-encode as ISO-8859-1, decode as UTF-8, and keep
   * the result if its first `SampleLength` characters hold more than
   * `MinVietnameseChars` Vietnamese-range characters.
   */
  function WholeTextFix(text: string): (r: Option<string>)
    ensures r.Some? ==> |r.value| <= |text|
  {
    match Latin1Encode(text)
    case None => None
    case Some(bytes) =>
      match DecodeUtf8(bytes)
      case None => None
      case Some(fixed) =>
        var sample := fixed[..if |fixed| < SampleLength then |fixed| else SampleLength];
        if VietnameseCount(sample) > MinVietnameseChars then Some(fixed) else None
  }

  /**
   * `fix_double_encoding`: best effort, never raising. Text without a telltale
   * is returned as it is; otherwise the whole-text attempt is tried, then a
   * leading "Ã" plus continuation character is decoded as one UTF-8 pair and the
   * rest repaired recursively.
   */
  function FixDoubleEncoding(text: string): (r: string)
    ensures |r| <= |text|
    ensures text == [] || !HasTelltale(text) ==> r == text
    decreases |text|
  {
    if |text| == 0 then text
    else if !HasTelltale(text) then text
    else match WholeTextFix(text)
      case Some(fixed) => fixed
      case None =>
        if |text| >= 2 && text[0] == 'Ã' && IsContinuation(text[1] as int) then
          match DecodeUtf8([0xC3, text[1] as int])
          case None => text
          case Some(fixedChar) =>
            if |text| > 2 then fixedChar + FixDoubleEncoding(text[2..]) else fixedChar
        else text
  }

  /**
   * When the whole-text attempt fails, a leading "Ã" and a character in
   * U+0080..U+00BF become the single character U+00C0..U+00FF they encode.
   */
  lemma DecodePair(x: byte)
    requires IsContinuation(x)
    ensures DecodeUtf8([0xC3, x]) == Some([(x + 0x40) as char])
  {
    var pair: seq<byte> := [0xC3, x];
    assert DecodeFirst(pair) == Some(((x + 0x40) as char, 2));
    assert pair[2..] == [];
    assert DecodeUtf8(pair[2..]) == Some([]);
    assert DecodeUtf8(pair) == Some([(x + 0x40) as char] + []);
    assert [(x + 0x40) as char] + [] == [(x + 0x40) as char];
  }

  lemma FixLeadingPair(text: string)
    requires |text| >= 2 && text[0] == 'Ã' && IsContinuation(text[1] as int)
    requires WholeTextFix(text) == None
    ensures FixDoubleEncoding(text)
         == [(text[1] as int + 0x40) as char] + (if |text| > 2 then FixDoubleEncoding(text[2..]) else [])
  {
    assert OccursAt(text, Telltales[0], 0);
    assert HasTelltale(text);
    DecodePair(text[1] as int);
  }

  /**
   * Text with no character in U+0080..U+00BF (ASCII and accented Vietnamese
   * letters, for instance) is never altered: such text cannot be the ISO-8859-1
   * reading of any non-ASCII UTF-8.
   */
  lemma FixKeepsText(text: string)
    requires forall i :: 0 <= i < |text| ==> !IsContinuation(text[i] as int)
    ensures FixDoubleEncoding(text) == text
  {
    if |text| > 0 && HasTelltale(text) {
      TelltaleChars(text);
      var k :| 0 <= k < |text| && text[k] in {'Ã', 'â', 'Â'};
      WholeFixNeedsContinuation(text, k);
    }
  }

  /** Non-ASCII text without continuation-range characters does not decode as UTF-8. */
  lemma WholeFixNeedsContinuation(text: string, k: nat)
    requires forall i :: 0 <= i < |text| ==> !IsContinuation(text[i] as int)
    requires k < |text| && text[k] as int >= 0x80
    ensures WholeTextFix(text).None?
  {
    match Latin1Encode(text)
    case None =>
    case Some(bytes) =>
      if DecodeUtf8(bytes).Some? {
        DecodeWithoutContinuations(bytes);
      }
  }

  /** The ISO-8859-1 reading of the UTF-8 encoding of `s`. */
  function Mojibake(s: string): (r: string)
    ensures |r| == |EncodeUtf8(s)|
  {
    Latin1Decode(EncodeUtf8(s))
  }

  /**
   * Repair undoes the corruption it is named for: once the garbled text shows a
   * telltale and the original has enough Vietnamese-range characters in its
   * sample, the original comes back.
   */
  lemma FixUndoesMojibake(s: string)
    requires HasTelltale(Mojibake(s))
    requires VietnameseCount(s[..if |s| < SampleLength then |s| else SampleLength]) > MinVietnameseChars
    ensures FixDoubleEncoding(Mojibake(s)) == s
  {
    var b := EncodeUtf8(s);
    Latin1RoundTrip(b);
    DecodeEncode(s);
    assert |Mojibake(s)| > 0 by {
      var j :| 0 <= j < |Telltales| && Contains(Mojibake(s), Telltales[j]);
    }
  }
}
