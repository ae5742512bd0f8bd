/**
 * Applying a TCVN3 map to text: `tcvn3_to_unicode` in convert_excel_tcvn3.py
 * and the converter `make_converter` builds in build_tcvn3_map.py.
 *
 * Both compile the map's keys into one alternation pattern and substitute
 * every match in a single left-to-right pass. Every key of a map the builder
 * writes is a single character, so a match is exactly one character that is a
 * key, and the pass is a character-by-character substitution.
 */
module Transducer {
  import opened Wrappers

  /** A loaded map: single TCVN3 characters to their replacement text. */
  type Mapping = map<char, string>

  /** What the pattern's callback returns for one character. */
  function Replacement(m: Mapping, c: char): string {
    if c in m then m[c] else [c]
  }

  /** One substitution pass over the whole text. */
  function Substitute(m: Mapping, s: string): (r: string)
    decreases |s|
  {
    if |s| == 0 then [] else Replacement(m, s[0]) + Substitute(m, s[1..])
  }

  /**
   * `tcvn3_to_unicode`: the empty text and a text read with an empty map come
   * back as they are, everything else goes through the substitution.
   */
  function Tcvn3ToUnicode(m: Mapping, s: string): (r: string)
    ensures |s| == 0 ==> r == s
    ensures |m| == 0 ==> r == s
  {
    if |s| == 0 then s
    else if |m| == 0 then s
    else Substitute(m, s)
  }

  /** The early returns of `tcvn3_to_unicode` agree with the substitution. */
  lemma Tcvn3ToUnicodeSubstitutes(m: Mapping, s: string)
    ensures Tcvn3ToUnicode(m, s) == Substitute(m, s)
  {
    if |m| == 0 {
      SubstituteIdentity(m, s);
    }
  }

  /** Why the converter of `make_converter` fails. */
  datatype ConvertError =
    | EmptyPatternKeyError  // an empty map joins to the empty pattern, whose match "" is no key

  /**
   * The converter `make_converter(m)` returns, applied to `s`. With no keys
   * the pattern is empty; it matches the empty string, and looking that up
   * in the map raises `KeyError` whatever the text.
   */
  function Convert(m: Mapping, s: string): (r: Result<string, ConvertError>)
    ensures r.Failure? <==> |m| == 0
  {
    if |m| == 0 then Failure(EmptyPatternKeyError) else Success(Substitute(m, s))
  }

  /** The substitution of a concatenation is the concatenation of the substitutions. */
  lemma {:induction false} SubstituteConcat(m: Mapping, a: string, b: string)
    ensures Substitute(m, a + b) == Substitute(m, a) + Substitute(m, b)
    decreases |a|
  {
    if |a| > 0 {
      assert (a + b)[0] == a[0];
      assert (a + b)[1..] == a[1..] + b;
      SubstituteConcat(m, a[1..], b);
      assert Substitute(m, a + b) == Replacement(m, a[0]) + Substitute(m, a[1..] + b);
    } else {
      assert a + b == b;
    }
  }

  /** Text without any key passes through unchanged. */
  lemma {:induction false} SubstituteIdentity(m: Mapping, s: string)
    requires forall i :: 0 <= i < |s| ==> s[i] !in m
    ensures Substitute(m, s) == s
    decreases |s|
  {
    if |s| > 0 {
      SubstituteIdentity(m, s[1..]);
    }
  }

  /** Every key stands for exactly one character, as in every map the builder writes. */
  predicate SingleValued(m: Mapping) {
    forall k :: k in m ==> |m[k]| == 1
  }

  /** The character a single-valued map writes for `c`. */
  function Image(m: Mapping, c: char): char
    requires SingleValued(m)
  {
    if c in m then m[c][0] else c
  }

  /** With single-valued maps the text keeps its length and each character is replaced in place. */
  lemma {:induction false} SubstitutePointwise(m: Mapping, s: string)
    requires SingleValued(m)
    ensures |Substitute(m, s)| == |s|
    ensures forall i :: 0 <= i < |s| ==> Substitute(m, s)[i] == Image(m, s[i])
    decreases |s|
  {
    if |s| > 0 {
      SubstitutePointwise(m, s[1..]);
      var r := Substitute(m, s);
      assert r == [Image(m, s[0])] + Substitute(m, s[1..]);
      forall i | 0 <= i < |s|
        ensures r[i] == Image(m, s[i])
      {
        if i > 0 {
          assert r[i] == Substitute(m, s[1..])[i - 1];
        }
      }
    }
  }

  /**
   * A single-valued conversion changes the text exactly when it contains a
   * key whose value differs from the key.
   */
  lemma SubstituteChanges(m: Mapping, s: string)
    requires SingleValued(m)
    ensures Substitute(m, s) != s <==> exists i :: 0 <= i < |s| && s[i] in m && m[s[i]] != [s[i]]
  {
    SubstitutePointwise(m, s);
    var r := Substitute(m, s);
    if r != s {
      var i :| 0 <= i < |s| && r[i] != s[i];
      assert s[i] in m && m[s[i]] != [s[i]];
    }
    if exists i :: 0 <= i < |s| && s[i] in m && m[s[i]] != [s[i]] {
      var i :| 0 <= i < |s| && s[i] in m && m[s[i]] != [s[i]];
      assert m[s[i]] == [m[s[i]][0]];
      assert r[i] != s[i];
    }
  }

  /** No value of the map contains one of its keys. */
  predicate ValuesAvoidKeys(m: Mapping) {
    forall k, j :: k in m && 0 <= j < |m[k]| ==> m[k][j] !in m
  }

  /** When no value contains a key, converted text holds no key. */
  lemma {:induction false} SubstituteAvoidsKeys(m: Mapping, s: string)
    requires ValuesAvoidKeys(m)
    ensures forall i :: 0 <= i < |Substitute(m, s)| ==> Substitute(m, s)[i] !in m
    decreases |s|
  {
    if |s| > 0 {
      SubstituteAvoidsKeys(m, s[1..]);
      var head := Replacement(m, s[0]);
      var r := Substitute(m, s);
      assert r == head + Substitute(m, s[1..]);
      forall i | 0 <= i < |r|
        ensures r[i] !in m
      {
        if i >= |head| {
          assert r[i] == Substitute(m, s[1..])[i - |head|];
        }
      }
    }
  }

  /** Converting twice is converting once when no value contains a key. */
  lemma ConvertIdempotent(m: Mapping, s: string)
    requires ValuesAvoidKeys(m)
    ensures Tcvn3ToUnicode(m, Tcvn3ToUnicode(m, s)) == Tcvn3ToUnicode(m, s)
  {
    Tcvn3ToUnicodeSubstitutes(m, s);
    SubstituteAvoidsKeys(m, s);
    var r := Substitute(m, s);
    SubstituteIdentity(m, r);
    Tcvn3ToUnicodeSubstitutes(m, r);
  }

  /** For a non-empty map the two converters agree on every text. */
  lemma ConvertersAgree(m: Mapping, s: string)
    requires |m| > 0
    ensures Convert(m, s) == Success(Tcvn3ToUnicode(m, s))
  {
    if |s| == 0 {
      assert Substitute(m, s) == s;
    }
  }

  /** A map from characters to characters, as the builder writes it. */
  function AsMapping(cm: map<char, char>): (m: Mapping)
    ensures m.Keys == cm.Keys
    ensures SingleValued(m)
  {
    map k | k in cm :: [cm[k]]
  }

  /** No two keys share a value. */
  predicate Injective(cm: map<char, char>) {
    forall a, b :: a in cm && b in cm && a != b ==> cm[a] != cm[b]
  }

  /** The reverse map of an injective map: each value back to its key. */
  function Invert(cm: map<char, char>): (inv: map<char, char>)
    requires Injective(cm)
    ensures forall k :: k in cm ==> cm[k] in inv && inv[cm[k]] == k
    ensures forall v :: v in inv ==> exists k :: k in cm && cm[k] == v
  {
    map k | k in cm :: cm[k] := k
  }

  /**
   * Converting with an injective map is undone by converting with its
   * reverse, provided the text holds no character that is a value without
   * being a key (such a character would be mistaken for converted output).
   */
  lemma ReverseRoundTrip(cm: map<char, char>, s: string)
    requires Injective(cm)
    requires forall i :: 0 <= i < |s| ==> s[i] in cm || s[i] !in Invert(cm)
    ensures Substitute(AsMapping(Invert(cm)), Substitute(AsMapping(cm), s)) == s
  {
    var m, inv := AsMapping(cm), AsMapping(Invert(cm));
    SubstitutePointwise(m, s);
    var r := Substitute(m, s);
    SubstitutePointwise(inv, r);
    var back := Substitute(inv, r);
    forall i | 0 <= i < |s|
      ensures back[i] == s[i]
    {
      assert back[i] == Image(inv, Image(m, s[i]));
    }
  }
}
