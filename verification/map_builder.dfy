/**
 * Building the TCVN3 map from the tables of a character-set page
 * (`build_tcvn3_map` in build_tcvn3_map.py).
 *
 * Every table at least two columns wide whose Unicode and TCVN3 columns can
 * be found contributes one pair per row that holds a single TCVN3 character
 * and a single Unicode character (written out, or as a `U+XXXX` code point).
 * Pairs are merged in page order and the first pair for a key wins; a page
 * that yields no pair at all is an error.
 */
module MapBuilder {
  import opened Wrappers
  import opened PyStr
  import opened HexCodePoint
  import opened ColumnIdentifier

  /** `s.lower() == 'nan'`: the text pandas writes for a missing value. */
  predicate IsNan(s: string) {
    && |s| == 3
    && (s[0] == 'n' || s[0] == 'N')
    && (s[1] == 'a' || s[1] == 'A')
    && (s[2] == 'n' || s[2] == 'N')
  }

  /** Text starting with `U+` that parses as a code point becomes that character; anything else is kept. */
  function ParsedIfNotation(db: CharDb, u: string): (r: string)
    ensures r == u || (|r| == 1 && ParseUnicodeHex(db, u) == Some(r[0]))
  {
    if StartsWith(u, "U+") then
      match ParseUnicodeHex(db, u)
      case Some(c) => [c]
      case None => u
    else u
  }

  /**
   * The Unicode side of a row after the code point conversions: in a hex
   * column the parsed code point or nothing; elsewhere a `U+` code point is
   * parsed when it can be, and the text is tried once more when it still is
   * longer than one character.
   */
  function UnicodeText(db: CharDb, u: string, isHex: bool): (r: Option<string>)
    ensures isHex ==> (r.None? <==> ParseUnicodeHex(db, u).None?)
  {
    var first :=
      if isHex then
        match ParseUnicodeHex(db, u)
        case None => None
        case Some(c) => Some([c])
      else Some(ParsedIfNotation(db, u));
    match first
    case None => None
    case Some(v) => Some(if |v| > 1 then ParsedIfNotation(db, v) else v)
  }

  /** A second attempt at a code point never changes what the first left. */
  lemma ParsedIfNotationIdempotent(db: CharDb, u: string)
    ensures ParsedIfNotation(db, ParsedIfNotation(db, u)) == ParsedIfNotation(db, u)
  {
  }

  /** The second `U+` retry of the row loop is redundant: the text is that of the first conversion. */
  lemma SecondPassRedundant(db: CharDb, u: string)
    ensures UnicodeText(db, u, false) == Some(ParsedIfNotation(db, u))
  {
    ParsedIfNotationIdempotent(db, u);
  }

  /**
   * One row of the two chosen columns, both present: the pair (TCVN3
   * character, Unicode character) it contributes, if any. Both cells are
   * stripped; rows with an empty or `nan` cell, an unparsable hex code point,
   * or more than one character on either side contribute nothing.
   */
  function RowPair(db: CharDb, uCell: string, tCell: string, isHex: bool): (r: Option<(char, char)>)
    ensures r.Some? ==> Strip(tCell) == [r.value.0]
    ensures r.Some? ==> || (!isHex && Strip(uCell) == [r.value.1])
                        || ParseUnicodeHex(db, Strip(uCell)) == Some(r.value.1)
    ensures IsBlank(uCell) || IsBlank(tCell) ==> r.None?
  {
    var u, t := Strip(uCell), Strip(tCell);
    if u == [] || t == [] || IsNan(u) || IsNan(t) then None
    else
      match UnicodeText(db, u, isHex)
      case None => None
      case Some(v) => if |t| == 1 && |v| == 1 then Some((t[0], v[0])) else None
  }

  /** Stripping twice is stripping once. */
  lemma StripIdempotent(s: string)
    ensures Strip(Strip(s)) == Strip(s)
  {
    StripNoop(Strip(s));
  }

  /** A row of two plain characters contributes exactly that pair. */
  lemma RowOfCharacters(db: CharDb, uCell: string, tCell: string, u: char, t: char)
    requires Strip(uCell) == [u] && Strip(tCell) == [t]
    ensures RowPair(db, uCell, tCell, false) == Some((t, u))
  {
  }

  /** `U+` followed by hexadecimal digits has no surrounding whitespace. */
  lemma PrefixedHexStripped(h: string)
    requires IsHexText(h)
    ensures Strip("U+" + h) == "U+" + h
  {
    var p := "U+" + h;
    assert p[0] == 'U' && p[|p| - 1] == h[|h| - 1];
    assert IsHexDigit(h[|h| - 1]);
    StripNoop(p);
  }

  /** The notation of a character has no surrounding whitespace. */
  lemma NotationStripped(c: char)
    ensures Strip(Notation(c)) == Notation(c)
  {
    var ds := Digits(c as int, 16);
    ZeroPadHex(ds, 4);
    PrefixedHexStripped(ZeroPad(ds, 4));
  }

  /** A `U+` code point that parses reads as its character in either kind of column. */
  lemma CodePointText(db: CharDb, u: string, c: char, isHex: bool)
    requires StartsWith(u, "U+") && ParseUnicodeHex(db, u) == Some(c)
    ensures UnicodeText(db, u, isHex) == Some([c])
  {
  }

  /** A row whose Unicode cell is a `U+` code point that parses contributes that character. */
  lemma RowOfCodePoint(db: CharDb, uCell: string, tCell: string, c: char, t: char, isHex: bool)
    requires StartsWith(Strip(uCell), "U+") && ParseUnicodeHex(db, Strip(uCell)) == Some(c)
    requires Strip(tCell) == [t]
    ensures RowPair(db, uCell, tCell, isHex) == Some((t, c))
  {
    var u := Strip(uCell);
    assert u[0] == u[..2][0];
    CodePointText(db, u, c, isHex);
  }

  /**
   * A row whose Unicode cell is the `U+XXXX` notation of a character
   * contributes that character, whether or not the column holds hex codes.
   */
  lemma RowOfNotation(db: CharDb, tCell: string, c: char, t: char, isHex: bool)
    requires Strip(tCell) == [t]
    ensures RowPair(db, Notation(c), tCell, isHex) == Some((t, c))
  {
    NotationStripped(c);
    NotationRoundTrip(db, c);
    assert StartsWith(Notation(c), "U+");
    RowOfCodePoint(db, Notation(c), tCell, c, t, isHex);
  }

  /** In a hex column a cell that is no code point drops the row. */
  lemma RowOfBadHex(db: CharDb, uCell: string, tCell: string)
    requires ParseUnicodeHex(db, Strip(uCell)).None?
    ensures RowPair(db, uCell, tCell, true).None?
  {
  }

  /** The pair one row of the table contributes: none when either chosen cell is missing (`dropna`). */
  function PairsOfRow(db: CharDb, row: seq<Cell>, cols: Columns): (r: seq<(char, char)>)
    ensures |r| <= 1
    ensures |r| == 1 ==> CellAt(row, cols.unicode).Some? && CellAt(row, cols.tcvn3).Some?
  {
    var u, t := CellAt(row, cols.unicode), CellAt(row, cols.tcvn3);
    if u.None? || t.None? then []
    else
      var p := RowPair(db, u.value, t.value, cols.unicodeIsHex);
      if p.None? then [] else [p.value]
  }

  /** The pairs of a sequence of rows, in row order. */
  function RowsPairs(db: CharDb, rows: seq<seq<Cell>>, cols: Columns): (r: seq<(char, char)>)
    ensures |r| <= |rows|
    decreases |rows|
  {
    if |rows| == 0 then []
    else RowsPairs(db, rows[..|rows| - 1], cols) + PairsOfRow(db, rows[|rows| - 1], cols)
  }

  /** The pairs one table contributes: none when it is too narrow or its columns are not found. */
  function TablePairs(db: CharDb, t: Table): (r: seq<(char, char)>)
    ensures |r| <= |t.rows|
    ensures Width(t) < 2 ==> r == []
  {
    if Width(t) < 2 then []
    else
      match FindColumns(db, t)
      case None => []
      case Some(cols) => RowsPairs(db, t.rows, cols)
  }

  /** The pairs of all tables, in page order. */
  function AllPairs(db: CharDb, tables: seq<Table>): seq<(char, char)>
    decreases |tables|
  {
    if |tables| == 0 then []
    else AllPairs(db, tables[..|tables| - 1]) + TablePairs(db, tables[|tables| - 1])
  }

  /** Adding one pair: an existing key is never overwritten. */
  function Insert(m: map<char, char>, p: (char, char)): (r: map<char, char>)
    ensures r.Keys == m.Keys + {p.0}
    ensures forall k :: k in m ==> r[k] == m[k]
    ensures p.0 !in m ==> r[p.0] == p.1
  {
    if p.0 in m then m else m[p.0 := p.1]
  }

  /** Adding pairs in order. */
  function Merge(m: map<char, char>, ps: seq<(char, char)>): map<char, char>
    decreases |ps|
  {
    if |ps| == 0 then m else Insert(Merge(m, ps[..|ps| - 1]), ps[|ps| - 1])
  }

  /** The reference reading of a list of pairs: the value of the first pair with key `k`. */
  function FirstValue(ps: seq<(char, char)>, k: char): Option<char>
    decreases |ps|
  {
    if |ps| == 0 then None
    else if ps[0].0 == k then Some(ps[0].1)
    else FirstValue(ps[1..], k)
  }

  /** `FirstValue` finds the earliest pair with the key, and nothing when there is none. */
  lemma {:induction false} FirstValueMeans(ps: seq<(char, char)>, k: char, v: char)
    ensures FirstValue(ps, k) == Some(v) <==>
      exists i :: 0 <= i < |ps| && ps[i] == (k, v) && forall j :: 0 <= j < i ==> ps[j].0 != k
    ensures FirstValue(ps, k).None? <==> forall i :: 0 <= i < |ps| ==> ps[i].0 != k
    decreases |ps|
  {
    if |ps| > 0 {
      FirstValueMeans(ps[1..], k, v);
      if ps[0].0 != k {
        if exists i :: 0 <= i < |ps| && ps[i] == (k, v) && forall j :: 0 <= j < i ==> ps[j].0 != k {
          var i :| 0 <= i < |ps| && ps[i] == (k, v) && forall j :: 0 <= j < i ==> ps[j].0 != k;
          assert ps[1..][i - 1] == (k, v);
          assert forall j :: 0 <= j < i - 1 ==> ps[1..][j].0 != k by {
            forall j | 0 <= j < i - 1 ensures ps[1..][j].0 != k {
              assert ps[1..][j] == ps[j + 1];
            }
          }
        }
        if FirstValue(ps, k) == Some(v) {
          var i :| 0 <= i < |ps[1..]| && ps[1..][i] == (k, v) && forall j :: 0 <= j < i ==> ps[1..][j].0 != k;
          assert ps[i + 1] == (k, v);
          forall j | 0 <= j < i + 1 ensures ps[j].0 != k {
            if j > 0 {
              assert ps[j] == ps[1..][j - 1];
            }
          }
        }
        if forall i :: 0 <= i < |ps[1..]| ==> ps[1..][i].0 != k {
          forall i | 0 <= i < |ps| ensures ps[i].0 != k {
            if i > 0 {
              assert ps[i] == ps[1..][i - 1];
            }
          }
        }
      }
    }
  }

  /** Looking up the first pair of a list extended by one pair. */
  lemma {:induction false} FirstValueSnoc(ps: seq<(char, char)>, p: (char, char), k: char)
    ensures FirstValue(ps + [p], k) ==
      if FirstValue(ps, k).Some? then FirstValue(ps, k)
      else if p.0 == k then Some(p.1) else None
    decreases |ps|
  {
    if |ps| > 0 {
      assert (ps + [p])[1..] == ps[1..] + [p];
      FirstValueSnoc(ps[1..], p, k);
    } else {
      assert (ps + [p])[1..] == [];
    }
  }

  /**
   * Merging reads a list of pairs as `FirstValue` does, and never changes an
   * entry that was already there.
   */
  lemma {:induction false} MergeLookup(m: map<char, char>, ps: seq<(char, char)>, k: char)
    ensures k in Merge(m, ps) <==> k in m || FirstValue(ps, k).Some?
    ensures k in m ==> Merge(m, ps)[k] == m[k]
    ensures k !in m && FirstValue(ps, k).Some? ==> Merge(m, ps)[k] == FirstValue(ps, k).value
    decreases |ps|
  {
    if |ps| > 0 {
      var front, p := ps[..|ps| - 1], ps[|ps| - 1];
      assert ps == front + [p];
      MergeLookup(m, front, k);
      FirstValueSnoc(front, p, k);
    }
  }

  /** Merging a concatenation is merging its parts one after the other. */
  lemma {:induction false} MergeConcat(m: map<char, char>, a: seq<(char, char)>, b: seq<(char, char)>)
    ensures Merge(m, a + b) == Merge(Merge(m, a), b)
    decreases |b|
  {
    if |b| == 0 {
      assert a + b == a;
    } else {
      var front := b[..|b| - 1];
      assert (a + b)[..|a + b| - 1] == a + front;
      assert (a + b)[|a + b| - 1] == b[|b| - 1];
      MergeConcat(m, a, front);
    }
  }

  /** Merging no pair or one pair. */
  lemma MergeShort(m: map<char, char>, ps: seq<(char, char)>)
    requires |ps| <= 1
    ensures Merge(m, ps) == if ps == [] then m else Insert(m, ps[0])
  {
    if ps != [] {
      assert ps[..0] == [];
    }
  }

  /** Merging the pair of one row, in the terms of the row loop's tests. */
  lemma MergeRow(db: CharDb, m: map<char, char>, row: seq<Cell>, cols: Columns)
    ensures var u, t := CellAt(row, cols.unicode), CellAt(row, cols.tcvn3);
      Merge(m, PairsOfRow(db, row, cols)) ==
        if u.Some? && t.Some? && RowPair(db, u.value, t.value, cols.unicodeIsHex).Some?
           && RowPair(db, u.value, t.value, cols.unicodeIsHex).value.0 !in m
        then m[RowPair(db, u.value, t.value, cols.unicodeIsHex).value.0 := RowPair(db, u.value, t.value, cols.unicodeIsHex).value.1]
        else m
  {
    MergeShort(m, PairsOfRow(db, row, cols));
  }

  /** Why building fails. */
  datatype BuildError =
    | NoMapping  // no table gave a pair: `RuntimeError`

  /** `build_tcvn3_map` over the tables already read from the page. */
  function BuildMap(db: CharDb, tables: seq<Table>): (r: Result<map<char, char>, BuildError>)
  {
    var m := Merge(map[], AllPairs(db, tables));
    if m == map[] then Failure(NoMapping) else Success(m)
  }

  /**
   * The map holds exactly the keys some row gives, each with the value of the
   * first row (in page order) that gives it; building fails exactly when no
   * row gives a pair.
   */
  lemma BuildMapMeans(db: CharDb, tables: seq<Table>, k: char)
    ensures BuildMap(db, tables).Failure? <==> AllPairs(db, tables) == []
    ensures BuildMap(db, tables).Success? ==>
      && (k in BuildMap(db, tables).value <==> FirstValue(AllPairs(db, tables), k).Some?)
      && (k in BuildMap(db, tables).value ==> Some(BuildMap(db, tables).value[k]) == FirstValue(AllPairs(db, tables), k))
  {
    var ps := AllPairs(db, tables);
    MergeLookup(map[], ps, k);
    if ps != [] {
      var k0 := ps[0].0;
      MergeLookup(map[], ps, k0);
      assert k0 in Merge(map[], ps);
    } else {
      assert Merge(map[], ps) == map[];
    }
  }

  /** A table read later never changes an entry an earlier table made. */
  lemma LaterTablesKeepEntries(db: CharDb, tables: seq<Table>, t: Table, k: char)
    requires BuildMap(db, tables).Success? && k in BuildMap(db, tables).value
    ensures BuildMap(db, tables + [t]).Success?
    ensures k in BuildMap(db, tables + [t]).value
    ensures BuildMap(db, tables + [t]).value[k] == BuildMap(db, tables).value[k]
  {
    var ps, qs := AllPairs(db, tables), TablePairs(db, t);
    assert (tables + [t])[..|tables|] == tables;
    assert AllPairs(db, tables + [t]) == ps + qs;
    var before := Merge(map[], ps);
    var after := Merge(map[], ps + qs);
    MergeConcat(map[], ps, qs);
    assert after == Merge(before, qs);
    MergeLookup(before, qs, k);
    assert k in after && after[k] == before[k];
    assert after != map[];
  }

  /** Merging the rows up to `j + 1` is merging those up to `j`, then row `j`. */
  lemma MergeRowsSnoc(db: CharDb, start: map<char, char>, rows: seq<seq<Cell>>, j: nat, cols: Columns)
    requires j < |rows|
    ensures Merge(start, RowsPairs(db, rows[..j + 1], cols))
         == Merge(Merge(start, RowsPairs(db, rows[..j], cols)), PairsOfRow(db, rows[j], cols))
  {
    assert rows[..j + 1][..j] == rows[..j];
    assert RowsPairs(db, rows[..j + 1], cols) == RowsPairs(db, rows[..j], cols) + PairsOfRow(db, rows[j], cols);
    MergeConcat(start, RowsPairs(db, rows[..j], cols), PairsOfRow(db, rows[j], cols));
  }

  /** The row loop of one table: each row's pair stored only when its key is new. */
  method MergeRows(db: CharDb, start: map<char, char>, rows: seq<seq<Cell>>, cols: Columns)
    returns (mapping: map<char, char>)
    ensures mapping == Merge(start, RowsPairs(db, rows, cols))
  {
    mapping := start;
    var j := 0;
    while j < |rows|
      invariant 0 <= j <= |rows|
      invariant mapping == Merge(start, RowsPairs(db, rows[..j], cols))
    {
      var row := rows[j];
      var before := mapping;
      var u, t := CellAt(row, cols.unicode), CellAt(row, cols.tcvn3);
      if u.Some? && t.Some? {
        var p := RowPair(db, u.value, t.value, cols.unicodeIsHex);
        if p.Some? && p.value.0 !in mapping {
          mapping := mapping[p.value.0 := p.value.1];
        }
      }
      MergeRow(db, before, row, cols);
      MergeRowsSnoc(db, start, rows, j, cols);
      j := j + 1;
    }
    assert rows[..j] == rows;
  }

  /**
   * `build_tcvn3_map` as the loop it is: tables in order, narrow tables and
   * tables without recognisable columns skipped, and an error when nothing
   * was stored.
   */
  method BuildTcvn3Map(db: CharDb, tables: seq<Table>) returns (r: Result<map<char, char>, BuildError>)
    ensures r == BuildMap(db, tables)
    ensures r.Failure? <==> AllPairs(db, tables) == []
  {
    var mapping: map<char, char> := map[];
    var i := 0;
    while i < |tables|
      invariant 0 <= i <= |tables|
      invariant mapping == Merge(map[], AllPairs(db, tables[..i]))
    {
      var t := tables[i];
      assert tables[..i + 1][..i] == tables[..i];
      MergeConcat(map[], AllPairs(db, tables[..i]), TablePairs(db, t));
      if Width(t) >= 2 {
        var found := FindColumns(db, t);
        if found.Some? {
          mapping := MergeRows(db, mapping, t.rows, found.value);
        }
      }
      i := i + 1;
    }
    assert tables[..i] == tables;
    BuildMapMeans(db, tables, 'a');
    if mapping == map[] {
      r := Failure(NoMapping);
    } else {
      r := Success(mapping);
    }
  }
}
