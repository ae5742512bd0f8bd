/**
 * Finding the Unicode and TCVN3 columns of a character table
 * (`guess_cols` and `find_unicode_tcvn3_columns` in build_tcvn3_map.py).
 *
 * A table is its column labels and its rows. Columns are identified first by
 * header text, and when the headers name no Unicode column, by scoring the
 * contents of every column: the share of its one-character cells that are
 * accented Latin letters, and the share that are characters typical of TCVN3.
 */
module ColumnIdentifier {
  import opened Wrappers
  import opened PyStr
  import opened Charsets

  /** A column label: pandas' default integer label (the position), or a header text. */
  datatype Label = Index(n: nat) | Name(text: string)

  /** A table cell: `None` for a missing value (NaN), otherwise the cell's `str()` text. */
  type Cell = Option<string>

  /** A parsed table. Rows shorter than the header read as missing values. */
  datatype Table = Table(labels: seq<Label>, rows: seq<seq<Cell>>)

  function Width(t: Table): nat { |t.labels| }

  function CellAt(row: seq<Cell>, j: nat): Cell {
    if j < |row| then row[j] else None
  }

  function Column(t: Table, j: nat): (col: seq<Cell>)
    ensures |col| == |t.rows|
  {
    seq(|t.rows|, i requires 0 <= i < |t.rows| => CellAt(t.rows[i], j))
  }

  function Min(a: nat, b: nat): nat { if a <= b then a else b }

  // ---------------------------------------------------------------------
  // Content scores.
  // ---------------------------------------------------------------------

  /** The character of a present cell that is exactly one character once stripped. */
  function SingleOf(c: Cell): (r: seq<char>)
    ensures |r| <= 1
  {
    match c
    case None => []
    case Some(v) => var s := Strip(v); if |s| == 1 then s else []
  }

  /** The one-character cells of a column, stripped, in row order (`dropna`, `strip`, `len == 1`). */
  function Singles(col: seq<Cell>): (cs: seq<char>)
    ensures |cs| <= |col|
    decreases |col|
  {
    if |col| == 0 then [] else Singles(col[..|col| - 1]) + SingleOf(col[|col| - 1])
  }

  /** Every collected character comes from a one-character cell. */
  lemma {:induction false} SinglesSound(col: seq<Cell>, c: char)
    requires c in Singles(col)
    ensures exists i :: 0 <= i < |col| && SingleOf(col[i]) == [c]
    decreases |col|
  {
    var front := col[..|col| - 1];
    var before, tail := Singles(front), SingleOf(col[|col| - 1]);
    if c in before {
      SinglesSound(front, c);
      var i :| 0 <= i < |front| && SingleOf(front[i]) == [c];
      assert col[i] == front[i];
    } else {
      SingleTail(before, tail, c);
    }
  }

  lemma SingleTail(before: seq<char>, tail: seq<char>, c: char)
    requires c in before + tail && c !in before && |tail| <= 1
    ensures tail == [c]
  {
  }

  /** Every one-character cell is collected. */
  lemma {:induction false} SinglesComplete(col: seq<Cell>, i: nat)
    requires i < |col| && |SingleOf(col[i])| == 1
    ensures SingleOf(col[i])[0] in Singles(col)
    decreases |col|
  {
    var front := col[..|col| - 1];
    var before, tail := Singles(front), SingleOf(col[|col| - 1]);
    var x := SingleOf(col[i])[0];
    if i < |front| {
      assert front[i] == col[i];
      SinglesComplete(front, i);
      assert x in before + tail;
    } else {
      assert i == |col| - 1;
      assert (before + tail)[|before|] == x;
    }
  }

  /** How many characters satisfy `p`. */
  function CountWhere(cs: seq<char>, p: char -> bool): (n: nat)
    ensures n <= |cs|
    decreases |cs|
  {
    if |cs| == 0 then 0
    else CountWhere(cs[..|cs| - 1], p) + (if p(cs[|cs| - 1]) then 1 else 0)
  }

  /** The count is full exactly when every character satisfies `p`, and zero exactly when none does. */
  lemma {:induction false} CountWhereEnds(cs: seq<char>, p: char -> bool)
    ensures CountWhere(cs, p) == |cs| <==> forall i :: 0 <= i < |cs| ==> p(cs[i])
    ensures CountWhere(cs, p) == 0 <==> forall i :: 0 <= i < |cs| ==> !p(cs[i])
    decreases |cs|
  {
    if |cs| > 0 {
      var front := cs[..|cs| - 1];
      CountWhereEnds(front, p);
      assert forall i :: 0 <= i < |front| ==> front[i] == cs[i];
    }
  }

  /** `ok / cnt if cnt else 0.0`: the share of characters satisfying `p`. */
  function Score(cs: seq<char>, p: char -> bool): (r: real)
    ensures 0.0 <= r <= 1.0
    ensures r == 1.0 <==> |cs| > 0 && forall i :: 0 <= i < |cs| ==> p(cs[i])
    ensures r == 0.0 <==> forall i :: 0 <= i < |cs| ==> !p(cs[i])
  {
    if |cs| == 0 then 0.0
    else
      var n := CountWhere(cs, p);
      CountWhereEnds(cs, p);
      Share(n, |cs|);
      n as real / |cs| as real
  }

  /** `ok / cnt` lies in [0, 1] and hits the ends exactly when `ok` does. */
  lemma Share(ok: nat, cnt: nat)
    requires 0 < cnt && ok <= cnt
    ensures var r := ok as real / cnt as real;
      && 0.0 <= r <= 1.0 && (r == 1.0 <==> ok == cnt) && (r == 0.0 <==> ok == 0)
  {
    var r := ok as real / cnt as real;
    assert r * cnt as real == ok as real;
  }

  /** `score_unicode`: the share of one-character cells in U+00C0..U+1EF9. */
  function UnicodeScore(t: Table, j: nat): real {
    Score(Singles(Column(t, j)), IsVietnameseRange)
  }

  /** `score_tcvn3`: the share of one-character cells among the TCVN3 hint characters. */
  function Tcvn3Score(t: Table, j: nat): real {
    Score(Singles(Column(t, j)), IsTcvn3Hint)
  }

  function UnicodeScores(t: Table): (s: seq<real>)
    ensures |s| == Width(t)
  {
    seq(Width(t), j requires 0 <= j < Width(t) => UnicodeScore(t, j))
  }

  function Tcvn3Scores(t: Table): (s: seq<real>)
    ensures |s| == Width(t)
  {
    seq(Width(t), j requires 0 <= j < Width(t) => Tcvn3Score(t, j))
  }

  // ---------------------------------------------------------------------
  // Choosing by score.
  // ---------------------------------------------------------------------

  /** `k` is where `max()` stops: a maximum, and the earliest one. */
  predicate IsFirstMax(xs: seq<real>, k: nat) {
    && k < |xs|
    && (forall i :: 0 <= i < |xs| ==> xs[i] <= xs[k])
    && (forall i :: 0 <= i < k ==> xs[i] < xs[k])
  }

  /** `k` is the earliest maximum among the positions other than `u`. */
  predicate IsFirstMaxExcept(xs: seq<real>, k: nat, u: nat) {
    && k < |xs| && k != u
    && (forall i :: 0 <= i < |xs| && i != u ==> xs[i] <= xs[k])
    && (forall i :: 0 <= i < k && i != u ==> xs[i] < xs[k])
  }

  lemma FirstMaxUnique(xs: seq<real>, a: nat, b: nat)
    requires IsFirstMax(xs, a) && IsFirstMax(xs, b)
    ensures a == b
  {
    assert xs[a] == xs[b];
  }

  /** `max(columns, key=score)`: the first column of highest score. */
  function FirstMax(xs: seq<real>): (k: nat)
    requires |xs| > 0
    ensures IsFirstMax(xs, k)
    decreases |xs|
  {
    if |xs| == 1 then 0
    else
      var front := xs[..|xs| - 1];
      var k := FirstMax(front);
      assert forall i :: 0 <= i < |front| ==> front[i] == xs[i];
      if xs[|xs| - 1] > xs[k] then |xs| - 1 else k
  }

  /**
   * The first entry of a stable descending sort other than `u`. Scores are
   * never negative, so blanking `u` out with -1 leaves every other maximum in place.
   */
  function FirstMaxExcept(xs: seq<real>, u: nat): (k: nat)
    requires |xs| >= 2 && u < |xs|
    requires forall i :: 0 <= i < |xs| ==> xs[i] >= 0.0
    ensures IsFirstMaxExcept(xs, k, u)
  {
    var ys := xs[u := -1.0];
    var k := FirstMax(ys);
    var other := if u == 0 then 1 else 0;
    assert ys[other] >= 0.0 && ys[other] <= ys[k];
    assert forall i :: 0 <= i < |xs| && i != u ==> ys[i] == xs[i];
    k
  }

  /**
   * The column pair before the threshold test: each role takes its first best
   * column; when one column wins both, it stays Unicode and TCVN3 moves to the
   * best other column.
   */
  function ChooseColumns(us: seq<real>, ts: seq<real>): (r: (nat, nat))
    requires |us| == |ts| > 0
    requires forall i :: 0 <= i < |ts| ==> ts[i] >= 0.0
    ensures IsFirstMax(us, r.0)
    ensures r.0 != r.1 || |us| == 1
    ensures !IsFirstMax(ts, r.0) ==> IsFirstMax(ts, r.1)
    ensures IsFirstMax(ts, r.0) && |us| >= 2 ==> IsFirstMaxExcept(ts, r.1, r.0)
    ensures |us| == 1 ==> r == (0, 0)
  {
    var u := FirstMax(us);
    var c := FirstMax(ts);
    if u != c then
      (u, c)
    else if |ts| == 1 then
      (u, u)
    else
      (u, FirstMaxExcept(ts, u))
  }

  /**
   * `c` is where the TCVN3 role lands once `u` holds the Unicode role: the
   * first best TCVN3 column, or, when that is `u` itself, the best other one.
   */
  predicate IsTcvn3Choice(ts: seq<real>, u: nat, c: nat) {
    if |ts| == 1 then c == 0
    else if IsFirstMax(ts, u) then IsFirstMaxExcept(ts, c, u)
    else IsFirstMax(ts, c)
  }

  lemma FirstMaxExceptUnique(xs: seq<real>, u: nat, a: nat, b: nat)
    requires IsFirstMaxExcept(xs, a, u) && IsFirstMaxExcept(xs, b, u)
    ensures a == b
  {
    assert xs[a] == xs[b];
  }

  /** The pair `ChooseColumns` returns is the only one the two roles allow. */
  lemma ChooseColumnsUnique(us: seq<real>, ts: seq<real>, u: nat, c: nat)
    requires |us| == |ts| > 0
    requires forall i :: 0 <= i < |ts| ==> ts[i] >= 0.0
    requires IsFirstMax(us, u) && IsTcvn3Choice(ts, u, c)
    ensures ChooseColumns(us, ts) == (u, c)
  {
    var r := ChooseColumns(us, ts);
    FirstMaxUnique(us, r.0, u);
    if |ts| > 1 {
      if IsFirstMax(ts, u) {
        FirstMaxExceptUnique(ts, u, r.1, c);
      } else {
        FirstMaxUnique(ts, r.1, c);
      }
    }
  }

  /** Neither score of the chosen pair may fall below this. */
  const MinScore: real := 0.2

  /** Why `guess_cols` raises. */
  datatype GuessError =
    | NoColumns     // `max()` of no columns
    | LowScore      // a chosen column scores below `MinScore`
    | NotAnInteger  // `int()` of a column label that is not a number

  /**
   * `guess_cols`, returning column positions: the chosen Unicode and TCVN3
   * columns, or the reason it gives up.
   */
  function GuessColumns(t: Table): (r: Result<(nat, nat), GuessError>)
    ensures r == Failure(NoColumns) <==> Width(t) == 0
    ensures r.Success? ==> r.value.0 < Width(t) && r.value.1 < Width(t)
    ensures r.Success? ==> UnicodeScore(t, r.value.0) >= MinScore && Tcvn3Score(t, r.value.1) >= MinScore
    ensures r.Success? ==> IsFirstMax(UnicodeScores(t), r.value.0)
    ensures r.Success? && Width(t) >= 2 ==> r.value.0 != r.value.1
    ensures r.Success? ==> IsTcvn3Choice(Tcvn3Scores(t), r.value.0, r.value.1)
    ensures Width(t) > 0 ==>
      var c := ChooseColumns(UnicodeScores(t), Tcvn3Scores(t));
      (r.Success? <==> UnicodeScore(t, c.0) >= MinScore && Tcvn3Score(t, c.1) >= MinScore)
    ensures r.Failure? ==> r.error != NotAnInteger
  {
    if Width(t) == 0 then Failure(NoColumns)
    else
      var (u, c) := ChooseColumns(UnicodeScores(t), Tcvn3Scores(t));
      if UnicodeScore(t, u) < MinScore || Tcvn3Score(t, c) < MinScore then Failure(LowScore)
      else Success((u, c))
  }

  /**
   * The verdict of `guess_cols` against the two roles' independent
   * description: with `u` the first best Unicode column and `c` the TCVN3
   * column that choice leaves, guessing succeeds exactly when both reach the
   * threshold, and then returns that pair.
   */
  lemma GuessVerdict(t: Table, u: nat, c: nat)
    requires Width(t) > 0
    requires IsFirstMax(UnicodeScores(t), u) && IsTcvn3Choice(Tcvn3Scores(t), u, c)
    ensures GuessColumns(t).Success? <==> UnicodeScore(t, u) >= MinScore && Tcvn3Score(t, c) >= MinScore
    ensures GuessColumns(t).Success? ==> GuessColumns(t).value == (u, c)
    ensures GuessColumns(t).Failure? ==> GuessColumns(t).error == LowScore
  {
    ChooseColumnsUnique(UnicodeScores(t), Tcvn3Scores(t), u, c);
  }

  /** When no column reaches the threshold in one of the roles, guessing fails. */
  lemma GuessRejectsWeakTables(t: Table)
    requires Width(t) > 0
    requires (forall j :: 0 <= j < Width(t) ==> UnicodeScore(t, j) < MinScore)
          || (forall j :: 0 <= j < Width(t) ==> Tcvn3Score(t, j) < MinScore)
    ensures GuessColumns(t) == Failure(LowScore)
  {
    var (u, c) := ChooseColumns(UnicodeScores(t), Tcvn3Scores(t));
    assert UnicodeScores(t)[u] == UnicodeScore(t, u);
    assert Tcvn3Scores(t)[c] == Tcvn3Score(t, c);
  }

  /**
   * A table with a clear Unicode column and a different, clear TCVN3 column,
   * both scoring at least the threshold, is read as exactly those columns.
   */
  lemma GuessFindsClearColumns(t: Table, j: nat, k: nat)
    requires j < Width(t) && k < Width(t) && j != k
    requires forall i :: 0 <= i < Width(t) && i != j ==> UnicodeScore(t, i) < UnicodeScore(t, j)
    requires forall i :: 0 <= i < Width(t) && i != k ==> Tcvn3Score(t, i) < Tcvn3Score(t, k)
    requires UnicodeScore(t, j) >= MinScore && Tcvn3Score(t, k) >= MinScore
    ensures GuessColumns(t) == Success((j, k))
  {
    var us, ts := UnicodeScores(t), Tcvn3Scores(t);
    assert IsFirstMax(us, j);
    assert IsFirstMax(ts, k);
    assert !IsFirstMax(ts, j);
    var (u, c) := ChooseColumns(us, ts);
    FirstMaxUnique(us, u, j);
    FirstMaxUnique(ts, c, k);
  }

  /** `int(label)`: a default label is its position; a header must spell an integer. */
  function LabelAsInt(l: Label): (r: Option<int>)
    ensures l.Index? ==> r == Some(l.n as int)
  {
    match l
    case Index(n) => Some(n)
    case Name(s) => ParseInt(s, 10)
  }

  /**
   * `guess_cols` as written: the chosen column LABELS converted with `int()`.
   * For a table with header labels this raises, or yields a number that is
   * not the column's position.
   */
  function GuessColumnsAsWritten(t: Table): (r: Result<(int, int), GuessError>)
    ensures GuessColumns(t).Failure? ==> r == Failure(GuessColumns(t).error)
  {
    match GuessColumns(t)
    case Failure(e) => Failure(e)
    case Success((u, c)) =>
      match (LabelAsInt(t.labels[u]), LabelAsInt(t.labels[c]))
      case (Some(a), Some(b)) => Success((a, b))
      case _ => Failure(NotAnInteger)
  }

  /** With pandas' default labels the as-written result is the column positions. */
  lemma GuessAsWrittenDefaultLabels(t: Table)
    requires forall j :: 0 <= j < Width(t) ==> t.labels[j] == Index(j)
    ensures GuessColumns(t).Success? ==>
      GuessColumnsAsWritten(t) == Success((GuessColumns(t).value.0 as int, GuessColumns(t).value.1 as int))
  {
  }

  // ---------------------------------------------------------------------
  // Choosing by header.
  // ---------------------------------------------------------------------

  function LabelText(l: Label): string {
    match l
    case Index(n) => Decimal(n)
    case Name(s) => s
  }

  /** A header as compared: `str(c).strip().upper()`, upper-cased once more. */
  function HeaderText(db: CharDb, l: Label): string {
    Upper(db, Upper(db, Strip(LabelText(l))))
  }

  function Headers(db: CharDb, t: Table): (hs: seq<string>)
    ensures |hs| == Width(t)
  {
    seq(Width(t), j requires 0 <= j < Width(t) => HeaderText(db, t.labels[j]))
  }

  predicate IsTcvn3Header(h: string) { Contains(h, "TCVN3") && !Contains(h, "HEX") }
  predicate IsUnicodeHeader(h: string) { Contains(h, "UNICODE") && !Contains(h, "HEX") }
  predicate IsUnicodeHexHeader(h: string) { Contains(h, "UNICODE") && Contains(h, "HEX") }

  /** A header that may name the column of Vietnamese letters: "VIET", "V", or an unmarked first column. */
  predicate IsVietCandidate(h: string, j: nat) {
    h == "VIET" || h == "V" || (j == 0 && !Contains(h, "TCVN3") && !Contains(h, "HEX"))
  }

  /** How many leading rows are sampled, and how many accented letters they must show. */
  const SampleRows: nat := 10
  const MinVietSample: nat := 3

  predicate HasVietSample(t: Table, j: nat) {
    var sample := Column(t, j)[..Min(SampleRows, |t.rows|)];
    CountWhere(Singles(sample), IsVietnameseRange) >= MinVietSample
  }

  /** A column the "Viet" search accepts. */
  predicate IsVietColumn(db: CharDb, t: Table, j: nat) {
    j < Width(t) && IsVietCandidate(Headers(db, t)[j], j) && HasVietSample(t, j)
  }

  /** The first position holding `true`: a `for ... break` search. */
  function FirstTrue(bits: seq<bool>): (r: Option<nat>)
    ensures r.Some? ==> r.value < |bits| && bits[r.value] && forall i :: 0 <= i < r.value ==> !bits[i]
    ensures r.None? <==> forall i :: 0 <= i < |bits| ==> !bits[i]
    decreases |bits|
  {
    if |bits| == 0 then None
    else if bits[0] then Some(0)
    else match FirstTrue(bits[1..])
      case None => None
      case Some(k) => Some(k + 1)
  }

  /** Which headers satisfy `p`, position by position. */
  function Marks(hs: seq<string>, p: string -> bool): (bits: seq<bool>)
    ensures |bits| == |hs|
    ensures forall j :: 0 <= j < |hs| ==> bits[j] == p(hs[j])
  {
    seq(|hs|, j requires 0 <= j < |hs| => p(hs[j]))
  }

  function Tcvn3Column(db: CharDb, t: Table): (r: Option<nat>)
    ensures r.Some? ==> r.value < Width(t) && IsTcvn3Header(Headers(db, t)[r.value])
    ensures r.Some? ==> forall j :: 0 <= j < r.value ==> !IsTcvn3Header(Headers(db, t)[j])
    ensures r.None? <==> forall j :: 0 <= j < Width(t) ==> !IsTcvn3Header(Headers(db, t)[j])
  {
    FirstTrue(Marks(Headers(db, t), IsTcvn3Header))
  }

  function VietColumn(db: CharDb, t: Table): (r: Option<nat>)
    ensures r.Some? ==> r.value < Width(t) && IsVietColumn(db, t, r.value)
    ensures r.Some? ==> forall j :: 0 <= j < r.value ==> !IsVietColumn(db, t, j)
    ensures r.None? <==> forall j :: 0 <= j < Width(t) ==> !IsVietColumn(db, t, j)
  {
    VietBitsFirst(db, t);
    FirstTrue(VietBits(db, t))
  }

  lemma VietBitsFirst(db: CharDb, t: Table)
    ensures var r := FirstTrue(VietBits(db, t));
      && (r.Some? ==> r.value < Width(t) && IsVietColumn(db, t, r.value))
      && (r.Some? ==> forall j :: 0 <= j < r.value ==> !IsVietColumn(db, t, j))
      && (r.None? <==> forall j :: 0 <= j < Width(t) ==> !IsVietColumn(db, t, j))
  {
    var bits := VietBits(db, t);
    var r := FirstTrue(bits);
    if r.Some? {
      assert bits[r.value];
      forall j | 0 <= j < r.value
        ensures !IsVietColumn(db, t, j)
      {
        assert !bits[j];
      }
    } else {
      forall j | 0 <= j < Width(t)
        ensures !IsVietColumn(db, t, j)
      {
        assert !bits[j];
      }
    }
  }

  function VietBits(db: CharDb, t: Table): (bits: seq<bool>)
    ensures |bits| == Width(t)
    ensures forall j :: 0 <= j < Width(t) ==> bits[j] == IsVietColumn(db, t, j)
  {
    seq(Width(t), j requires 0 <= j < Width(t) => IsVietColumn(db, t, j))
  }

  function UnicodeColumn(db: CharDb, t: Table): (r: Option<nat>)
    ensures r.Some? ==> r.value < Width(t) && IsUnicodeHeader(Headers(db, t)[r.value])
    ensures r.Some? ==> forall j :: 0 <= j < r.value ==> !IsUnicodeHeader(Headers(db, t)[j])
    ensures r.None? <==> forall j :: 0 <= j < Width(t) ==> !IsUnicodeHeader(Headers(db, t)[j])
  {
    FirstTrue(Marks(Headers(db, t), IsUnicodeHeader))
  }

  /**
   * The first "UNICODE ... HEX" header. The source's loop stops at the first
   * plain "UNICODE" header, but its hex result is used only when there is none,
   * and then the loop has seen every header.
   */
  function UnicodeHexColumn(db: CharDb, t: Table): (r: Option<nat>)
    ensures r.Some? ==> r.value < Width(t) && IsUnicodeHexHeader(Headers(db, t)[r.value])
    ensures r.Some? ==> forall j :: 0 <= j < r.value ==> !IsUnicodeHexHeader(Headers(db, t)[j])
    ensures r.None? <==> forall j :: 0 <= j < Width(t) ==> !IsUnicodeHexHeader(Headers(db, t)[j])
  {
    FirstTrue(Marks(Headers(db, t), IsUnicodeHexHeader))
  }

  /** The identified columns: positions, and whether the Unicode column holds hex codes. */
  datatype Columns = Columns(unicode: nat, tcvn3: nat, unicodeIsHex: bool)

  /** What the headers alone decide. */
  datatype HeaderOutcome =
    | NoTcvn3Header
    | ByHeader(columns: Columns)
    | NeedGuess(tcvn3: nat)

  /** The header search: the TCVN3 header, then a Viet, Unicode or Unicode-hex column. */
  function HeaderColumns(db: CharDb, t: Table): (r: HeaderOutcome)
    ensures r.ByHeader? ==> r.columns.unicode < Width(t) && r.columns.tcvn3 < Width(t)
    ensures r.NoTcvn3Header? <==> Tcvn3Column(db, t).None?
    ensures r.ByHeader? ==> Tcvn3Column(db, t) == Some(r.columns.tcvn3)
    ensures r.NeedGuess? ==> Tcvn3Column(db, t) == Some(r.tcvn3)
  {
    match Tcvn3Column(db, t)
    case None => NoTcvn3Header
    case Some(tc) =>
      match VietColumn(db, t)
      case Some(u) => ByHeader(Columns(u, tc, false))
      case None =>
        match UnicodeColumn(db, t)
        case Some(u) => ByHeader(Columns(u, tc, false))
        case None =>
          match UnicodeHexColumn(db, t)
          case Some(u) => ByHeader(Columns(u, tc, true))
          case None => NeedGuess(tc)
  }

  /** Some column settles the Unicode side by header: a Viet column, a "UNICODE" header or a "UNICODE ... HEX" header. */
  predicate HasUnicodeSideHeader(db: CharDb, t: Table) {
    exists j :: 0 <= j < Width(t) &&
      (IsVietColumn(db, t, j) || IsUnicodeHeader(Headers(db, t)[j]) || IsUnicodeHexHeader(Headers(db, t)[j]))
  }

  /** A TCVN3 header with a header for the Unicode side leaves nothing to guess. */
  lemma HeaderSettles(db: CharDb, t: Table)
    ensures Tcvn3Column(db, t).Some? && HasUnicodeSideHeader(db, t) ==> HeaderColumns(db, t).ByHeader?
  {
    if Tcvn3Column(db, t).Some? && HasUnicodeSideHeader(db, t) {
      var j :| 0 <= j < Width(t) &&
        (IsVietColumn(db, t, j) || IsUnicodeHeader(Headers(db, t)[j]) || IsUnicodeHexHeader(Headers(db, t)[j]));
      if VietColumn(db, t).None? && UnicodeColumn(db, t).None? {
        assert UnicodeHexColumn(db, t).Some?;
      }
    }
  }

  /**
   * `find_unicode_tcvn3_columns` with the fallback taking `guess_cols`'s
   * column POSITIONS: the TCVN3 column is always the header-found one.
   */
  function FindColumns(db: CharDb, t: Table): (r: Option<Columns>)
    ensures r.Some? ==> r.value.unicode < Width(t) && Tcvn3Column(db, t) == Some(r.value.tcvn3)
    ensures Tcvn3Column(db, t).None? ==> r.None?
    ensures Tcvn3Column(db, t).Some? && HasUnicodeSideHeader(db, t) ==> r.Some?
  {
    HeaderSettles(db, t);
    match HeaderColumns(db, t)
    case NoTcvn3Header => None
    case ByHeader(cols) => Some(cols)
    case NeedGuess(tc) =>
      match GuessColumns(t)
      case Success((u, _)) => Some(Columns(u, tc, false))
      case Failure(_) => None
  }

  /**
   * `find_unicode_tcvn3_columns` as written: the fallback takes `int()` of
   * `guess_cols`'s labels, and any exception there becomes `None`.
   */
  function FindColumnsAsWritten(db: CharDb, t: Table): (r: Option<(int, nat, bool)>)
    ensures HeaderColumns(db, t).ByHeader? ==> r.Some? && r.value.0 == HeaderColumns(db, t).columns.unicode
  {
    match HeaderColumns(db, t)
    case NoTcvn3Header => None
    case ByHeader(cols) => Some((cols.unicode as int, cols.tcvn3, cols.unicodeIsHex))
    case NeedGuess(tc) =>
      match GuessColumnsAsWritten(t)
      case Success((u, c)) => if c == tc as int then Some((u, c as nat, false)) else Some((u, tc, false))
      case Failure(_) => None
  }

  /**
   * The TCVN3 column is the first header containing "TCVN3" but not "HEX";
   * without one there is no result, and with one the fallback never replaces it.
   */
  lemma FindColumnsTcvn3(db: CharDb, t: Table)
    ensures (forall j :: 0 <= j < Width(t) ==> !IsTcvn3Header(Headers(db, t)[j])) ==> FindColumns(db, t).None?
    ensures FindColumns(db, t).Some? ==>
      var tc := FindColumns(db, t).value.tcvn3;
      && IsTcvn3Header(Headers(db, t)[tc])
      && forall j :: 0 <= j < tc ==> !IsTcvn3Header(Headers(db, t)[j])
  {
  }

  /** The first accepted "Viet" column wins, without the hex flag. */
  lemma FindColumnsPrefersViet(db: CharDb, t: Table)
    requires Tcvn3Column(db, t).Some?
    requires exists j :: 0 <= j < Width(t) && IsVietColumn(db, t, j)
    ensures FindColumns(db, t).Some?
    ensures var cols := FindColumns(db, t).value;
      && !cols.unicodeIsHex
      && IsVietColumn(db, t, cols.unicode)
      && forall j :: 0 <= j < cols.unicode ==> !IsVietColumn(db, t, j)
  {
    var tc := Tcvn3Column(db, t).value;
    var u := VietColumn(db, t).value;
    assert HeaderColumns(db, t) == ByHeader(Columns(u, tc, false));
  }

  /** Without a Viet column, the first plain "UNICODE" header wins. */
  lemma FindColumnsUnicodeHeader(db: CharDb, t: Table)
    requires Tcvn3Column(db, t).Some?
    requires forall j :: 0 <= j < Width(t) ==> !IsVietColumn(db, t, j)
    requires exists j :: 0 <= j < Width(t) && IsUnicodeHeader(Headers(db, t)[j])
    ensures FindColumns(db, t).Some?
    ensures var cols := FindColumns(db, t).value;
      && !cols.unicodeIsHex
      && IsUnicodeHeader(Headers(db, t)[cols.unicode])
      && forall j :: 0 <= j < cols.unicode ==> !IsUnicodeHeader(Headers(db, t)[j])
  {
    var tc := Tcvn3Column(db, t).value;
    var u := UnicodeColumn(db, t).value;
    assert HeaderColumns(db, t) == ByHeader(Columns(u, tc, false));
  }

  /**
   * The hex flag is set exactly when there is neither a Viet
   * column nor a plain "UNICODE" header but some "UNICODE ... HEX" header, and
   * then the first such header is the Unicode column.
   */
  lemma FindColumnsHexFlag(db: CharDb, t: Table)
    requires FindColumns(db, t).Some?
    ensures var cols := FindColumns(db, t).value;
      var hs := Headers(db, t);
      && (cols.unicodeIsHex <==>
            && (forall j :: 0 <= j < Width(t) ==> !IsVietColumn(db, t, j) && !IsUnicodeHeader(hs[j]))
            && (exists j :: 0 <= j < Width(t) && IsUnicodeHexHeader(hs[j])))
      && (cols.unicodeIsHex ==>
            && IsUnicodeHexHeader(hs[cols.unicode])
            && forall j :: 0 <= j < cols.unicode ==> !IsUnicodeHexHeader(hs[j]))
  {
    var tc := FindColumns(db, t).value.tcvn3;
    match VietColumn(db, t)
    case Some(u) =>
      assert HeaderColumns(db, t) == ByHeader(Columns(u, tc, false));
    case None =>
      match UnicodeColumn(db, t)
      case Some(u) =>
        assert HeaderColumns(db, t) == ByHeader(Columns(u, tc, false));
      case None =>
        match UnicodeHexColumn(db, t)
        case Some(u) =>
          assert HeaderColumns(db, t) == ByHeader(Columns(u, tc, true));
        case None =>
          assert HeaderColumns(db, t) == NeedGuess(tc);
  }

  /** Without a Viet column or a plain "UNICODE" header, the first "UNICODE ... HEX" header is read as hex codes. */
  lemma FindColumnsHexHeader(db: CharDb, t: Table)
    requires Tcvn3Column(db, t).Some?
    requires forall j :: 0 <= j < Width(t) ==> !IsVietColumn(db, t, j) && !IsUnicodeHeader(Headers(db, t)[j])
    requires exists j :: 0 <= j < Width(t) && IsUnicodeHexHeader(Headers(db, t)[j])
    ensures FindColumns(db, t).Some?
    ensures var cols := FindColumns(db, t).value;
      && cols.unicodeIsHex
      && IsUnicodeHexHeader(Headers(db, t)[cols.unicode])
      && forall j :: 0 <= j < cols.unicode ==> !IsUnicodeHexHeader(Headers(db, t)[j])
  {
    var tc := Tcvn3Column(db, t).value;
    assert VietColumn(db, t).None?;
    assert UnicodeColumn(db, t).None?;
    var u := UnicodeHexColumn(db, t).value;
    assert HeaderColumns(db, t) == ByHeader(Columns(u, tc, true));
  }

  /** The fallback (corrected): with no Unicode header at all, the best-scoring column is taken. */
  lemma FindColumnsFallback(db: CharDb, t: Table)
    requires HeaderColumns(db, t).NeedGuess?
    ensures FindColumns(db, t).Some? <==> GuessColumns(t).Success?
    ensures FindColumns(db, t).Some? ==>
      && FindColumns(db, t).value == Columns(GuessColumns(t).value.0, HeaderColumns(db, t).tcvn3, false)
      && IsFirstMax(UnicodeScores(t), FindColumns(db, t).value.unicode)
      && UnicodeScore(t, FindColumns(db, t).value.unicode) >= MinScore
  {
  }

  /**
   * Whenever `guess_cols` picks a header-labelled Unicode column whose label
   * is not an integer, the as-written search loses the table, while reading
   * the guess as positions keeps it.
   */
  lemma AsWrittenLosesNamedColumns(db: CharDb, t: Table)
    requires HeaderColumns(db, t).NeedGuess?
    requires GuessColumns(t).Success?
    requires LabelAsInt(t.labels[GuessColumns(t).value.0]).None?
    ensures FindColumnsAsWritten(db, t) == None
    ensures FindColumns(db, t) == Some(Columns(GuessColumns(t).value.0, HeaderColumns(db, t).tcvn3, false))
  {
  }

  /** A two-column table headed "SYMBOL" and "TCVN3" whose letters are too few for the Viet test. */
  function NamedExample(): Table {
    Table([Name("SYMBOL"), Name("TCVN3")], [[Some("À"), Some("µ")], [Some("Ã"), Some("¸")]])
  }

  /** The as-written search finds nothing in `NamedExample`; the corrected one finds columns 0 and 1. */
  lemma NamedExampleFinding(db: CharDb)
    ensures FindColumnsAsWritten(db, NamedExample()) == None
    ensures FindColumns(db, NamedExample()) == Some(Columns(0, 1, false))
  {
    var t := NamedExample();
    ExampleHeaderColumns(db);
    ExampleGuess();
    ExampleLabelNotInteger();
    AsWrittenLosesNamedColumns(db, t);
  }

  lemma ExampleLabelNotInteger()
    ensures LabelAsInt(NamedExample().labels[0]) == None
  {
    ParseIntAlphabet("SYMBOL", 10, 0);
  }

  lemma GuessTwoColumns(t: Table)
    requires Width(t) == 2
    requires UnicodeScore(t, 1) < UnicodeScore(t, 0) && Tcvn3Score(t, 0) < Tcvn3Score(t, 1)
    requires UnicodeScore(t, 0) >= MinScore && Tcvn3Score(t, 1) >= MinScore
    ensures GuessColumns(t) == Success((0, 1))
  {
    forall i | 0 <= i < Width(t) && i != 0
      ensures UnicodeScore(t, i) < UnicodeScore(t, 0)
    {
      assert i == 1;
    }
    forall i | 0 <= i < Width(t) && i != 1
      ensures Tcvn3Score(t, i) < Tcvn3Score(t, 1)
    {
      assert i == 0;
    }
    GuessFindsClearColumns(t, 0, 1);
  }

  lemma ExampleGuess()
    ensures GuessColumns(NamedExample()) == Success((0, 1))
  {
    ExampleScores();
    GuessTwoColumns(NamedExample());
  }

  /** The cells of a two-by-two table, column by column. */
  lemma SquareColumns(t: Table, a: Cell, b: Cell, c: Cell, d: Cell)
    requires t.rows == [[a, b], [c, d]]
    ensures Column(t, 0) == [a, c] && Column(t, 1) == [b, d]
  {
    assert Column(t, 0)[0] == a && Column(t, 0)[1] == c;
    assert Column(t, 1)[0] == b && Column(t, 1)[1] == d;
  }

  lemma ExampleVietSample()
    ensures !HasVietSample(NamedExample(), 0)
  {
    var t := NamedExample();
    SquareColumns(t, Some("À"), Some("µ"), Some("Ã"), Some("¸"));
    var sample := Column(t, 0)[..Min(SampleRows, |t.rows|)];
    assert sample == [Some("À"), Some("Ã")];
    SinglesOfTwo("À", "Ã");
  }

  lemma ExampleHeaderColumns(db: CharDb)
    ensures HeaderColumns(db, NamedExample()) == NeedGuess(1)
  {
    var t := NamedExample();
    ExampleHeaders(db);
    ExampleVietSample();
    ExampleHeaderWords();
    TwoHeadersNeedGuess(db, t, "SYMBOL", "TCVN3");
  }

  /**
   * Two headers where only the second names TCVN3, neither names Unicode, the
   * second cannot be the Viet column and the first lacks accented letters:
   * the headers leave the Unicode column to `guess_cols`.
   */
  lemma TwoHeadersNeedGuess(db: CharDb, t: Table, a: string, b: string)
    requires Headers(db, t) == [a, b]
    requires !IsTcvn3Header(a) && IsTcvn3Header(b)
    requires !Contains(a, "UNICODE") && !Contains(b, "UNICODE")
    requires !IsVietCandidate(b, 1) && !HasVietSample(t, 0)
    ensures HeaderColumns(db, t) == NeedGuess(1)
  {
    TwoHeadersTcvn3(db, t, a, b);
    TwoHeadersNotViet(db, t, a, b);
    TwoHeadersNotUnicode(db, t, a, b);
  }

  lemma TwoHeadersTcvn3(db: CharDb, t: Table, a: string, b: string)
    requires Headers(db, t) == [a, b]
    requires !IsTcvn3Header(a) && IsTcvn3Header(b)
    ensures Tcvn3Column(db, t) == Some(1)
  {
    var hs := Headers(db, t);
    assert hs[0] == a && hs[1] == b;
  }

  lemma TwoHeadersNotViet(db: CharDb, t: Table, a: string, b: string)
    requires Headers(db, t) == [a, b]
    requires !IsVietCandidate(b, 1) && !HasVietSample(t, 0)
    ensures VietColumn(db, t) == None
  {
    var hs := Headers(db, t);
    assert hs[1] == b;
    assert !IsVietColumn(db, t, 0) && !IsVietColumn(db, t, 1);
  }

  lemma TwoHeadersNotUnicode(db: CharDb, t: Table, a: string, b: string)
    requires Headers(db, t) == [a, b]
    requires !Contains(a, "UNICODE") && !Contains(b, "UNICODE")
    ensures UnicodeColumn(db, t) == None && UnicodeHexColumn(db, t) == None
  {
    var hs := Headers(db, t);
    assert hs[0] == a && hs[1] == b;
  }

  /** A header already stripped and in upper case compares as written. */
  lemma PlainHeader(db: CharDb, h: string)
    requires |h| > 0 && !IsSpace(h[0]) && !IsSpace(h[|h| - 1])
    requires forall i :: 0 <= i < |h| ==> IsAscii(h[i]) && !('a' <= h[i] <= 'z')
    ensures HeaderText(db, Name(h)) == h
  {
    StripNoop(h);
    UpperNoLower(db, h);
  }

  lemma HeadersOfTwo(db: CharDb, t: Table)
    requires Width(t) == 2
    ensures Headers(db, t) == [HeaderText(db, t.labels[0]), HeaderText(db, t.labels[1])]
  {
  }

  lemma ExampleHeaders(db: CharDb)
    ensures Headers(db, NamedExample()) == ["SYMBOL", "TCVN3"]
  {
    ExampleHeaderSymbol(db);
    ExampleHeaderTcvn3(db);
    HeadersOfTwo(db, NamedExample());
  }

  lemma ExampleHeaderSymbol(db: CharDb)
    ensures HeaderText(db, Name("SYMBOL")) == "SYMBOL"
  {
    PlainHeader(db, "SYMBOL");
  }

  lemma ExampleHeaderTcvn3(db: CharDb)
    ensures HeaderText(db, Name("TCVN3")) == "TCVN3"
  {
    PlainHeader(db, "TCVN3");
  }

  lemma ExampleHeaderWords()
    ensures !Contains("SYMBOL", "TCVN3") && !Contains("SYMBOL", "HEX") && !Contains("SYMBOL", "UNICODE")
    ensures Contains("TCVN3", "TCVN3") && !Contains("TCVN3", "HEX") && !Contains("TCVN3", "UNICODE")
  {
    assert OccursAt("TCVN3", "TCVN3", 0);
    NotContainsFirst("SYMBOL", "TCVN3");
    NotContainsFirst("SYMBOL", "HEX");
    NotContainsFirst("SYMBOL", "UNICODE");
    NotContainsFirst("TCVN3", "HEX");
    NotContainsFirst("TCVN3", "UNICODE");
  }

  lemma SinglesOfTwo(x: string, y: string)
    requires |x| == 1 && |y| == 1 && !IsSpace(x[0]) && !IsSpace(y[0])
    ensures Singles([Some(x), Some(y)]) == x + y
  {
    StripNoop(x);
    StripNoop(y);
    var col := [Some(x), Some(y)];
    assert col[..1] == [Some(x)];
    assert col[..1][..0] == [];
  }

  lemma ExampleSingles()
    ensures Singles(Column(NamedExample(), 0)) == "ÀÃ"
    ensures Singles(Column(NamedExample(), 1)) == "µ¸"
  {
    SquareColumns(NamedExample(), Some("À"), Some("µ"), Some("Ã"), Some("¸"));
    SinglesOfTwo("À", "Ã");
    SinglesOfTwo("µ", "¸");
  }

  /** The score of two characters that agree on `p`. */
  lemma ScoreOfTwo(x: char, y: char, p: char -> bool)
    requires p(x) == p(y)
    ensures Score([x, y], p) == if p(x) then 1.0 else 0.0
  {
    var cs := [x, y];
    assert cs[0] == x && cs[1] == y;
  }

  lemma ExampleScores()
    ensures UnicodeScore(NamedExample(), 0) == 1.0 && UnicodeScore(NamedExample(), 1) == 0.0
    ensures Tcvn3Score(NamedExample(), 0) == 0.0 && Tcvn3Score(NamedExample(), 1) == 1.0
  {
    ExampleSingles();
    assert "ÀÃ" == ['À', 'Ã'] && "µ¸" == ['µ', '¸'];
    ScoreOfTwo('À', 'Ã', IsVietnameseRange);
    ScoreOfTwo('µ', '¸', IsVietnameseRange);
    assert !IsTcvn3Hint('À') && !IsTcvn3Hint('Ã');
    ScoreOfTwo('À', 'Ã', IsTcvn3Hint);
    assert IsTcvn3Hint('µ') && IsTcvn3Hint('¸');
    ScoreOfTwo('µ', '¸', IsTcvn3Hint);
  }
}
