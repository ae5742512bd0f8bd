/**
 * Converting a workbook cell by cell and previewing the conversion:
 * `convert_excel` and `preview_conversion` in convert_excel_tcvn3.py, with
 * the records `ConversionLog` and `ConversionStats`.
 *
 * A workbook is its sheets in order, each a grid of cells read without a
 * header row. Every cell is counted; every non-blank text cell is either
 * skipped as already Unicode, converted (and logged), or left unchanged
 * because conversion would not change it.
 */
module Orchestrator {
  import opened Wrappers
  import opened PyStr
  import opened Classifier
  import opened Transducer

  /** A cell as read with `dtype=object`: text, or anything else (number, date, empty cell). */
  datatype Value = Text(s: string) | NonText

  /** One sheet: its name and its rows of cells. */
  datatype Sheet = Sheet(name: string, rows: seq<seq<Value>>)

  /** `ConversionLog`: one cell, with its 1-based row and 0-based column. */
  datatype ConversionLog = ConversionLog(
    sheet: string,
    row: nat,
    col: nat,
    colName: string,
    original: string,
    converted: string,
    wasUnicode: bool)

  /** `ConversionStats`. */
  datatype ConversionStats = ConversionStats(
    totalCells: nat,
    stringCells: nat,
    alreadyUnicode: nat,
    convertedCells: nat,
    unchangedCells: nat,
    sheetsProcessed: nat,
    logs: seq<ConversionLog>)

  /** The statistics a conversion starts from. */
  const NoStats := ConversionStats(0, 0, 0, 0, 0, 0, [])

  /** What one conversion consults besides the cell: the character database, the map and the skip options. */
  datatype Env = Env(db: CharDb, m: Mapping, skipUnicode: bool, selection: map<string, bool>)

  /** `skip_selection or {}`. */
  function SelectionOrEmpty(selection: Option<map<string, bool>>): map<string, bool> {
    match selection
    case None => map[]
    case Some(sel) => sel
  }

  /** The identifier `f"{sheet}_{row + 1}_{col}"` the skip selection is keyed by. */
  function CellId(sheet: string, r: nat, c: nat): string {
    sheet + "_" + Decimal(r + 1) + "_" + Decimal(c)
  }

  /** The generic column name `f"Col_{col}"`. */
  function ColName(c: nat): string {
    "Col_" + Decimal(c)
  }

  /** `skip_selection.get(cell_id, True)`: cells the user did not choose are skipped. */
  function ShouldSkip(selection: map<string, bool>, id: string): bool {
    if id in selection then selection[id] else true
  }

  /** What happens to one cell. */
  datatype Outcome =
    | NotString             // not text, or blank text
    | AlreadyUnicode        // skipped as Unicode already
    | Converted(text: string)
    | Unchanged             // converting would not change it

  /** The fate of the cell at row `r`, column `c` of sheet `sheet`. */
  function CellOutcome(env: Env, sheet: string, r: nat, c: nat, v: Value): (o: Outcome)
    ensures o.Converted? ==> v.Text? && o.text == Tcvn3ToUnicode(env.m, v.s) && o.text != v.s
    ensures o.AlreadyUnicode? ==> v.Text? && env.skipUnicode && LooksLikeUnicodeVietnamese(env.db, v.s)
    ensures o.NotString? <==> v.NonText? || IsBlank(v.s)
    ensures v.Text? && !IsBlank(v.s) ==>
      (o.AlreadyUnicode? <==>
         env.skipUnicode && LooksLikeUnicodeVietnamese(env.db, v.s) && ShouldSkip(env.selection, CellId(sheet, r, c)))
    ensures v.Text? && !IsBlank(v.s) && !o.AlreadyUnicode? ==>
      (o.Converted? <==> Tcvn3ToUnicode(env.m, v.s) != v.s)
  {
    match v
    case NonText => NotString
    case Text(s) =>
      if IsBlank(s) then NotString
      else
        var isUnicode := LooksLikeUnicodeVietnamese(env.db, s);
        if env.skipUnicode && isUnicode && ShouldSkip(env.selection, CellId(sheet, r, c)) then AlreadyUnicode
        else
          var converted := Tcvn3ToUnicode(env.m, s);
          if converted != s then Converted(converted) else Unchanged
  }

  /** The log record of a converted text cell. */
  function LogOf(env: Env, sheet: string, r: nat, c: nat, original: string, converted: string): ConversionLog {
    ConversionLog(sheet, r + 1, c, ColName(c), original, converted, LooksLikeUnicodeVietnamese(env.db, original))
  }

  /** The statistics after one more cell. */
  function Step(env: Env, st: ConversionStats, sheet: string, r: nat, c: nat, v: Value): ConversionStats {
    var counted := st.(totalCells := st.totalCells + 1);
    match CellOutcome(env, sheet, r, c, v)
    case NotString => counted
    case AlreadyUnicode =>
      counted.(stringCells := st.stringCells + 1, alreadyUnicode := st.alreadyUnicode + 1)
    case Converted(t) =>
      counted.(stringCells := st.stringCells + 1, convertedCells := st.convertedCells + 1,
               logs := st.logs + [LogOf(env, sheet, r, c, v.s, t)])
    case Unchanged =>
      counted.(stringCells := st.stringCells + 1, unchangedCells := st.unchangedCells + 1)
  }

  /** The cell written back: the converted text, or the cell as it was. */
  function NewValue(env: Env, sheet: string, r: nat, c: nat, v: Value): Value {
    match CellOutcome(env, sheet, r, c, v)
    case Converted(t) => Text(t)
    case _ => v
  }

  /** The statistics after the cells of row `r`, left to right. */
  function RowFold(env: Env, st: ConversionStats, sheet: string, r: nat, row: seq<Value>): ConversionStats
    decreases |row|
  {
    if |row| == 0 then st
    else Step(env, RowFold(env, st, sheet, r, row[..|row| - 1]), sheet, r, |row| - 1, row[|row| - 1])
  }

  /** The statistics after the rows of a sheet, top to bottom. */
  function RowsFold(env: Env, st: ConversionStats, sheet: string, rows: seq<seq<Value>>): ConversionStats
    decreases |rows|
  {
    if |rows| == 0 then st
    else RowFold(env, RowsFold(env, st, sheet, rows[..|rows| - 1]), sheet, |rows| - 1, rows[|rows| - 1])
  }

  /** The statistics after whole sheets, each counted as processed before its cells. */
  function SheetsFold(env: Env, st: ConversionStats, sheets: seq<Sheet>): ConversionStats
    decreases |sheets|
  {
    if |sheets| == 0 then st
    else
      var before := SheetsFold(env, st, sheets[..|sheets| - 1]);
      var last := sheets[|sheets| - 1];
      RowsFold(env, before.(sheetsProcessed := before.sheetsProcessed + 1), last.name, last.rows)
  }

  /** A row as written back. */
  function ConvertedRow(env: Env, sheet: string, r: nat, row: seq<Value>): (out: seq<Value>)
    ensures |out| == |row|
  {
    seq(|row|, c requires 0 <= c < |row| => NewValue(env, sheet, r, c, row[c]))
  }

  /** A sheet as written back. */
  function ConvertedSheet(env: Env, sheet: Sheet): (out: Sheet)
    ensures out.name == sheet.name && |out.rows| == |sheet.rows|
  {
    Sheet(sheet.name, seq(|sheet.rows|, r requires 0 <= r < |sheet.rows| => ConvertedRow(env, sheet.name, r, sheet.rows[r])))
  }

  /** A call of the progress callback: sheet name, its index and the number of sheets. */
  datatype Progress = Progress(sheet: string, index: nat, total: nat)

  /** The progress calls of a workbook, one per sheet before its cells. */
  function ProgressEvents(book: seq<Sheet>): (events: seq<Progress>)
    ensures |events| == |book|
  {
    seq(|book|, i requires 0 <= i < |book| => Progress(book[i].name, i, |book|))
  }

  // ---------------------------------------------------------------------
  // What the statistics mean.
  // ---------------------------------------------------------------------

  /** Every text cell is counted exactly once, and each conversion is logged once. */
  predicate Balanced(st: ConversionStats) {
    && st.stringCells == st.alreadyUnicode + st.convertedCells + st.unchangedCells
    && |st.logs| == st.convertedCells
  }

  /** A log record as a conversion writes it: a real change, made by the map, with the row counted from one. */
  predicate LogSound(env: Env, e: ConversionLog) {
    && e.row >= 1
    && e.colName == ColName(e.col)
    && !IsBlank(e.original)
    && e.converted == Tcvn3ToUnicode(env.m, e.original)
    && e.converted != e.original
    && e.wasUnicode == LooksLikeUnicodeVietnamese(env.db, e.original)
  }

  predicate LogsSound(env: Env, st: ConversionStats) {
    forall i :: 0 <= i < |st.logs| ==> LogSound(env, st.logs[i])
  }

  /** Balanced statistics with a sound log. */
  predicate Sound(env: Env, st: ConversionStats) {
    Balanced(st) && LogsSound(env, st)
  }

  /** One cell keeps the statistics balanced and the log sound. */
  lemma StepKeeps(env: Env, st: ConversionStats, sheet: string, r: nat, c: nat, v: Value)
    requires Sound(env, st)
    ensures Sound(env, Step(env, st, sheet, r, c, v))
  {
  }

  /** A row keeps the statistics balanced and the log sound. */
  lemma {:induction false} RowFoldKeeps(env: Env, st: ConversionStats, sheet: string, r: nat, row: seq<Value>)
    requires Sound(env, st)
    ensures Sound(env, RowFold(env, st, sheet, r, row))
    decreases |row|
  {
    if |row| > 0 {
      var front := RowFold(env, st, sheet, r, row[..|row| - 1]);
      RowFoldKeeps(env, st, sheet, r, row[..|row| - 1]);
      StepKeeps(env, front, sheet, r, |row| - 1, row[|row| - 1]);
    }
  }

  lemma {:induction false} RowsFoldKeeps(env: Env, st: ConversionStats, sheet: string, rows: seq<seq<Value>>)
    requires Sound(env, st)
    ensures Sound(env, RowsFold(env, st, sheet, rows))
    decreases |rows|
  {
    if |rows| > 0 {
      var front := RowsFold(env, st, sheet, rows[..|rows| - 1]);
      RowsFoldKeeps(env, st, sheet, rows[..|rows| - 1]);
      RowFoldKeeps(env, front, sheet, |rows| - 1, rows[|rows| - 1]);
    }
  }

  lemma {:induction false} SheetsFoldKeeps(env: Env, st: ConversionStats, sheets: seq<Sheet>)
    requires Sound(env, st)
    ensures Sound(env, SheetsFold(env, st, sheets))
    decreases |sheets|
  {
    if |sheets| > 0 {
      var before := SheetsFold(env, st, sheets[..|sheets| - 1]);
      var last := sheets[|sheets| - 1];
      SheetsFoldKeeps(env, st, sheets[..|sheets| - 1]);
      RowsFoldKeeps(env, before.(sheetsProcessed := before.sheetsProcessed + 1), last.name, last.rows);
    }
  }

  /** The number of cells in some rows. */
  function CellCount(rows: seq<seq<Value>>): nat
    decreases |rows|
  {
    if |rows| == 0 then 0 else CellCount(rows[..|rows| - 1]) + |rows[|rows| - 1]|
  }

  /** The number of cells in a workbook. */
  function BookCellCount(book: seq<Sheet>): nat
    decreases |book|
  {
    if |book| == 0 then 0 else BookCellCount(book[..|book| - 1]) + CellCount(book[|book| - 1].rows)
  }

  /** A row counts each of its cells and no sheet. */
  lemma {:induction false} RowFoldCounts(env: Env, st: ConversionStats, sheet: string, r: nat, row: seq<Value>)
    ensures var st' := RowFold(env, st, sheet, r, row);
      && st'.totalCells == st.totalCells + |row|
      && st'.sheetsProcessed == st.sheetsProcessed
    decreases |row|
  {
    if |row| > 0 {
      RowFoldCounts(env, st, sheet, r, row[..|row| - 1]);
    }
  }

  lemma {:induction false} RowsFoldCounts(env: Env, st: ConversionStats, sheet: string, rows: seq<seq<Value>>)
    ensures var st' := RowsFold(env, st, sheet, rows);
      && st'.totalCells == st.totalCells + CellCount(rows)
      && st'.sheetsProcessed == st.sheetsProcessed
    decreases |rows|
  {
    if |rows| > 0 {
      var front := RowsFold(env, st, sheet, rows[..|rows| - 1]);
      RowsFoldCounts(env, st, sheet, rows[..|rows| - 1]);
      RowFoldCounts(env, front, sheet, |rows| - 1, rows[|rows| - 1]);
    }
  }

  /** Whole sheets count their cells and themselves. */
  lemma {:induction false} SheetsFoldCounts(env: Env, st: ConversionStats, sheets: seq<Sheet>)
    ensures var st' := SheetsFold(env, st, sheets);
      && st'.totalCells == st.totalCells + BookCellCount(sheets)
      && st'.sheetsProcessed == st.sheetsProcessed + |sheets|
    decreases |sheets|
  {
    if |sheets| > 0 {
      var before := SheetsFold(env, st, sheets[..|sheets| - 1]);
      var last := sheets[|sheets| - 1];
      SheetsFoldCounts(env, st, sheets[..|sheets| - 1]);
      RowsFoldCounts(env, before.(sheetsProcessed := before.sheetsProcessed + 1), last.name, last.rows);
    }
  }

  /**
   * The statistics of a whole conversion: every cell and sheet counted, text
   * cells split into skipped, converted and unchanged, one sound log record
   * per converted cell.
   */
  lemma ConversionStatsSound(env: Env, book: seq<Sheet>)
    ensures var st := SheetsFold(env, NoStats, book);
      && Balanced(st)
      && LogsSound(env, st)
      && st.totalCells == BookCellCount(book)
      && st.sheetsProcessed == |book|
  {
    var st := SheetsFold(env, NoStats, book);
    SheetsFoldCounts(env, NoStats, book);
    assert st.totalCells == BookCellCount(book) && st.sheetsProcessed == |book|;
    assert Sound(env, NoStats);
    SheetsFoldKeeps(env, NoStats, book);
  }

  /**
   * A cell changes only by conversion: it is written back as it was, or it
   * was non-blank text and becomes its conversion.
   */
  lemma OnlyConvertedCellsChange(env: Env, sheet: string, r: nat, c: nat, v: Value)
    ensures var w := NewValue(env, sheet, r, c, v);
      || w == v
      || (v.Text? && !IsBlank(v.s) && w == Text(Tcvn3ToUnicode(env.m, v.s)))
  {
  }

  /** With skipping off, every non-blank text cell ends up converted. */
  lemma NoSkipConvertsAll(env: Env, sheet: string, r: nat, c: nat, s: string)
    requires !env.skipUnicode && !IsBlank(s)
    ensures NewValue(env, sheet, r, c, Text(s)) == Text(Tcvn3ToUnicode(env.m, s))
  {
  }

  /** A Unicode-looking cell the user did not choose is skipped and kept. */
  lemma UnchosenUnicodeSkipped(env: Env, sheet: string, r: nat, c: nat, s: string)
    requires env.skipUnicode && !IsBlank(s) && LooksLikeUnicodeVietnamese(env.db, s)
    requires CellId(sheet, r, c) !in env.selection
    ensures CellOutcome(env, sheet, r, c, Text(s)) == AlreadyUnicode
    ensures NewValue(env, sheet, r, c, Text(s)) == Text(s)
  {
  }

  /** With skipping on, the default, text that does not look like Unicode is written back converted. */
  lemma SkipOnConvertsTcvn3(env: Env, sheet: string, r: nat, c: nat, s: string)
    requires env.skipUnicode && !IsBlank(s) && !LooksLikeUnicodeVietnamese(env.db, s)
    ensures NewValue(env, sheet, r, c, Text(s)) == Text(Tcvn3ToUnicode(env.m, s))
  {
  }

  /** A Unicode-looking cell the user chose with `False` is converted all the same. */
  lemma ChosenUnicodeConverted(env: Env, sheet: string, r: nat, c: nat, s: string)
    requires env.skipUnicode && !IsBlank(s)
    requires CellId(sheet, r, c) in env.selection && !env.selection[CellId(sheet, r, c)]
    ensures NewValue(env, sheet, r, c, Text(s)) == Text(Tcvn3ToUnicode(env.m, s))
  {
  }

  // ---------------------------------------------------------------------
  // Cell identifiers.
  // ---------------------------------------------------------------------

  /** Decimal numerals have no underscore. */
  lemma DecimalHasNoUnderscore(n: nat)
    ensures '_' !in Decimal(n)
  {
    var d := Decimal(n);
    forall i | 0 <= i < |d|
      ensures d[i] != '_'
    {
      assert IsAsciiDigit(d[i]) || 'A' <= d[i] <= 'F';
    }
  }

  /** The position of the last `ch` in `x`, or -1. */
  function LastIndexOf(x: string, ch: char): int
    decreases |x|
  {
    if |x| == 0 then -1
    else if x[|x| - 1] == ch then |x| - 1
    else LastIndexOf(x[..|x| - 1], ch)
  }

  lemma {:induction false} LastIndexAfter(a: string, ch: char, b: string)
    requires ch !in b
    ensures LastIndexOf(a + [ch] + b, ch) == |a|
    decreases |b|
  {
    var x := a + [ch] + b;
    if |b| > 0 {
      assert x[|x| - 1] == b[|b| - 1];
      assert x[..|x| - 1] == a + [ch] + b[..|b| - 1];
      LastIndexAfter(a, ch, b[..|b| - 1]);
    }
  }

  /** Text split at its last underscore splits one way only. */
  lemma SplitAtLastUnderscore(a: string, b: string, a': string, b': string)
    requires '_' !in b && '_' !in b'
    requires a + "_" + b == a' + "_" + b'
    ensures a == a' && b == b'
  {
    var x := a + "_" + b;
    LastIndexAfter(a, '_', b);
    LastIndexAfter(a', '_', b');
    assert |a| == |a'|;
    assert a == x[..|a|] == a';
    assert b == x[|a| + 1..] == b';
  }

  /** A cell identifier names one cell only, so a selection entry addresses exactly one cell. */
  lemma CellIdInjective(s: string, r: nat, c: nat, s': string, r': nat, c': nat)
    requires CellId(s, r, c) == CellId(s', r', c')
    ensures s == s' && r == r' && c == c'
  {
    DecimalHasNoUnderscore(c);
    DecimalHasNoUnderscore(c');
    DecimalHasNoUnderscore(r + 1);
    DecimalHasNoUnderscore(r' + 1);
    SplitAtLastUnderscore(s + "_" + Decimal(r + 1), Decimal(c), s' + "_" + Decimal(r' + 1), Decimal(c'));
    SplitAtLastUnderscore(s, Decimal(r + 1), s', Decimal(r' + 1));
    DecimalInjective(r + 1, r' + 1);
    DecimalInjective(c, c');
  }

  // ---------------------------------------------------------------------
  // The conversion loop.
  // ---------------------------------------------------------------------

  /** The cells of one row, left to right. */
  method ConvertRow(env: Env, st0: ConversionStats, sheet: string, r: nat, row: seq<Value>)
    returns (st: ConversionStats, out: seq<Value>)
    ensures st == RowFold(env, st0, sheet, r, row)
    ensures out == ConvertedRow(env, sheet, r, row)
  {
    st, out := st0, [];
    var c := 0;
    while c < |row|
      invariant 0 <= c <= |row|
      invariant st == RowFold(env, st0, sheet, r, row[..c])
      invariant out == ConvertedRow(env, sheet, r, row[..c])
    {
      RowFoldSnoc(env, st0, sheet, r, row, c);
      st := Step(env, st, sheet, r, c, row[c]);
      out := out + [NewValue(env, sheet, r, c, row[c])];
      c := c + 1;
    }
    assert row[..c] == row;
  }

  /** The statistics and the row written back after one more cell. */
  lemma RowFoldSnoc(env: Env, st: ConversionStats, sheet: string, r: nat, row: seq<Value>, c: nat)
    requires c < |row|
    ensures RowFold(env, st, sheet, r, row[..c + 1]) == Step(env, RowFold(env, st, sheet, r, row[..c]), sheet, r, c, row[c])
    ensures ConvertedRow(env, sheet, r, row[..c + 1]) == ConvertedRow(env, sheet, r, row[..c]) + [NewValue(env, sheet, r, c, row[c])]
  {
    assert row[..c + 1][..c] == row[..c];
    assert row[..c + 1][c] == row[c];
  }

  /** The rows of one sheet, top to bottom. */
  method ConvertSheet(env: Env, st0: ConversionStats, sheet: Sheet)
    returns (st: ConversionStats, out: Sheet)
    ensures st == RowsFold(env, st0, sheet.name, sheet.rows)
    ensures out == ConvertedSheet(env, sheet)
  {
    st := st0;
    var rows: seq<seq<Value>> := [];
    var r := 0;
    while r < |sheet.rows|
      invariant 0 <= r <= |sheet.rows|
      invariant st == RowsFold(env, st0, sheet.name, sheet.rows[..r])
      invariant rows == ConvertedSheet(env, Sheet(sheet.name, sheet.rows[..r])).rows
    {
      assert sheet.rows[..r + 1][..r] == sheet.rows[..r];
      var newRow;
      st, newRow := ConvertRow(env, st, sheet.name, r, sheet.rows[r]);
      rows := rows + [newRow];
      r := r + 1;
    }
    assert sheet.rows[..r] == sheet.rows;
    out := Sheet(sheet.name, rows);
  }

  /**
   * `convert_excel` without the file input and output: the sheets in order,
   * the progress call before each sheet, the statistics, and the sheets as
   * they are written back.
   */
  method ConvertExcel(db: CharDb, m: Mapping, skipUnicode: bool, skipSelection: Option<map<string, bool>>, book: seq<Sheet>)
    returns (stats: ConversionStats, out: seq<Sheet>, progress: seq<Progress>)
    ensures var env := Env(db, m, skipUnicode, SelectionOrEmpty(skipSelection));
      && stats == SheetsFold(env, NoStats, book)
      && |out| == |book|
      && (forall i :: 0 <= i < |book| ==> out[i] == ConvertedSheet(env, book[i]))
    ensures progress == ProgressEvents(book)
  {
    var env := Env(db, m, skipUnicode, SelectionOrEmpty(skipSelection));
    stats, out, progress := NoStats, [], [];
    var i := 0;
    while i < |book|
      invariant 0 <= i <= |book|
      invariant stats == SheetsFold(env, NoStats, book[..i])
      invariant |out| == i && forall k :: 0 <= k < i ==> out[k] == ConvertedSheet(env, book[k])
      invariant |progress| == i && forall k :: 0 <= k < i ==> progress[k] == Progress(book[k].name, k, |book|)
    {
      SheetsFoldSnoc(env, NoStats, book, i);
      progress := progress + [Progress(book[i].name, i, |book|)];
      stats := stats.(sheetsProcessed := stats.sheetsProcessed + 1);
      var sheetOut;
      stats, sheetOut := ConvertSheet(env, stats, book[i]);
      out := out + [sheetOut];
      i := i + 1;
    }
    assert book[..i] == book;
  }

  /** The statistics after one more sheet. */
  lemma SheetsFoldSnoc(env: Env, st: ConversionStats, book: seq<Sheet>, i: nat)
    requires i < |book|
    ensures var before := SheetsFold(env, st, book[..i]);
      SheetsFold(env, st, book[..i + 1])
        == RowsFold(env, before.(sheetsProcessed := before.sheetsProcessed + 1), book[i].name, book[i].rows)
  {
    assert book[..i + 1][..i] == book[..i];
    assert book[..i + 1][i] == book[i];
  }

  // ---------------------------------------------------------------------
  // The preview.
  // ---------------------------------------------------------------------

  /** The preview record of one cell: every non-blank text cell, Unicode or not, changed or not. */
  function Entry(env: Env, sheet: string, r: nat, c: nat, v: Value): (e: seq<ConversionLog>)
    ensures |e| <= 1
    ensures |e| == 1 <==> v.Text? && !IsBlank(v.s)
    ensures |e| == 1 ==>
      && e[0].sheet == sheet && e[0].row == r + 1 && e[0].col == c
      && e[0].original == v.s
      && e[0].converted == Tcvn3ToUnicode(env.m, v.s)
      && e[0].wasUnicode == LooksLikeUnicodeVietnamese(env.db, v.s)
  {
    match v
    case NonText => []
    case Text(s) =>
      if IsBlank(s) then []
      else [LogOf(env, sheet, r, c, s, Tcvn3ToUnicode(env.m, s))]
  }

  function RowEntries(env: Env, sheet: string, r: nat, row: seq<Value>): seq<ConversionLog>
    decreases |row|
  {
    if |row| == 0 then []
    else RowEntries(env, sheet, r, row[..|row| - 1]) + Entry(env, sheet, r, |row| - 1, row[|row| - 1])
  }

  function RowsEntries(env: Env, sheet: string, rows: seq<seq<Value>>): seq<ConversionLog>
    decreases |rows|
  {
    if |rows| == 0 then []
    else RowsEntries(env, sheet, rows[..|rows| - 1]) + RowEntries(env, sheet, |rows| - 1, rows[|rows| - 1])
  }

  /** Every preview record of a workbook, in reading order. */
  function BookEntries(env: Env, book: seq<Sheet>): seq<ConversionLog>
    decreases |book|
  {
    if |book| == 0 then []
    else BookEntries(env, book[..|book| - 1]) + RowsEntries(env, book[|book| - 1].name, book[|book| - 1].rows)
  }

  /** The first `max(limit, 0)` records, or all of them without a limit. */
  function Take(xs: seq<ConversionLog>, limit: Option<int>): (r: seq<ConversionLog>)
    ensures limit.None? ==> r == xs
    ensures limit.Some? && limit.value <= 0 ==> r == []
    ensures limit.Some? && limit.value > 0 ==> |r| == if |xs| <= limit.value then |xs| else limit.value
    ensures r <= xs
  {
    match limit
    case None => xs
    case Some(n) => if n <= 0 then [] else if |xs| <= n then xs else xs[..n]
  }

  /** The limit is reached: `len(samples) >= max_samples`. */
  predicate Full(samples: seq<ConversionLog>, limit: Option<int>) {
    limit.Some? && |samples| >= limit.value
  }

  /** Taking after taking: what was cut off stays cut off. */
  lemma TakeTake(xs: seq<ConversionLog>, ys: seq<ConversionLog>, limit: Option<int>)
    ensures Take(Take(xs, limit) + ys, limit) == Take(xs + ys, limit)
  {
    if limit.Some? && limit.value > 0 && |xs| > limit.value {
      assert (xs + ys)[..limit.value] == xs[..limit.value];
    }
  }

  /** Below the limit, one more record is taken. */
  lemma TakeRoom(xs: seq<ConversionLog>, e: seq<ConversionLog>, limit: Option<int>)
    requires !Full(xs, limit) && |e| <= 1
    ensures Take(xs + e, limit) == xs + e
  {
  }

  /** Once full, nothing more is taken. */
  lemma TakeFull(xs: seq<ConversionLog>, ys: seq<ConversionLog>, limit: Option<int>)
    requires xs == Take(xs, limit) && Full(xs, limit)
    ensures Take(xs + ys, limit) == xs
  {
    assert (xs + ys)[..|xs|] == xs;
  }

  /** `preview_conversion`: the records of the first `max_samples` non-blank text cells. */
  function PreviewConversion(env: Env, book: seq<Sheet>, maxSamples: Option<int>): seq<ConversionLog> {
    Take(BookEntries(env, book), maxSamples)
  }

  /** Records grown in two steps hold the two pieces in order. */
  lemma LogsChain(start: seq<ConversionLog>, mid: seq<ConversionLog>, end: seq<ConversionLog>,
                  a: seq<ConversionLog>, b: seq<ConversionLog>, ab: seq<ConversionLog>)
    requires mid == start + a && end == mid + b && ab == a + b
    ensures end == start + ab
  {
  }

  /** Taking from a longer list: the records already taken come first. */
  lemma TakeAppend(s0: seq<ConversionLog>, a: seq<ConversionLog>, b: seq<ConversionLog>, limit: Option<int>)
    ensures Take(Take(s0 + a, limit) + b, limit) == Take(s0 + (a + b), limit)
  {
    TakeTake(s0 + a, b, limit);
    assert (s0 + a) + b == s0 + (a + b);
  }

  /** Once the records taken fill the limit, more records change nothing. */
  lemma TakeStop(s0: seq<ConversionLog>, a: seq<ConversionLog>, b: seq<ConversionLog>, limit: Option<int>)
    requires Full(Take(s0 + a, limit), limit)
    ensures Take(s0 + (a + b), limit) == Take(s0 + a, limit)
  {
    TakeTake(s0 + a, b, limit);
    TakeFull(Take(s0 + a, limit), b, limit);
    assert (s0 + a) + b == s0 + (a + b);
  }

  /** The records of the first `c + 1` cells. */
  lemma RowEntriesSnoc(env: Env, sheet: string, r: nat, row: seq<Value>, c: nat)
    requires c < |row|
    ensures RowEntries(env, sheet, r, row[..c + 1]) == RowEntries(env, sheet, r, row[..c]) + Entry(env, sheet, r, c, row[c])
  {
    assert row[..c + 1][..c] == row[..c];
    assert row[..c + 1][c] == row[c];
  }

  /** The records of the cells from column `c` on. */
  function RowEntriesFrom(env: Env, sheet: string, r: nat, row: seq<Value>, c: nat): seq<ConversionLog>
    requires c <= |row|
    decreases |row| - c
  {
    if c == |row| then [] else Entry(env, sheet, r, c, row[c]) + RowEntriesFrom(env, sheet, r, row, c + 1)
  }

  /** The records of a row are those before column `c` followed by those from it. */
  lemma {:induction false} RowEntriesSplit(env: Env, sheet: string, r: nat, row: seq<Value>, c: nat)
    requires c <= |row|
    ensures RowEntries(env, sheet, r, row) == RowEntries(env, sheet, r, row[..c]) + RowEntriesFrom(env, sheet, r, row, c)
    decreases |row| - c
  {
    if c < |row| {
      var e := Entry(env, sheet, r, c, row[c]);
      RowEntriesSplit(env, sheet, r, row, c + 1);
      RowEntriesSnoc(env, sheet, r, row, c);
      assert RowEntriesFrom(env, sheet, r, row, c) == e + RowEntriesFrom(env, sheet, r, row, c + 1);
      LogsChain(RowEntries(env, sheet, r, row[..c]), RowEntries(env, sheet, r, row[..c + 1]), RowEntries(env, sheet, r, row),
                e, RowEntriesFrom(env, sheet, r, row, c + 1), RowEntriesFrom(env, sheet, r, row, c));
    } else {
      assert row[..c] == row;
    }
  }

  /** One more cell below the limit: its record is appended. */
  lemma PreviewCellStep(env: Env, s0: seq<ConversionLog>, sheet: string, r: nat, row: seq<Value>, c: nat, limit: Option<int>)
    requires c < |row|
    requires !Full(Take(s0 + RowEntries(env, sheet, r, row[..c]), limit), limit)
    ensures Take(s0 + RowEntries(env, sheet, r, row[..c]), limit) + Entry(env, sheet, r, c, row[c])
         == Take(s0 + RowEntries(env, sheet, r, row[..c + 1]), limit)
  {
    var e := Entry(env, sheet, r, c, row[c]);
    TakeRoom(Take(s0 + RowEntries(env, sheet, r, row[..c]), limit), e, limit);
    TakeAppend(s0, RowEntries(env, sheet, r, row[..c]), e, limit);
    RowEntriesSnoc(env, sheet, r, row, c);
  }

  /** The limit reached before a cell: the rest of the row adds nothing. */
  lemma PreviewCellStop(env: Env, s0: seq<ConversionLog>, sheet: string, r: nat, row: seq<Value>, c: nat, limit: Option<int>)
    requires c <= |row|
    requires Full(Take(s0 + RowEntries(env, sheet, r, row[..c]), limit), limit)
    ensures Take(s0 + RowEntries(env, sheet, r, row[..c]), limit) == Take(s0 + RowEntries(env, sheet, r, row), limit)
  {
    RowEntriesSplit(env, sheet, r, row, c);
    TakeStop(s0, RowEntries(env, sheet, r, row[..c]), RowEntriesFrom(env, sheet, r, row, c), limit);
  }

  /** The column loop of the preview, stopping before a cell once the limit is reached. */
  method PreviewRow(env: Env, samples0: seq<ConversionLog>, sheet: string, r: nat, row: seq<Value>, limit: Option<int>)
    returns (samples: seq<ConversionLog>)
    requires samples0 == Take(samples0, limit)
    ensures samples == Take(samples0 + RowEntries(env, sheet, r, row), limit)
  {
    samples := samples0;
    var c := 0;
    assert samples0 + RowEntries(env, sheet, r, row[..0]) == samples0;
    while c < |row|
      invariant 0 <= c <= |row|
      invariant samples == Take(samples0 + RowEntries(env, sheet, r, row[..c]), limit)
    {
      if Full(samples, limit) {
        PreviewCellStop(env, samples0, sheet, r, row, c, limit);
        return;
      }
      PreviewCellStep(env, samples0, sheet, r, row, c, limit);
      samples := samples + Entry(env, sheet, r, c, row[c]);
      c := c + 1;
    }
    assert row[..c] == row;
  }

  /** The records of the first `r + 1` rows. */
  lemma RowsEntriesSnoc(env: Env, sheet: string, rows: seq<seq<Value>>, r: nat)
    requires r < |rows|
    ensures RowsEntries(env, sheet, rows[..r + 1]) == RowsEntries(env, sheet, rows[..r]) + RowEntries(env, sheet, r, rows[r])
  {
    assert rows[..r + 1][..r] == rows[..r];
    assert rows[..r + 1][r] == rows[r];
  }

  /** The records of the rows from row `r` on. */
  function RowsEntriesFrom(env: Env, sheet: string, rows: seq<seq<Value>>, r: nat): seq<ConversionLog>
    requires r <= |rows|
    decreases |rows| - r
  {
    if r == |rows| then [] else RowEntries(env, sheet, r, rows[r]) + RowsEntriesFrom(env, sheet, rows, r + 1)
  }

  lemma {:induction false} RowsEntriesSplit(env: Env, sheet: string, rows: seq<seq<Value>>, r: nat)
    requires r <= |rows|
    ensures RowsEntries(env, sheet, rows) == RowsEntries(env, sheet, rows[..r]) + RowsEntriesFrom(env, sheet, rows, r)
    decreases |rows| - r
  {
    if r < |rows| {
      var e := RowEntries(env, sheet, r, rows[r]);
      RowsEntriesSplit(env, sheet, rows, r + 1);
      RowsEntriesSnoc(env, sheet, rows, r);
      LogsChain(RowsEntries(env, sheet, rows[..r]), RowsEntries(env, sheet, rows[..r + 1]), RowsEntries(env, sheet, rows),
                e, RowsEntriesFrom(env, sheet, rows, r + 1), RowsEntriesFrom(env, sheet, rows, r));
    } else {
      assert rows[..r] == rows;
    }
  }

  /** One more row: what the column loop takes is what the sheet's records up to that row allow. */
  lemma PreviewRowStep(env: Env, s0: seq<ConversionLog>, sheet: string, rows: seq<seq<Value>>, r: nat, limit: Option<int>)
    requires r < |rows|
    ensures Take(Take(s0 + RowsEntries(env, sheet, rows[..r]), limit) + RowEntries(env, sheet, r, rows[r]), limit)
         == Take(s0 + RowsEntries(env, sheet, rows[..r + 1]), limit)
  {
    TakeAppend(s0, RowsEntries(env, sheet, rows[..r]), RowEntries(env, sheet, r, rows[r]), limit);
    RowsEntriesSnoc(env, sheet, rows, r);
  }

  /** The limit reached after a row: the rest of the sheet adds nothing. */
  lemma PreviewRowStop(env: Env, s0: seq<ConversionLog>, sheet: string, rows: seq<seq<Value>>, r: nat, limit: Option<int>)
    requires r <= |rows|
    requires Full(Take(s0 + RowsEntries(env, sheet, rows[..r]), limit), limit)
    ensures Take(s0 + RowsEntries(env, sheet, rows[..r]), limit) == Take(s0 + RowsEntries(env, sheet, rows), limit)
  {
    RowsEntriesSplit(env, sheet, rows, r);
    TakeStop(s0, RowsEntries(env, sheet, rows[..r]), RowsEntriesFrom(env, sheet, rows, r), limit);
  }

  /** The row loop of the preview for one sheet, stopping after a row once the limit is reached. */
  method PreviewSheet(env: Env, samples0: seq<ConversionLog>, sheet: Sheet, limit: Option<int>)
    returns (samples: seq<ConversionLog>)
    requires samples0 == Take(samples0, limit)
    ensures samples == Take(samples0 + RowsEntries(env, sheet.name, sheet.rows), limit)
  {
    samples := samples0;
    var r := 0;
    assert samples0 + RowsEntries(env, sheet.name, sheet.rows[..0]) == samples0;
    while r < |sheet.rows|
      invariant 0 <= r <= |sheet.rows|
      invariant samples == Take(samples0 + RowsEntries(env, sheet.name, sheet.rows[..r]), limit)
    {
      samples := PreviewRow(env, samples, sheet.name, r, sheet.rows[r], limit);
      PreviewRowStep(env, samples0, sheet.name, sheet.rows, r, limit);
      r := r + 1;
      if Full(samples, limit) {
        PreviewRowStop(env, samples0, sheet.name, sheet.rows, r, limit);
        return;
      }
    }
    assert sheet.rows[..r] == sheet.rows;
  }

  /** The records of the first `i + 1` sheets. */
  lemma BookEntriesSnoc(env: Env, book: seq<Sheet>, i: nat)
    requires i < |book|
    ensures BookEntries(env, book[..i + 1]) == BookEntries(env, book[..i]) + RowsEntries(env, book[i].name, book[i].rows)
  {
    assert book[..i + 1][..i] == book[..i];
    assert book[..i + 1][i] == book[i];
  }

  /** The records of the sheets from sheet `i` on. */
  function BookEntriesFrom(env: Env, book: seq<Sheet>, i: nat): seq<ConversionLog>
    requires i <= |book|
    decreases |book| - i
  {
    if i == |book| then [] else RowsEntries(env, book[i].name, book[i].rows) + BookEntriesFrom(env, book, i + 1)
  }

  lemma {:induction false} BookEntriesSplit(env: Env, book: seq<Sheet>, i: nat)
    requires i <= |book|
    ensures BookEntries(env, book) == BookEntries(env, book[..i]) + BookEntriesFrom(env, book, i)
    decreases |book| - i
  {
    if i < |book| {
      var e := RowsEntries(env, book[i].name, book[i].rows);
      BookEntriesSplit(env, book, i + 1);
      BookEntriesSnoc(env, book, i);
      LogsChain(BookEntries(env, book[..i]), BookEntries(env, book[..i + 1]), BookEntries(env, book),
                e, BookEntriesFrom(env, book, i + 1), BookEntriesFrom(env, book, i));
    } else {
      assert book[..i] == book;
    }
  }

  /** One more sheet: what its row loop takes is what the records up to that sheet allow. */
  lemma PreviewSheetStep(env: Env, book: seq<Sheet>, i: nat, limit: Option<int>)
    requires i < |book|
    ensures Take(Take(BookEntries(env, book[..i]), limit) + RowsEntries(env, book[i].name, book[i].rows), limit)
         == Take(BookEntries(env, book[..i + 1]), limit)
  {
    TakeTake(BookEntries(env, book[..i]), RowsEntries(env, book[i].name, book[i].rows), limit);
    BookEntriesSnoc(env, book, i);
  }

  /** The limit reached after a sheet: the remaining sheets add nothing. */
  lemma PreviewSheetStop(env: Env, book: seq<Sheet>, i: nat, limit: Option<int>)
    requires i <= |book|
    requires Full(Take(BookEntries(env, book[..i]), limit), limit)
    ensures Take(BookEntries(env, book[..i]), limit) == Take(BookEntries(env, book), limit)
  {
    BookEntriesSplit(env, book, i);
    TakeTake(BookEntries(env, book[..i]), BookEntriesFrom(env, book, i), limit);
    TakeFull(Take(BookEntries(env, book[..i]), limit), BookEntriesFrom(env, book, i), limit);
  }

  /**
   * `preview_conversion` as the loops it is: the limit is checked before
   * each cell and after each row and sheet, and the result is the first
   * records up to the limit.
   */
  method Preview(db: CharDb, m: Mapping, book: seq<Sheet>, maxSamples: Option<int>)
    returns (samples: seq<ConversionLog>)
    ensures samples == PreviewConversion(Env(db, m, false, map[]), book, maxSamples)
  {
    var env := Env(db, m, false, map[]);
    samples := [];
    var i := 0;
    assert BookEntries(env, book[..0]) == [];
    while i < |book|
      invariant 0 <= i <= |book|
      invariant samples == Take(BookEntries(env, book[..i]), maxSamples)
    {
      samples := PreviewSheet(env, samples, book[i], maxSamples);
      PreviewSheetStep(env, book, i, maxSamples);
      i := i + 1;
      if Full(samples, maxSamples) {
        PreviewSheetStop(env, book, i, maxSamples);
        return;
      }
    }
    assert book[..i] == book;
  }

  // ---------------------------------------------------------------------
  // Conversion and preview agree.
  // ---------------------------------------------------------------------

  /** `f"{sheet}_{row}_{col}"` of a record whose row is already counted from one. */
  function RecordId(e: ConversionLog): string {
    e.sheet + "_" + Decimal(e.row) + "_" + Decimal(e.col)
  }

  /** A preview record the conversion would act on: a change that is not skipped. */
  predicate WouldConvert(env: Env, e: ConversionLog) {
    && e.converted != e.original
    && !(env.skipUnicode && e.wasUnicode && ShouldSkip(env.selection, RecordId(e)))
  }

  function Converting(env: Env, es: seq<ConversionLog>): seq<ConversionLog>
    decreases |es|
  {
    if |es| == 0 then []
    else Converting(env, es[..|es| - 1]) + (if WouldConvert(env, es[|es| - 1]) then [es[|es| - 1]] else [])
  }

  lemma {:induction false} ConvertingConcat(env: Env, a: seq<ConversionLog>, b: seq<ConversionLog>)
    ensures Converting(env, a + b) == Converting(env, a) + Converting(env, b)
    decreases |b|
  {
    if |b| == 0 {
      assert a + b == a;
    } else {
      assert (a + b)[..|a + b| - 1] == a + b[..|b| - 1];
      ConvertingConcat(env, a, b[..|b| - 1]);
    }
  }

  lemma StepLogs(env: Env, st: ConversionStats, sheet: string, r: nat, c: nat, v: Value)
    ensures Step(env, st, sheet, r, c, v).logs == st.logs + Converting(env, Entry(env, sheet, r, c, v))
  {
    var e := Entry(env, sheet, r, c, v);
    if |e| == 1 {
      assert e[..0] == [];
      assert RecordId(e[0]) == CellId(sheet, r, c);
    }
  }

  lemma {:induction false} RowFoldLogs(env: Env, st: ConversionStats, sheet: string, r: nat, row: seq<Value>)
    ensures RowFold(env, st, sheet, r, row).logs == st.logs + Converting(env, RowEntries(env, sheet, r, row))
    decreases |row|
  {
    if |row| > 0 {
      var front, last := row[..|row| - 1], row[|row| - 1];
      var mid := RowFold(env, st, sheet, r, front);
      var a, b := RowEntries(env, sheet, r, front), Entry(env, sheet, r, |row| - 1, last);
      RowFoldLogs(env, st, sheet, r, front);
      StepLogs(env, mid, sheet, r, |row| - 1, last);
      ConvertingConcat(env, a, b);
      assert RowEntries(env, sheet, r, row) == a + b;
      LogsChain(st.logs, mid.logs, Step(env, mid, sheet, r, |row| - 1, last).logs,
                Converting(env, a), Converting(env, b), Converting(env, RowEntries(env, sheet, r, row)));
    }
  }

  lemma {:induction false} RowsFoldLogs(env: Env, st: ConversionStats, sheet: string, rows: seq<seq<Value>>)
    ensures RowsFold(env, st, sheet, rows).logs == st.logs + Converting(env, RowsEntries(env, sheet, rows))
    decreases |rows|
  {
    if |rows| > 0 {
      var front, last := rows[..|rows| - 1], rows[|rows| - 1];
      var mid := RowsFold(env, st, sheet, front);
      var a, b := RowsEntries(env, sheet, front), RowEntries(env, sheet, |rows| - 1, last);
      RowsFoldLogs(env, st, sheet, front);
      RowFoldLogs(env, mid, sheet, |rows| - 1, last);
      ConvertingConcat(env, a, b);
      assert RowsEntries(env, sheet, rows) == a + b;
      LogsChain(st.logs, mid.logs, RowFold(env, mid, sheet, |rows| - 1, last).logs,
                Converting(env, a), Converting(env, b), Converting(env, RowsEntries(env, sheet, rows)));
    }
  }

  lemma {:induction false} SheetsFoldLogs(env: Env, st: ConversionStats, book: seq<Sheet>)
    ensures SheetsFold(env, st, book).logs == st.logs + Converting(env, BookEntries(env, book))
    decreases |book|
  {
    if |book| > 0 {
      var front := book[..|book| - 1];
      var last := book[|book| - 1];
      SheetsFoldLogs(env, st, front);
      var before := SheetsFold(env, st, front);
      var counted := before.(sheetsProcessed := before.sheetsProcessed + 1);
      var a, b := BookEntries(env, front), RowsEntries(env, last.name, last.rows);
      RowsFoldLogs(env, counted, last.name, last.rows);
      ConvertingConcat(env, a, b);
      assert BookEntries(env, book) == a + b;
      LogsChain(st.logs, counted.logs, RowsFold(env, counted, last.name, last.rows).logs,
                Converting(env, a), Converting(env, b), Converting(env, BookEntries(env, book)));
    }
  }

  /**
   * The conversion log is the unlimited preview with the records the
   * conversion skips or leaves unchanged taken out.
   */
  lemma LogIsFilteredPreview(env: Env, book: seq<Sheet>)
    ensures SheetsFold(env, NoStats, book).logs == Converting(env, PreviewConversion(env, book, None))
  {
    SheetsFoldLogs(env, NoStats, book);
  }
}
