# TCVN3 to Unicode conversion, modelled in Dafny

This project models the two pure cores of a converter that turns Vietnamese
text written in the legacy TCVN3 (.VnTime) encoding into Unicode.

- **Building the character map** (build_tcvn3_map.py):
  - `guess_cols` identifies the columns of a character table by content.
  - `find_unicode_tcvn3_columns` identifies them by header.
  - `parse_unicode_hex` reads `U+XXXX` code points.
  - `fix_double_encoding` repairs UTF-8 text that was read as ISO-8859-1.
  - The row loop of `build_tcvn3_map` merges table rows into a map in which the first write wins.
  - `make_converter` builds a one-pass substituting converter.
- **Converting spreadsheet cells** (convert_excel_tcvn3.py):
  - the `ConversionLog` and `ConversionStats` records;
  - the classifiers `looks_like_unicode_vietnamese` and `is_likely_non_text_content`;
  - the substitution `tcvn3_to_unicode`;
  - the cell loop of `convert_excel` over an abstract workbook;
  - the bounded sampling loop of `preview_conversion`.

The modules follow the program's structure:

- `Wrappers` (wrappers.dfy): `Option` and `Result`
- `PyStr` (pystr.dfy): the Python string primitives the code relies on: `strip`, `upper`, `replace`, `in`, `startswith`, `int(s, base)`, `f"{n}"`, and the character predicates
- `Charsets` (charsets.dfy): the character sets `TCVN3_HINTS` and `_VIET_UNI_OK`, and the range of `RE_UNI_CHAR`
- `ColumnIdentifier` (column_identifier.dfy): `guess_cols`, and `find_unicode_tcvn3_columns` both as written and corrected
- `HexCodePoint` (hex_codepoint.dfy): `parse_unicode_hex`
- `EncodingRepair` (encoding_repair.dfy): `fix_double_encoding`, with ISO-8859-1 and strict UTF-8 codecs
- `MapBuilder` (map_builder.dfy): the row and merge loop of `build_tcvn3_map`
- `Transducer` (transducer.dfy): `tcvn3_to_unicode` and `make_converter`
- `Classifier` (classifier.dfy): `looks_like_unicode_vietnamese` and `is_likely_non_text_content`
- `Orchestrator` (orchestrator.dfy): `convert_excel` and `preview_conversion` as folds, and as loops proved equal to them

Python's Unicode database stays abstract. `unicodedata.category` and the non-ASCII answers of `isalpha`, `isdigit`, `isalnum` and `upper` come from a record of functions, `PyStr.CharDb`. The predicate `PyStr.Consistent` states the few facts Python's definitions guarantee about them, and only lemmas that need those facts assume it. ASCII and whitespace behaviour is written out.

A workbook is a sequence of sheets. A sheet is a name and a grid of cells, and each cell is `Text(s)` or `NonText`. A character table read from the web page is `ColumnIdentifier.Table`: column labels plus rows of optional cell texts.

## Model

| member | source | states |
|---|---|---|
| Charsets.VietUniOkShape | convert_excel_tcvn3.py:25-30 | every whitelisted character is ASCII, an accented letter in U+00C0..U+1EF9, or one of ten listed signs |
| PyStr.StripBlank | convert_excel_tcvn3.py:150-152 | `strip()` leaves nothing exactly when every character is whitespace |
| PyStr.StripKeeps | convert_excel_tcvn3.py:150 | a character that is not whitespace survives `strip()` |
| PyStr.RemoveCharChars | convert_excel_tcvn3.py:196 | `replace(c, "")` removes exactly the character `c` and keeps every other character that occurs |
| PyStr.RemoveAllAbsent | build_tcvn3_map.py:398 | `replace` leaves text without the pattern unchanged |
| PyStr.ParseIntDigits | build_tcvn3_map.py:400 | `int(ds, base)` on a plain digit string is the number those digits denote |
| PyStr.ParseIntAlphabet | build_tcvn3_map.py:399-403 | any character outside whitespace, sign, underscore, `x` and the digits of the base makes `int()` fail |
| PyStr.ValueOfDigits | convert_excel_tcvn3.py:292 | formatting a number in base 10 or 16 and reading it back gives the number |
| PyStr.DecimalInjective | convert_excel_tcvn3.py:292 | distinct numbers have distinct decimal numerals |
| ColumnIdentifier.SinglesSound | build_tcvn3_map.py:43-48 | every character a score counts comes from a cell that is one character once stripped |
| ColumnIdentifier.SinglesComplete | build_tcvn3_map.py:43-48 | every cell that is one character once stripped is counted |
| ColumnIdentifier.Score | build_tcvn3_map.py:40-60 | a score `ok / cnt` (0.0 without candidates) lies in [0, 1]; it is 1 exactly when there are candidates and all qualify, and 0 exactly when none qualifies |
| ColumnIdentifier.FirstMax | build_tcvn3_map.py:62-63 | `max(columns, key=score)` picks a column of highest score, and the earliest one |
| ColumnIdentifier.FirstMaxExcept | build_tcvn3_map.py:68-72 | the first column of a stable descending sort other than the Unicode winner is the earliest best among the other columns |
| ColumnIdentifier.ChooseColumns | build_tcvn3_map.py:62-72 | the Unicode column is the first best; when one column wins both roles and there are two or more columns, the TCVN3 column differs from it and is the best other column |
| ColumnIdentifier.GuessColumns | build_tcvn3_map.py:62-78 | the corrected guess: it fails with `NoColumns` exactly on an empty table; on any other table it succeeds exactly when the chosen Unicode and TCVN3 columns both score at least 0.2, and fails with `LowScore` otherwise; a result is two in-range positions, the first best Unicode column and the TCVN3 column that choice leaves (the best other column on a tie), distinct when the table is at least two wide |
| ColumnIdentifier.ChooseColumnsUnique | build_tcvn3_map.py:62-72 | only one pair meets the two roles' description, the Unicode column being the first best and the TCVN3 column the best one it leaves |
| ColumnIdentifier.GuessVerdict | build_tcvn3_map.py:62-78 | for the first best Unicode column `u` and the TCVN3 column `c` it leaves, guessing succeeds exactly when both score at least 0.2, returns `(u, c)`, and otherwise fails with `LowScore` |
| ColumnIdentifier.GuessRejectsWeakTables | build_tcvn3_map.py:75-76 | when every column scores below 0.2 in either role, guessing raises |
| ColumnIdentifier.GuessFindsClearColumns | build_tcvn3_map.py:62-78 | a clear, distinct Unicode and TCVN3 winner, both at least 0.2, is exactly what is returned |
| ColumnIdentifier.GuessColumnsAsWritten | build_tcvn3_map.py:78 | whenever the corrected guess fails, the as-written guess fails with the same error |
| ColumnIdentifier.GuessAsWrittenDefaultLabels | build_tcvn3_map.py:78 | with pandas' default integer labels, the as-written guess returns the positions |
| ColumnIdentifier.Tcvn3Column | build_tcvn3_map.py:326-333 | the TCVN3 column is the first header containing "TCVN3" but not "HEX", and there is none exactly when no header qualifies |
| ColumnIdentifier.VietColumn | build_tcvn3_map.py:349-359 | the Viet column is the first column headed "VIET" or "V" (or an unmarked first column) with at least 3 accented one-character cells among its first 10 rows |
| ColumnIdentifier.UnicodeColumn | build_tcvn3_map.py:361-373 | the plain Unicode column is the first header containing "UNICODE" but not "HEX" |
| ColumnIdentifier.UnicodeHexColumn | build_tcvn3_map.py:361-373 | the hex column is the first header containing both "UNICODE" and "HEX" |
| ColumnIdentifier.HeaderColumns | build_tcvn3_map.py:321-379 | the header search reports no TCVN3 header exactly when there is none; otherwise its TCVN3 column is the first TCVN3 header |
| ColumnIdentifier.FindColumns | build_tcvn3_map.py:315-391 | the corrected search returns in-range columns whose TCVN3 column is always the first TCVN3 header; it returns nothing without one, and always returns a result when a Viet column, a "UNICODE" header or a "UNICODE ... HEX" header is present as well |
| ColumnIdentifier.HeaderSettles | build_tcvn3_map.py:326-377 | a TCVN3 header together with a header for the Unicode side leaves nothing to the guess |
| ColumnIdentifier.FindColumnsTcvn3 | build_tcvn3_map.py:328-391 | no header containing "TCVN3" without "HEX" means no result; with a result, the TCVN3 column is the first such header, in the fallback too |
| ColumnIdentifier.FindColumnsPrefersViet | build_tcvn3_map.py:349-377 | with a TCVN3 header and an accepted Viet column there is a result, and its Unicode column is the first Viet column, without the hex flag |
| ColumnIdentifier.FindColumnsUnicodeHeader | build_tcvn3_map.py:361-377 | with a TCVN3 header, no Viet column and a plain "UNICODE" header there is a result, and its Unicode column is the first such header, without the hex flag |
| ColumnIdentifier.FindColumnsHexHeader | build_tcvn3_map.py:361-377 | with a TCVN3 header, no Viet column, no plain "UNICODE" header and a "UNICODE ... HEX" header there is a result, read as hex codes from the first such header |
| ColumnIdentifier.FindColumnsHexFlag | build_tcvn3_map.py:349-379 | the hex flag is set exactly when there is no Viet column and no plain Unicode header but some "UNICODE ... HEX" header, and then the column is the first such header |
| ColumnIdentifier.FindColumnsFallback | build_tcvn3_map.py:381-391 | with no Unicode header, the search succeeds exactly when the guess does, taking the guessed Unicode column |
| ColumnIdentifier.FindColumnsAsWritten | build_tcvn3_map.py:381-391 | as written, a table whose columns the headers settle gets those columns |
| ColumnIdentifier.AsWrittenLosesNamedColumns | build_tcvn3_map.py:381-391 | when the guessed Unicode column carries a non-integer header, the as-written search loses the table while the corrected one keeps it |
| ColumnIdentifier.NamedExampleFinding | build_tcvn3_map.py:382-391 | for the table headed "SYMBOL", "TCVN3" the as-written search returns nothing and the corrected one returns columns 0 and 1 |
| ColumnIdentifier.TwoHeadersNeedGuess | build_tcvn3_map.py:321-379 | two headers with only the second naming TCVN3, no Unicode header and no Viet column leave the Unicode column to the guess |
| HexCodePoint.HexBodyPrefixed | build_tcvn3_map.py:396-398 | for hex digits `h`, the text `U+h` reaches `int()` as the upper-cased digits |
| HexCodePoint.ParseHexText | build_tcvn3_map.py:394-403 | `parse_unicode_hex` on hex digits `h`: `U+h` and bare `h` parse alike, to the character with code point `h` when that is a scalar value, and to nothing otherwise |
| HexCodePoint.NotationRoundTrip | build_tcvn3_map.py:394-403 | reading back the `U+XXXX` notation of any character gives that character |
| HexCodePoint.RejectsNonHex | build_tcvn3_map.py:399-403 | ASCII text with a character that is no hex digit and nothing `int()` or the "U" removal tolerates parses to nothing |
| EncodingRepair.TelltaleChars | build_tcvn3_map.py:120 | the telltale test holds exactly when the text contains 'Ã', 'â' or 'Â' |
| EncodingRepair.Latin1Encode | build_tcvn3_map.py:125 | ISO-8859-1 encoding succeeds exactly when every character is below U+0100, one byte per character |
| EncodingRepair.Latin1RoundTrip | build_tcvn3_map.py:125-127 | encoding the ISO-8859-1 reading of bytes gives the bytes back |
| EncodingRepair.DecodeFirst | build_tcvn3_map.py:127 | a strict UTF-8 decode step consumes 1 to 4 bytes; a non-ASCII lead byte consumes more than one, and then the next byte is a continuation byte |
| EncodingRepair.DecodeEncode | build_tcvn3_map.py:127 | strict UTF-8 decoding undoes UTF-8 encoding for every string |
| EncodingRepair.WholeTextFix | build_tcvn3_map.py:122-134 | the whole-text repair never lengthens the text |
| EncodingRepair.FixDoubleEncoding | build_tcvn3_map.py:106-159 | the repair never lengthens the text and returns empty text and text without a telltale unchanged |
| EncodingRepair.DecodePair | build_tcvn3_map.py:145-148 | 'Ã' followed by a byte in 0x80..0xBF decodes to the single character 0x40 above that byte |
| EncodingRepair.FixLeadingPair | build_tcvn3_map.py:138-153 | when the whole-text repair fails, a leading 'Ã' plus continuation character becomes one decoded character and the rest is repaired recursively |
| EncodingRepair.FixKeepsText | build_tcvn3_map.py:114-159 | text with no character in U+0080..U+00BF is never altered |
| EncodingRepair.WholeFixNeedsContinuation | build_tcvn3_map.py:124-134 | non-ASCII text without a continuation-range character never passes the whole-text repair |
| EncodingRepair.FixUndoesMojibake | build_tcvn3_map.py:106-134 | the repair undoes the corruption it targets: UTF-8 read as ISO-8859-1, with a telltale and more than 10 Vietnamese-range characters in the first 500, comes back as the original |
| MapBuilder.ParsedIfNotation | build_tcvn3_map.py:454-458 | a `U+` text becomes its one parsed character or stays as it is |
| MapBuilder.UnicodeText | build_tcvn3_map.py:449-464 | in a hex column the row is dropped exactly when the code point does not parse |
| MapBuilder.ParsedIfNotationIdempotent | build_tcvn3_map.py:460-464 | a second code-point conversion never changes what the first left |
| MapBuilder.SecondPassRedundant | build_tcvn3_map.py:454-464 | the second `U+` retry is redundant: the text is that of the first conversion |
| MapBuilder.RowPair | build_tcvn3_map.py:440-474 | a kept row's key is its stripped one-character TCVN3 cell, and its value is its stripped one-character Unicode cell or the parsed code point; a blank cell drops the row |
| MapBuilder.RowOfCharacters | build_tcvn3_map.py:466-474 | two plain one-character cells give exactly that pair |
| MapBuilder.RowOfCodePoint | build_tcvn3_map.py:449-464 | a `U+` Unicode cell that parses gives its character, whether the column is hex or not |
| MapBuilder.RowOfNotation | build_tcvn3_map.py:449-464 | a Unicode cell holding the `U+XXXX` notation of a character gives that character |
| MapBuilder.RowOfBadHex | build_tcvn3_map.py:449-452 | in a hex column, a cell that is no code point drops the row |
| MapBuilder.PairsOfRow | build_tcvn3_map.py:432-436 | a row gives at most one pair, and only when both chosen cells are present |
| MapBuilder.TablePairs | build_tcvn3_map.py:414-426 | a table gives at most one pair per row, and nothing when it is narrower than two columns |
| MapBuilder.Insert | build_tcvn3_map.py:472-473 | inserting a pair adds its key and no other; an existing entry is never overwritten, and a new key takes the pair's value |
| MapBuilder.FirstValueMeans | build_tcvn3_map.py:471-473 | the reference lookup gives the value of the earliest pair with the key, and nothing when no pair has it |
| MapBuilder.MergeLookup | build_tcvn3_map.py:472-474 | after merging, a key is present exactly when it was before or some pair gives it; an existing entry never changes; a new key takes the first pair's value |
| MapBuilder.MergeConcat | build_tcvn3_map.py:414-474 | merging two lists of pairs is merging one after the other |
| MapBuilder.MergeRow | build_tcvn3_map.py:440-474 | merging one row's pair is the row loop's test sequence |
| MapBuilder.BuildMapMeans | build_tcvn3_map.py:406-482 | building fails exactly when no row gives a pair; otherwise the map holds exactly the keys some row gives, each with the value of the first row in page order |
| MapBuilder.LaterTablesKeepEntries | build_tcvn3_map.py:471-473 | a later table never changes an entry an earlier table made |
| MapBuilder.MergeRows | build_tcvn3_map.py:440-474 | the row loop computes the merge of the table's pairs |
| MapBuilder.BuildTcvn3Map | build_tcvn3_map.py:406-482 | the table loop computes the built map, and fails exactly when no pair was found |
| Transducer.Tcvn3ToUnicode | convert_excel_tcvn3.py:208-224 | empty text, and any text read with an empty map, come back unchanged |
| Transducer.Tcvn3ToUnicodeSubstitutes | convert_excel_tcvn3.py:213-224 | the early returns agree with the substitution pass |
| Transducer.Convert | build_tcvn3_map.py:501-504 | the converter fails, with `KeyError`, exactly when the map is empty |
| Transducer.ConvertersAgree | build_tcvn3_map.py:501-504 | for a non-empty map the `make_converter` converter and `tcvn3_to_unicode` agree on every text |
| Transducer.SubstituteConcat | convert_excel_tcvn3.py:224 | substitution distributes over concatenation |
| Transducer.SubstituteIdentity | convert_excel_tcvn3.py:224 | text without a key passes through unchanged |
| Transducer.SubstitutePointwise | convert_excel_tcvn3.py:224 | with one-character values, the length is kept and each character is replaced in place |
| Transducer.SubstituteChanges | convert_excel_tcvn3.py:224 | with one-character values, the text changes exactly when it holds a key mapped to another character |
| Transducer.SubstituteAvoidsKeys | convert_excel_tcvn3.py:224 | when no value contains a key, converted text holds no key |
| Transducer.ConvertIdempotent | convert_excel_tcvn3.py:208-224 | when no value contains a key, converting twice is converting once |
| Transducer.AsMapping | build_tcvn3_map.py:472-473 | a character-to-character map read as a converter map keeps its keys and has one-character values |
| Transducer.Invert | convert_excel_tcvn3.py:224 | the reverse of an injective map sends each value back to its key and holds nothing else |
| Transducer.ReverseRoundTrip | convert_excel_tcvn3.py:224 | converting with an injective map and then with its reverse gives back any text in which no character is a value without being a key |
| Classifier.LooksLikeUnicodeVietnamese | convert_excel_tcvn3.py:147-152 | blank text looks like Unicode |
| Classifier.HasLetterMeans | convert_excel_tcvn3.py:156-161 | the first scan finds a letter exactly when some character is alphabetic |
| Classifier.AllUsualMeans | convert_excel_tcvn3.py:168-178 | the second scan passes exactly when every character is whitelisted or of category Z, P, C or S |
| Classifier.LooksLikeMeans | convert_excel_tcvn3.py:133-178 | text looks like Unicode exactly when it is blank, has no letter, or has only usual characters |
| Classifier.AsciiLooksUnicode | convert_excel_tcvn3.py:133-178 | plain ASCII text is never taken for TCVN3 |
| Classifier.WhitelistedLooksUnicode | convert_excel_tcvn3.py:168-178 | text made only of whitelisted characters looks like Unicode |
| Classifier.StrayLetterFlags | convert_excel_tcvn3.py:168-177 | one letter outside the whitelist makes the text a conversion candidate |
| Classifier.ExampleTcvn3Flagged | test_unicode_filter.py:11 | "Hµ Néi" is a conversion candidate when `µ` is a letter |
| Classifier.ExampleUnicodeKept | test_unicode_filter.py:10 | "Hà Nội" is not a conversion candidate |
| Classifier.WithoutSeparatorsChars | convert_excel_tcvn3.py:196 | the separator removal keeps exactly the characters other than `. , - / :` |
| Classifier.WithoutSeparatorsHas | convert_excel_tcvn3.py:196 | a character survives the removal exactly when it occurs and is no separator |
| Classifier.IsLikelyNonTextContent | convert_excel_tcvn3.py:190-202 | blank text, and text with no alphanumeric character once stripped, is not text |
| Classifier.NumbersAreNonText | convert_excel_tcvn3.py:195-197 | numbers, dates and times made of ASCII digits and separators are not text |
| Classifier.LetterMakesText | convert_excel_tcvn3.py:196-205 | text holding an ASCII letter is text |
| Classifier.MixedContentIsText | convert_excel_tcvn3.py:195-205 | stripped text with an alphanumeric character and a character that is neither a digit nor a separator is text |
| Classifier.AlphaMakesText | convert_excel_tcvn3.py:195-205 | text holding any letter, ASCII or not, is text |
| Classifier.ExampleMixedDigits | convert_excel_tcvn3.py:195-205 | "1 2" and "12#" are text |
| Classifier.NonTextLooksUnicode | convert_excel_tcvn3.py:181-205 | whatever is not text is never a conversion candidate |
| Orchestrator.CellOutcome | convert_excel_tcvn3.py:286-328 | a cell is "not a string" exactly when it is not text or is blank; a non-blank text cell is skipped exactly when skipping is on, it looks like Unicode and the selection does not say `False` for it; a cell not skipped is converted exactly when the conversion changes it, and the converted text is that conversion |
| Orchestrator.ConvertedSheet | convert_excel_tcvn3.py:309-330 | a sheet is written back under its name with as many rows |
| Orchestrator.ProgressEvents | convert_excel_tcvn3.py:272-274 | there is one progress call per sheet |
| Orchestrator.StepKeeps | convert_excel_tcvn3.py:283-328 | one cell keeps text cells split into skipped, converted and unchanged, one log record per conversion, and every record sound |
| Orchestrator.RowFoldKeeps | convert_excel_tcvn3.py:281-328 | a row keeps the statistics balanced and the log sound |
| Orchestrator.RowsFoldKeeps | convert_excel_tcvn3.py:280-328 | a sheet's rows keep the statistics balanced and the log sound |
| Orchestrator.SheetsFoldKeeps | convert_excel_tcvn3.py:272-328 | whole sheets keep the statistics balanced and the log sound |
| Orchestrator.RowFoldCounts | convert_excel_tcvn3.py:281-283 | a row counts each of its cells and no sheet |
| Orchestrator.RowsFoldCounts | convert_excel_tcvn3.py:280-283 | a sheet's rows count each of their cells and no sheet |
| Orchestrator.SheetsFoldCounts | convert_excel_tcvn3.py:272-283 | whole sheets count their cells and themselves |
| Orchestrator.ConversionStatsSound | convert_excel_tcvn3.py:272-328 | after a conversion, `string_cells` is the sum of the three outcomes, the log has one record per converted cell, every record is a real change with a 1-based row, `Col_` name and was-Unicode flag, every cell is counted, and `sheets_processed` is the sheet count |
| Orchestrator.OnlyConvertedCellsChange | convert_excel_tcvn3.py:307-328 | a cell is written back unchanged or as the conversion of its non-blank text |
| Orchestrator.NoSkipConvertsAll | convert_excel_tcvn3.py:295-309 | with skipping off, every non-blank text cell is written back converted |
| Orchestrator.SkipOnConvertsTcvn3 | convert_excel_tcvn3.py:292-309 | with skipping on, non-blank text that does not look like Unicode is written back converted |
| Orchestrator.UnchosenUnicodeSkipped | convert_excel_tcvn3.py:292-300 | a Unicode-looking cell absent from the selection is skipped and kept |
| Orchestrator.ChosenUnicodeConverted | convert_excel_tcvn3.py:295-309 | a cell the selection marks `False` is converted even when it looks like Unicode |
| Orchestrator.CellIdInjective | convert_excel_tcvn3.py:292 | a cell identifier names one cell only |
| Orchestrator.ConvertRow | convert_excel_tcvn3.py:281-328 | the column loop computes the row's statistics and the row written back |
| Orchestrator.ConvertSheet | convert_excel_tcvn3.py:280-330 | the row loop computes the sheet's statistics and the sheet written back |
| Orchestrator.ConvertExcel | convert_excel_tcvn3.py:269-330 | the sheet loop computes the statistics, each sheet written back, and one progress call per sheet with its 0-based index and the sheet count |
| Orchestrator.Entry | convert_excel_tcvn3.py:389-405 | a cell has a preview record exactly when it is non-blank text, Unicode or not; the record names the sheet, 1-based row, column, text, its conversion and the was-Unicode flag |
| Orchestrator.Take | convert_excel_tcvn3.py:384-413 | sampling keeps a prefix: everything without a limit, nothing for a limit of 0 or less, otherwise as many records as the limit allows |
| Orchestrator.TakeTake | convert_excel_tcvn3.py:384-413 | records cut off by the limit stay cut off |
| Orchestrator.TakeFull | convert_excel_tcvn3.py:408-413 | once the limit is reached, nothing more is taken |
| Orchestrator.PreviewCellStep | convert_excel_tcvn3.py:384-405 | below the limit, a cell's record is appended |
| Orchestrator.PreviewCellStop | convert_excel_tcvn3.py:384-385 | the limit reached before a cell: the rest of the row adds nothing |
| Orchestrator.PreviewRowStop | convert_excel_tcvn3.py:408-409 | the limit reached after a row: the rest of the sheet adds nothing |
| Orchestrator.PreviewSheetStop | convert_excel_tcvn3.py:412-413 | the limit reached after a sheet: the remaining sheets add nothing |
| Orchestrator.PreviewRow | convert_excel_tcvn3.py:382-405 | the column loop, checking the limit before each cell, takes the first records up to the limit |
| Orchestrator.PreviewSheet | convert_excel_tcvn3.py:381-409 | the row loop, checking the limit after each row, takes the first records up to the limit |
| Orchestrator.Preview | convert_excel_tcvn3.py:357-415 | `preview_conversion` returns the first `max_samples` records of the non-blank text cells in sheet, row and column order |
| Orchestrator.RowFoldLogs | convert_excel_tcvn3.py:307-326 | a row's conversion logs exactly its preview records that it would convert, in order |
| Orchestrator.SheetsFoldLogs | convert_excel_tcvn3.py:272-326 | a conversion logs exactly the preview records it would convert, in order |
| Orchestrator.LogIsFilteredPreview | convert_excel_tcvn3.py:286-405 | the conversion log is the unlimited preview without the records the conversion skips or leaves unchanged |

## Left out

- Fetching and parsing the web page (`fetch_html`, `extract_tables`, `debug_headers`), saving and loading the map files, and the command line: network, HTML and file I/O. The tables arrive as `ColumnIdentifier.Table` values.
- Reading and writing workbooks with pandas and openpyxl, cell highlighting, and `export_conversion_log`: file I/O. The workbook arrives as a sequence of `Orchestrator.Sheet` values, and the sheets written back are returned.
- `load_tcvn3_map` with its JSON/CSV loading, subprocess build and global cache: file and process I/O. The map is a parameter.
- The progress callback being `None`: the model always records the progress calls, which is what a callback would receive.
- The regular expression of `tcvn3_to_unicode` and `make_converter` is modelled as one lookup per character. This is exact for the maps the builder writes, whose keys are single characters. A map with longer keys, loaded from a hand-edited file, is not modelled.
- HexCodePoint.ParseUnicodeHex: a surrogate code point gives nothing, because a Dafny `char` cannot hold one, while Python's `chr()` returns a lone surrogate.
- PyStr.ParseInt: `int()` also accepts non-ASCII decimal digits; the model reads only ASCII digits and letters.
- PyStr.Upper and the header comparisons: the case mapping of non-ASCII characters is abstract (`CharDb`). Headers are compared after the upper-casing that `find_unicode_tcvn3_columns` applies twice.
- `guess_cols` scores are Dafny `real`s. Python's floating-point division is exact enough for the 0.2 threshold on the table sizes concerned, but rounding is not modelled.
- Duplicate column labels, which would make `df[c]` a frame rather than a column, are not modelled: each label names one column.
- EncodingRepair.FixDoubleEncoding: Python's recursion limit is not modelled. The pair path (build_tcvn3_map.py:138-153) recurses once per pair, and after about 1000 levels `RecursionError` is caught at line 156, so that frame's text is returned unrepaired (line 159). For example, "Ã\u0080" repeated 1000 times and then "ế" keeps its last pairs in Python, but the model repairs all of them. The `isinstance(text[1], str)` test is always true for a string and is not modelled.
- The user interface, licensing, backups and the review dialog live in gui_converter.py, which is not part of this model. Neither are the demo scripts.

## Findings

| source | as written | input that shows it | evidently intended | confidence | as-written member | corrected member |
|---|---|---|---|---|---|---|
| build_tcvn3_map.py:78 | `guess_cols` returns `int(uni_idx), int(tcvn_idx)`, the column LABELS converted to integers. `find_unicode_tcvn3_columns` calls it (lines 382-391) on tables that carry header labels, where `int("SYMBOL")` raises `ValueError` and the exception turns the result into `None` | a table headed "SYMBOL", "TCVN3" with rows ("À", "µ") and ("Ã", "¸"): the TCVN3 header is found, no Unicode header or Viet column exists, and the guess picks column 0, but the table is dropped | return the column positions, so that the fallback yields the guessed Unicode column 0 with the TCVN3 column 1 | not executed | ColumnIdentifier.FindColumnsAsWritten | ColumnIdentifier.FindColumns |

`ColumnIdentifier.NamedExampleFinding` proves both halves for this input, and `ColumnIdentifier.AsWrittenLosesNamedColumns` proves the loss for every such table. The map builder uses the corrected search.

Two places where the code, followed here, differs from its prose description:

- The whole-text repair of `fix_double_encoding` is kept when the first 500 repaired characters include more than 10 in U+00C0..U+1EF9. It is not kept merely because it has more such characters than the input.
- When one column wins both scores, `guess_cols` keeps it as the Unicode column and moves the TCVN3 role to the best other column.
