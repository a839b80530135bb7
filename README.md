# Wine CSV converter — a Dafny model

`wine_converter_app.py` is a small Streamlit tool. It reads a catalogue of
wines from a CSV file and writes it out as one JSON document. The document
holds the wines plus a fixed list of steaks and sommelier suggestions. This
project models the conversion core of that tool and proves what it does:

- **Text cleaning** (`clean_text`), module `TextClean` in `text.dfy`.
  - Blank cells (missing, empty, all whitespace, or the text `nan` in any
    case) clean to `""`.
  - One pair of wrapping double quotes is removed.
  - In the default mode, the text is stripped and each whitespace run
    becomes one space.
  - In the line-preserving mode (used for the harmonization field), line
    breaks are normalised to `\n`. Each line is stripped, and empty lines
    are dropped.
- **Number parsing** (`parse_number`), module `Numbers` in `numbers.dfy`.
  - On the integer path, the leftmost free-standing 4-digit year wins.
    Failing that, the whole cleaned text is read as a decimal literal and
    truncated toward zero. Anything else gives no value.
  - On the percentage path, the first run of digits and points is read as
    a decimal and divided by 100.
- **Conversion** (`convert_csv_to_json`), module `Converter` in
  `convert.dfy`. This is an imperative method with two loops.
  - The first loop maps each recognised header (compared after cleaning
    and lower-casing) to its column index. When two columns name the same
    field, the later one wins.
  - The second loop builds one record per row. A field with no header
    falls back to a fixed column. A column past the end of the row reads
    as `""`.
  - Records with neither a name nor a non-zero id are dropped.
- **The full document** (`create_full_json_structure`), also in
  `convert.dfy`. It wraps the wines together with the constant steaks and
  suggestions.

`option.dfy` defines the `Option` type used throughout.

Each operation has a partner stated independently of how it computes:

- `Words` and `Lines` describe what the two cleaning modes keep.
- `Render` is the inverse of decimal parsing. `LeftmostRun` describes the
  token the percentage path reads.
- `HeaderMapping` and `Selected` restate the two loops of the conversion as
  recursion, and the method is proved equal to them. The independent
  description of the loops is `MappingOfLastWins` (each field maps to the
  last column that names it) together with `SelectedMembers` (a record is
  output exactly when some row builds it and it has a name or an id).

### Cleaning twice

One might expect cleaning a cleaned value to change nothing. The code does
not behave that way, and the model follows the code:

- `TextClean.CleanTextNotIdempotent` shows the quote case. Cleaning
  `""w""` gives `"w"`, and cleaning that again gives `w`.
- `TextClean.CleanTextExposesNan` shows the nan case. Cleaning `"nan"`
  gives `nan`, and cleaning that again gives `""`.
- `TextClean.CleanTextIdempotent` proves idempotence for every result that
  is neither wrapped in quotes nor a `nan`.

An edge case of the blank test: it runs before stripping, so `" nan"` is
not blank and cleans to `nan` (`TextClean.CleanTextNanNotTrimmed`).

## Model

| member | source | states |
|---|---|---|
| TextClean.StripParts | wine_converter_app.py:30 | `str.strip()`: the text is some whitespace, then the stripped result, then more whitespace; the result itself neither starts nor ends with whitespace |
| TextClean.StripEmpty | wine_converter_app.py:9 | `str(text).strip() == ''` holds exactly when every character is whitespace |
| TextClean.IsBlank | wine_converter_app.py:9 | the blank test `not text or str(text).strip() == '' or str(text).lower() == 'nan'`; StripEmpty and BlankExamples characterise it |
| TextClean.CleanText | wine_converter_app.py:7-31 | the model of `clean_text`; its behaviour is stated by CleanTextBlank, CleanTextSingleLine, CleanTextMultiLine and the lemmas after them |
| TextClean.CleanTextBlank | wine_converter_app.py:9-10 | a missing cell, an all-whitespace text or a text that lower-cases to `nan` cleans to `""` in both modes |
| TextClean.BlankExamples | wine_converter_app.py:9-10 | a missing cell, `""`, `" \t\r\n"`, `"NaN"` and `"NAN"` are all blank |
| TextClean.UnquoteWrapped | wine_converter_app.py:15-16 | exactly one wrapping pair of quotes comes off, whatever lies inside (quotes and whitespace included) |
| TextClean.CleanTextUnquotesOnce | wine_converter_app.py:14-16 | a quoted whitespace-free word cleans to the word itself |
| TextClean.LoneQuote | wine_converter_app.py:9-16 | a lone `"` is not blank, yet cleans to `""` in both modes |
| TextClean.CleanTextEmptyInside | wine_converter_app.py:14-31 | a cell that is empty once unquoted cleans to `""` in both modes |
| TextClean.CleanTextNanNotTrimmed | wine_converter_app.py:9-10 | the blank test runs before stripping: `" nan"` is not blank and cleans to `nan` |
| TextClean.CollapseStripIsJoinWords | wine_converter_app.py:30 | stripping, then collapsing whitespace runs to one space, gives the text's words joined by single spaces |
| TextClean.CleanTextSingleLine | wine_converter_app.py:28-31 | the default mode returns a single-spaced text (stripped, every whitespace character a lone `' '`); for a non-blank cell it is the words of the unquoted text joined by `' '` |
| TextClean.NormalizeNewlines | wine_converter_app.py:21 | no `\r` is left after `\r\n` and `\r` become `\n` |
| TextClean.Split | wine_converter_app.py:23 | `split('\n')` gives at least one piece, and no piece holds the separator |
| TextClean.SplitOfJoin | wine_converter_app.py:23-27 | splitting a join of separator-free pieces gives the pieces back |
| TextClean.SplitNormalizedIsLines | wine_converter_app.py:21-23 | normalising the line breaks and then splitting on `\n` gives the physical lines of the text (split at `\r\n`, `\r` or `\n`) |
| TextClean.NonEmptyMembers | wine_converter_app.py:25 | a line is kept exactly when it is one of the input lines and is not empty |
| TextClean.NonEmptyAppend | wine_converter_app.py:25 | filtering two blocks of lines gives the two filtered blocks one after the other, so order is kept |
| TextClean.CleanTextMultiLine | wine_converter_app.py:18-27 | the line-preserving mode joins, with `\n`, the stripped non-empty physical lines of the unquoted text; the result has no `\r` and is stripped; it is empty exactly when no line is kept; otherwise splitting it at `\n` gives those lines back |
| TextClean.CleanTextOfClean | wine_converter_app.py:7-31 | a non-empty single-spaced text, not quoted and not `nan`, cleans to itself |
| TextClean.CleanTextIdempotent | wine_converter_app.py:7-31 | in both modes, cleaning a result again leaves it unchanged, provided the result is not wrapped in quotes and is not `nan` |
| TextClean.CleanTextNotIdempotent | wine_converter_app.py:14-16 | a doubly quoted word cleans to the singly quoted word, which then cleans to the bare word: cleaning is not idempotent |
| TextClean.CleanTextExposesNan | wine_converter_app.py:9-16 | a quoted `nan` cleans to `nan`, which then cleans to `""` |
| Numbers.DigitsOfValue | wine_converter_app.py:47 | the value of the digits written for n in a given width (n below 10^width) is n |
| Numbers.ValueDigitsOf | wine_converter_app.py:47 | writing a digit string's value back in the same width gives the string back (leading zeros kept) |
| Numbers.FindYearFrom | wine_converter_app.py:45 | the search finds a position where a 4-digit run starts with no word character on either side, and no such position lies before it; when the search fails, there is none |
| Numbers.YearValue | wine_converter_app.py:47 | a year's value is below 10000 |
| Numbers.YearIsMatchedText | wine_converter_app.py:45-47 | the returned year, written with 4 digits, is exactly the matched text |
| Numbers.ParseCleanedInt | wine_converter_app.py:41-57 | the integer path on a cleaned text; ParseCleanedIntCases states its outcomes |
| Numbers.ParseInt | wine_converter_app.py:33-57 | `parse_number(text)`: None for a blank cell, otherwise the integer path on the cleaned text; ParseIntBlank and ParseOfClean state it |
| Numbers.ParseDecimal | wine_converter_app.py:49 | a successful parse gives a well-formed decimal: an optional sign, then digits and an optional point with digits, with at least one digit |
| Numbers.ParseDecimalSound | wine_converter_app.py:49 | a parsed decimal renders back to the text it came from |
| Numbers.ParseDecimalComplete | wine_converter_app.py:49 | every well-formed decimal parses back from its rendering |
| Numbers.ParseDecimalIff | wine_converter_app.py:49 | a text parses to d exactly when d is well-formed and renders as that text |
| Numbers.TruncateTowardZero | wine_converter_app.py:49 | `int()` truncates toward zero: the result is at most the exact value and within 1 of it for non-negative literals; for negative literals it is at least the value and within 1 |
| Numbers.ParseCleanedIntCases | wine_converter_app.py:41-57 | on the integer path, the leftmost year wins; with no year, a text that renders a well-formed decimal gives its truncation; otherwise the result is None |
| Numbers.ParseCleanedIntYearRange | wine_converter_app.py:45-47 | when a year is found, the result is in 0..9999 |
| Numbers.ParseIntBlank | wine_converter_app.py:35-36 | a blank cell parses to None |
| Numbers.FirstNumToken | wine_converter_app.py:52 | a token found is a non-empty slice of the text made of digits and points, with none before it and none right after it; with no token, the text holds no digit and no point |
| Numbers.FirstNumTokenLeftmost | wine_converter_app.py:52 | whenever the text has a leftmost maximal run of digits and points, that run is the token found |
| Numbers.ParsePercent | wine_converter_app.py:50-57 | `parse_number(text, is_float=True)`: None for a blank cell, otherwise the percentage path on the cleaned text |
| Numbers.ParseCleanedPercentCases | wine_converter_app.py:50-57 | on the percentage path, no digit and no point gives None; a leftmost run that renders a well-formed decimal gives its value divided by 100; a run that is no decimal gives None |
| Numbers.NumTokenUnsigned | wine_converter_app.py:52-54 | a token of digits and points never parses with a sign |
| Numbers.ParseCleanedPercentNonNegative | wine_converter_app.py:52-54 | the percentage path never gives a negative value |
| Numbers.ParseCleanedPercentTwoPoints | wine_converter_app.py:52-57 | `"1.2.3"` is one token that `float()` rejects, so the result is None |
| Numbers.ParseOfClean | wine_converter_app.py:35-39 | for a text that is already clean, both paths parse the text itself |
| Numbers.HarvestExample | wine_converter_app.py:33-47 | `"Harvest: 2018 vintage"` gives 2018 |
| Numbers.NoNumberExample | wine_converter_app.py:33-57 | `"abc"` gives None on both paths |
| Numbers.YearBoundaryExample | wine_converter_app.py:45-57 | `"2018abc"` has no year (a letter follows the digits) and is no decimal, so it gives None |
| Numbers.NegativeTruncationExample | wine_converter_app.py:49 | `"-2.7"` gives -2 |
| Numbers.PercentExample | wine_converter_app.py:52-54 | `"13.5%"` gives 0.135 |
| Converter.FieldOfHeader | wine_converter_app.py:66-92 | a header names a field exactly when it equals that field's key; names that match no key are ignored |
| Converter.FieldOfHeaderKey | wine_converter_app.py:66-92 | every field's key is recognised as that field |
| Converter.Recognized | wine_converter_app.py:66-92 | the field a header names after `clean_text` and `.lower()`; RecognizedQuoted and FieldOfHeader state it |
| Converter.RecognizedQuoted | wine_converter_app.py:66 | headers are compared after cleaning and lower-casing: a quoted word in any letter case names the field its lower-cased form names |
| Converter.DefaultColumnInjective | wine_converter_app.py:98-112 | the fixed fallback layout (id at 0 through tasteDescription at 12) gives every field a column of its own |
| Converter.MappingOfLastWins | wine_converter_app.py:64-92 | a field is mapped exactly when some entry names it, and then it is mapped to the last such entry |
| Converter.HeaderMappingLastWins | wine_converter_app.py:64-92 | a field is in the header mapping exactly when some column's header names it; its index is the last such column |
| Converter.HeaderMappingIgnores | wine_converter_app.py:65-92 | a header that names no field leaves the mapping unchanged |
| Converter.HeaderMappingSnoc | wine_converter_app.py:65-92 | each step of the header loop sets the named field to the current index, or changes nothing |
| Converter.BuildWine | wine_converter_app.py:97-113 | the record of one row: each field read from its mapped or fallback column, numbers parsed, texts cleaned (harmonization keeping line breaks), price and importer None; MissingColumnReadsEmpty and SelectedRecords state it |
| Converter.Keep | wine_converter_app.py:116 | `wine['name'] or wine['id']`: a non-empty name, or an id that is present and non-zero |
| Converter.MissingColumnReadsEmpty | wine_converter_app.py:98-112 | a field whose column, from its header or its fallback position, is past the row's end reads as `""`: no number on either path, an empty text in both modes |
| Converter.KeptRecordsMembers | wine_converter_app.py:115-117 | a record is kept exactly when it is in the input and has a name or a non-zero id |
| Converter.KeptRecordsAppend | wine_converter_app.py:115-117 | filtering distributes over concatenation, so order is preserved |
| Converter.SelectedLength | wine_converter_app.py:94-119 | there are never more wines than rows |
| Converter.SelectedAppend | wine_converter_app.py:94-119 | converting two blocks of rows gives the two results one after the other |
| Converter.SelectedMembers | wine_converter_app.py:94-119 | a record is in the output exactly when some row builds it and it has a name or a non-zero id |
| Converter.SelectedRecords | wine_converter_app.py:108-117 | every output record has a name or a non-zero id, and has no price and no importer |
| Converter.SelectedSnoc | wine_converter_app.py:95-117 | each row appends its record when the record has a name or an id, and otherwise nothing |
| Converter.DropsNamelessRow | wine_converter_app.py:115-117 | a row with a blank name and an id that is missing or 0 yields no record |
| Converter.ConvertCsvToJson | wine_converter_app.py:59-119 | the method's two loops compute the selection of the rows' records under the header mapping; there are at most as many wines as rows, and each has a name or an id and no price or importer |
| Converter.CreateFullJsonStructure | wine_converter_app.py:121-201 | the wines pass through unchanged; there are 4 steaks with distinct ids, each its own referral id and priced 0; there are 3 suggestions, each pointing to one of the steaks |

## Left out

- The Streamlit user interface (`main`, lines 204-348) is left out: page setup, file upload, `st.*` widgets, previews and the download button are I/O.
- Reading the CSV with `pandas.read_csv` and writing with `json.dumps` are left out. The converter takes the header names and the rows as values. A cell is either missing (`Absent`, pandas' NaN, whose `str()` is `nan`) or a text. Rows may differ in length, which pandas would not produce.
- Cells that pandas reads as numbers are kept as their text. The model does not reproduce pandas' number formatting (for example `2018.0` for a float column), nor falsy non-text values such as `0`.
- Unicode is left out of matching. `\d`, `\w` (and so `\b`) and `lower()` are ASCII-only here, while Python's apply to all of Unicode. Whitespace is Python's full `str.isspace` set.
- Numbers.ParseCleanedInt: `int(float(...))` is modelled on exact decimals. Float rounding of long literals, exponents (`1e3`), digit-group underscores and the `inf`/`nan` spellings are not modelled, and the model gives None for those spellings. Python raises an uncaught `OverflowError` for `inf` and a caught `ValueError` for `nan`.
- Numbers.ParseCleanedPercent: the value is computed exactly in `real`, not as a binary float. When the text holds no digit and no point, the fallback `float(cleaned)` could succeed only for the `inf`/`nan` spellings. The model gives None there.
- Exceptions are not modelled as raised. A successful parse gives `Some`, and every failure, caught or not, gives `None`.
