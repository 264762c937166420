# Excel/CSV to SQL INSERT generator — a Dafny model

The generator reads a `.csv` or `.xlsx` file and writes a `.sql` script holding
one `INSERT INTO <table> (<columns>) VALUES` statement with one tuple per data
row. This project models its core (`core/generate.py`) in Dafny and proves
what the script contains:

- **Validation** (`validation.dfy`): `validate_files`. A missing file is
  reported first. After that, a file passes exactly when its lower-cased name
  ends in `.csv` or `.xlsx`.
- **Sanitize** (`sanitize.dfy`): `_sanitize_column_name`. It strips
  surrounding whitespace and replaces each maximal run of non-word characters
  (`\W+`) by one `_`. The result is wrapped in backticks.
- **Literal** (`literal.dfy`): the expression that turns one cell into a SQL
  literal. A string is quoted with its quotes doubled, a null value becomes
  `NULL`, and anything else becomes its `str()` text. A SQL string lexer and
  a literal reader serve as independent partners: they read a rendered
  literal back as the cell it came from. For unquoted text, the reader takes
  everything up to the next `,` or `)`. It is not a SQL tokenizer; see
  "## Left out".
- **Script** (`script.dfy`): `generate_insert_queries`. The header comment,
  the statement head, the loop that builds one tuple per row, the joined
  tuples and the footer. The file written is modelled as the string that the
  successive writes build (`Script`). Readers for the column list, the
  tuples and the whole statement prove three things:
  - the columns are the sanitised headers, in file order;
  - each row appears once, in order, with one literal per value;
  - the table name follows `INSERT INTO` exactly as given.
- **Text** (`text.dfy`): `str.join`, suffix and prefix tests, and ASCII
  `str.lower`.

What the generator does not do, and this model does not either:

- It does not parse `CREATE TABLE`, does not order tables by foreign keys,
  and has no `id` surrogate key.
- Literals are not formatted by column type. The only dispatch is on the
  value: `str`, null, or anything else.
- The table name is written as given. It is neither sanitised nor
  backtick-quoted; only the column names are.
- A null value in a string column is not a `str`, so it becomes `NULL`. The
  string `"NULL"` is quoted.
- Only `str` values are quoted. Any other non-null value is written as its
  `str()` text, unquoted. A date from a spreadsheet, which pandas delivers as
  a timestamp, is written as `2024-01-05 10:00:00`, and SQL does not read
  that as one value.
- The footer follows the statement's closing `;` and line break. It writes
  two more line breaks, which leave two blank lines. Then come the two
  123-dash rule strings with no break between them, so they form one line of
  246 dashes. A blank line ends the file.

The string lexer reads SQL's standard quote doubling: `''` stands for one
quote, and a backslash is an ordinary character. A server that treats a
backslash as an escape, such as MySQL in its default mode, would read the
generated literal differently when a string holds a backslash. No property
here is claimed for such a reader.

## Model

| member | source | states |
|---|---|---|
| Validation.ValidateFile | core/generate.py:22-29 | A missing file fails with `MissingFile(path)` whatever its name. An existing file passes when its lower-cased name ends in `.csv` or `.xlsx`, and otherwise fails with `WrongFormat`. |
| Validation.ValidateFileAccepts | core/generate.py:27 | An existing file passes exactly when its name ends in `.csv` or `.xlsx` in any letter case. Both directions are proved, without `lower()`. |
| Validation.EndsWithLower | core/generate.py:27 | Testing the lower-cased name against a lower-case suffix is the same as a case-insensitive suffix test on the name itself. |
| Validation.HasSupportedExtension | core/generate.py:27 | The extension test: the lower-cased path ends in `.csv` or `.xlsx`. |
| Validation.AcceptedFileHasOneReader | core/generate.py:34-37 | For a file that passed validation, exactly one of the CSV and Excel reader tests holds. |
| Validation.RejectedNames | core/generate.py:24-29 | `sheet.xls` and `data.csv.bak` are refused as the wrong format. A `data.csv` that does not exist is reported as missing. |
| Text.Join | core/generate.py:62 | `sep.join(xs)`: the strings in order, with the separator between neighbours and nowhere else. With no strings it is empty. The same join is used at lines 72 and 75. |
| Text.Lower | core/generate.py:27 | `lower()` keeps the length; each capital letter A-Z becomes its lower-case letter and every other character is kept. |
| Sanitize.TrimStartSpec | core/generate.py:48 | The left part of `strip()` is a suffix of the input. What it drops is all whitespace, and what it keeps does not start with whitespace. |
| Sanitize.TrimEndSpec | core/generate.py:48 | The right part of `strip()` is a prefix of the input. What it drops is all whitespace, and what it keeps does not end with whitespace. |
| Sanitize.Strip | core/generate.py:48 | The result of `strip()` has no whitespace at either end and is no longer than the input. |
| Sanitize.StripSlice | core/generate.py:48 | `strip()` returns a contiguous slice of the input with only whitespace before and after it. With `Strip`'s contract, this fixes the result. |
| Sanitize.StripSurrounded | core/generate.py:48 | `strip()` of a trimmed text between two whitespace runs is that text. |
| Sanitize.SkipNonWordSpec | core/generate.py:48 | A match of `\W+` extends over the whole prefix of non-word characters and stops at a word character. |
| Sanitize.Collapse | core/generate.py:48 | `re.sub(r'\W+', '_', s)`: word characters are copied, and each maximal run of non-word characters, matched leftmost first, becomes one `_`. Its contract only bounds the length; the lemmas that follow state what it means. |
| Sanitize.CollapseAllWord | core/generate.py:48 | After `re.sub(r'\W+', '_', …)` only word characters remain. |
| Sanitize.CollapseWord | core/generate.py:48 | A string made only of word characters is left unchanged by the substitution. |
| Sanitize.CollapseIdempotent | core/generate.py:48 | Applying the substitution twice gives the same result as applying it once. |
| Sanitize.CollapseAppend | core/generate.py:48 | After a word character, no match crosses the boundary, so the substitution works on each side separately. |
| Sanitize.CollapseMaximalRun | core/generate.py:48 | A maximal run of non-word characters between word characters or string ends becomes exactly one `_`, and nothing else changes. |
| Sanitize.CollapseTwoWords | core/generate.py:48 | Two words around a non-word run become the two words joined by `_`. |
| Sanitize.SanitizeColumnName | core/generate.py:45-49 | The result is a backtick, then word characters only, then a backtick. Its inner text is the stripped-then-substituted header. |
| Sanitize.SanitizeColumns | core/generate.py:39 | The list comprehension over the headers: each header sanitised, in header order. |
| Sanitize.SanitizeColumnsLength | core/generate.py:39 | There is one column per header. |
| Sanitize.SanitizeColumnsAt | core/generate.py:39 | Column `i` is the sanitised name of header `i`. |
| Sanitize.SanitizeWordName | core/generate.py:45-49 | A header made only of word characters comes back unchanged inside backticks. |
| Sanitize.SanitizeTrimmed | core/generate.py:45-49 | For a header with no surrounding whitespace, sanitising is the substitution alone, inside backticks. |
| Sanitize.SanitizeIgnoresSurroundingSpace | core/generate.py:45-49 | Whitespace around a header does not change its sanitised name, so it never turns into `_`. |
| Sanitize.SanitizeTwoWords | core/generate.py:45-49 | Two words separated by any run of spaces or punctuation become `` `w1_w2` ``. |
| Sanitize.CleanIdempotent | core/generate.py:48 | Stripping and substituting a second time changes nothing. |
| Literal.Escape | core/generate.py:68 | `replace("'", "''")` leaves quotes only in adjacent pairs and never shortens the text. |
| Literal.UndoubleEscape | core/generate.py:68 | Undoubling the quotes reverses the escaping. |
| Literal.EscapeUndouble | core/generate.py:68 | Every text whose quotes come in pairs is the escaping of its undoubling. With UndoubleEscape, it is the escaping of exactly one string. |
| Literal.EscapeNoQuote | core/generate.py:68 | A string without quotes is copied through unchanged. |
| Literal.Render | core/generate.py:67-71 | A string cell becomes a quoted literal with paired quotes inside, never the bare word `NULL`. A null cell becomes `NULL`. Any other cell becomes its `str()` text, unquoted, whatever that text is. |
| Literal.StrRoundTrip | core/generate.py:68 | Removing the outer quotes of a rendered string and undoubling gives back the string. |
| Literal.RenderStrInjective | core/generate.py:68 | Distinct strings render as distinct literals. |
| Literal.RenderNullString | core/generate.py:68-69 | The string test comes before the null test: the string `NULL` is quoted, and a null value is the bare `NULL`. |
| Literal.LexBodySound | core/generate.py:68 | Whatever a SQL string lexer reads is the escaping of the content it returns, followed by the closing quote. |
| Literal.LexEscaped | core/generate.py:68 | From an escaped string and its closing quote, the lexer reads back exactly that string and stops at the closing quote. |
| Literal.ReadRender | core/generate.py:67-71 | A readable rendered cell reads back as that cell, when followed by `,` or `)`. Every string and null cell is readable; any other cell is readable only when its `str()` text is plain. |
| Literal.ReadRenderStr | core/generate.py:68 | A rendered string reads back as that string. |
| Literal.ReadRenderNull | core/generate.py:69 | `NULL` reads back as the null cell. |
| Literal.ReadRenderOther | core/generate.py:69 | The plain `str()` text of any other value reads back as that text. |
| Literal.CommaBreaksOther | core/generate.py:69 | A `str()` text that is not plain does not read back: `1,2` is written unquoted, so the reader takes `1` and stops at the comma. |
| Script.Prologue | core/generate.py:56-59 | The four header writes exactly: `-- SQL Insert Statements`; `-- Generated for table: ` and the table name; `-- This is a single INSERT statement for all rows` and a blank line; the 123-dash rule and a blank line. |
| Script.InsertHead | core/generate.py:62 | `INSERT INTO `, the table name as given, ` (`, the columns joined by `, `, then `) VALUES` and a line break. |
| Script.Literals | core/generate.py:67-71 | The comprehension over a row: each value rendered, in order. |
| Script.LiteralsLength | core/generate.py:67-71 | There is one literal per value of the row. |
| Script.LiteralsAt | core/generate.py:67-71 | Literal `j` is the rendering of value `j`. |
| Script.RowTuple | core/generate.py:72 | The literals of a row joined by `, ` inside parentheses. |
| Script.Tuples | core/generate.py:65-72 | What the loop collects in `value_strings`: the tuple of each row, in row order. |
| Script.TuplesLength | core/generate.py:65-72 | There is one tuple per row. |
| Script.TuplesAt | core/generate.py:65-72 | Tuple `i` is the tuple of row `i`. |
| Script.ValuesText | core/generate.py:75 | The tuples joined by `,` and a line break, then `;` and a line break. |
| Script.Epilogue | core/generate.py:76-77 | Two line breaks, the 123-dash rule twice with nothing between, then two line breaks. After the statement's own line break, this gives two blank lines and one line of 246 dashes. |
| Script.Script | core/generate.py:56-77 | The whole file: header comment, statement head, VALUES part and footer, in the order written. |
| Script.TuplesSnoc | core/generate.py:72 | Each loop step appends its row's tuple at the end of `value_strings`. |
| Script.GenerateInsertQueries | core/generate.py:56-77 | The writes in order, with a loop invariant that `value_strings` holds the tuples of the rows visited so far. The text written is exactly `Script`. |
| Script.ReadCellsJoin | core/generate.py:72 | The literals of a readable row, joined by `, `, read back as the row's cells, in order. |
| Script.ReadRowTuple | core/generate.py:72 | The parenthesised tuple of a readable row reads back as that row. An empty row gives `()`. |
| Script.ReadTuplesJoin | core/generate.py:75 | The tuples of readable rows, joined by `,` and a line break, read back as the rows, in order. |
| Script.ValuesRoundTrip | core/generate.py:65-75 | For readable rows, reading the VALUES part back gives exactly the data rows, in row order, one literal per value, followed by `;` and a line break. With no rows, this holds too. |
| Script.ReadSanitized | core/generate.py:49 | A sanitised name reads back as its inner text, and the reader stops after the closing backtick. |
| Script.ReadIdentsJoin | core/generate.py:62 | The sanitised names joined by `, ` read back as their inner texts, in order. |
| Script.ColumnsRoundTrip | core/generate.py:39 | The column list of the statement holds the headers' sanitised names, one per header, in file order. |
| Script.StatementBodyRoundTrip | core/generate.py:62-75 | For readable rows, the statement after its opening parenthesis reads back as the columns, `) VALUES`, and then the rows. |
| Script.ScriptRoundTrip | core/generate.py:56-77 | The file starts with the header comment and `INSERT INTO` followed by the table name exactly as given. For readable rows, the rest reads back as the sanitised headers, then the rows in order, then the fixed footer. |

## Left out

- Loading the data. `pd.read_csv` and `pd.read_excel`, at lines 34-42, are a file decoder outside this model. Headers arrive as strings and rows as sequences of cells.
- Non-string headers. A number or date in a spreadsheet's header row reaches line 48 as a label that is not a `str`. Then `column_name.strip()` raises `AttributeError` and the run stops. The model takes every header to be a string, so this crash is outside it.
- Python values. `isinstance(value, str)`, `pd.isnull` and `str(value)` are abstracted into the three cell kinds `Str`, `Null` and `Other(text)`. The text of `str()` for numbers, dates and the like is not modelled.
- Sanitize.SanitizeColumnName: `\w`, `\W` and `strip()` are modelled on ASCII only. Python's Unicode-aware versions also treat letters such as `é` as word characters and strip Unicode spaces.
- Text.Lower: only A-Z are lower-cased. Python's `lower()` also lower-cases non-ASCII letters.
- Validation.ValidateFile: whether the path names an existing file (`os.path.isfile`) is a parameter. The messages of the two exceptions are not modelled beyond the path that the missing-file error names.
- File system. The output folder (`create_output_folder`, `os.makedirs`) and the output path are not modelled. The file is modelled as the text its writes produce.
- The constructor's copying of command-line arguments onto the object, and `main.py`.
- Console output (`print`) and the ANSI colours of the success message.
- Read-back and plain text. A `str()` text is plain when it is non-empty, does not start with a quote, is not the word `NULL`, and holds no `,` or `)`. Such text is written unquoted, so any other text can break the tuple's structure, as Literal.CommaBreaksOther shows. The plain-text reader is not a SQL tokenizer: it takes any characters up to the next `,` or `)` as one value. Non-string, non-null values such as timestamps (`2024-01-05 10:00:00`) are written unquoted. SQL does not accept that as a value, but this reader reads it back, so the read-back lemmas say nothing about whether a SQL server accepts the statement. Strings and nulls always read back. Each read-back lemma below is stated only for plain texts:
- Literal.ReadRender: holds only for cells that are readable, which for cells other than strings and nulls means their text is plain.
- Literal.ReadRenderOther: requires the text to be plain.
- Script.ReadCellsJoin: requires every cell of the row to be readable.
- Script.ReadRowTuple: requires every cell of the row to be readable.
- Script.ReadTuplesJoin: requires every cell of every row to be readable.
- Script.ValuesRoundTrip: requires every cell of every row to be readable.
- Script.StatementBodyRoundTrip: requires every cell of every row to be readable.
- Script.ScriptRoundTrip: requires every cell of every row to be readable.
- Script.ColumnsRoundTrip reads back each header's sanitised inner text, not the header itself. Different headers can sanitise to the same name, for example `a b` and `a-b`, and the generator does not detect the clash.
