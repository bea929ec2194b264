# csv2sql converter core, modelled in Dafny

csv2sql is a small web service that takes an uploaded CSV or Excel file and
returns a SQL script that recreates the table: one `CREATE TABLE IF NOT
EXISTS` statement and one `INSERT` statement per row. This project models
the part of `main.py` that does the conversion, `create_sql_file`, together
with the two string decisions the upload handler makes before calling it:
whether the file extension is accepted, and which table name to use.

The loaded table is an input (`Table.DataFrame`: column headers and rows of
cells). Each cell is `Missing`, `Num(repr)` or `Str(s)`: that is how the
converter classifies `pd.isna(val)`, `isinstance(val, (int, float))` and
everything else. The script is a string, and the output file is a small
class whose `Write` appends to its contents.

Modules, one concern each:

- `Text` (`text.dfy`): the Python string operations used. These are
  `str.isspace`, `strip()`, one-character `replace`, `join` and `lower()`.
- `Table` (`table.dfy`): cells, the DataFrame, `dropna` and the column type
  decision taken from the first non-missing value.
- `SqlScript` (`script.dfy`): the script as a value. It covers cleaned
  column names, the `CREATE TABLE` block, quote escaping, cell rendering
  and the `INSERT` statements, with the lemmas about them.
- `SqlReader` (`sql_reader.dfy`): a separate reader for the `INSERT`
  statements. It parses `NULL`, quoted literals with `''` and bare numbers.
  Its lemmas show that the rendered statements read back as exactly the
  table's rows.
- `Emitter` (`emitter.dfy`): `create_sql_file` as it runs. It has the loop
  that builds the column list, the loop over each row's values and the
  successive writes to the file. Each method is proved to produce the text
  that `SqlScript.Script` defines.
- `Upload` (`upload.dfy`): `os.path.splitext`, the extension whitelist, the
  table name and the choice of reader.
- `Wrappers` (`wrappers.dfy`): `Option`.

## Model

| member | source | states |
|---|---|---|
| `Text.IsSpace` | main.py:69 | definition of Python's `str.isspace` for one character, the set `strip()` removes: space, tab to carriage return, the controls 0x1C-0x1F, 0x85, 0xA0, U+1680, U+2000-U+200A, U+2028, U+2029, U+202F, U+205F and U+3000 |
| `Text.TrimStart` | main.py:69 | the left half of `strip()`: the result is a suffix of the input, does not start with whitespace, and everything dropped is whitespace |
| `Text.TrimEnd` | main.py:69 | the right half of `strip()`: the result is a prefix of the input, does not end with whitespace, and everything dropped is whitespace |
| `Text.Strip` | main.py:69 | `strip()` never lengthens the header and leaves no whitespace at either end |
| `Text.StripSlice` | main.py:69 | corollary of `StripOffset` with the offset unnamed; with `Strip`'s own ensures it pins `strip()` down: the result is a slice of the header, and everything before and after that slice is whitespace |
| `Text.StripOffset` | main.py:69 | the slice that `strip()` keeps starts after exactly the leading whitespace and is followed only by whitespace |
| `Text.StripUnpadded` | main.py:69 | a string with no whitespace at either end is unchanged by `strip()` |
| `Text.ReplaceChar` | main.py:69 | one-character `replace` keeps the length and changes exactly the occurrences of the replaced character |
| `Text.ReplaceCharAbsent` | main.py:69 | replacing a character that does not occur changes nothing |
| `Text.Underscored` | main.py:69 | the two chained replaces keep the length, leave no space or hyphen, and change nothing else |
| `Text.UnderscoredPlain` | main.py:69 | a string with no space or hyphen is unchanged by the two replaces |
| `Text.Join` | main.py:83 | definition of `sep.join(items)`: empty for no items, the item itself for one, otherwise the first item, the separator and the join of the rest; used for the declarations (main.py:83) and the values (main.py:99) |
| `Text.LowerAscii` | main.py:114 | `lower()` on ASCII: A-Z become a-z, every other character is kept, and no upper-case ASCII letter remains |
| `Table.ColumnCells` | main.py:71 | `df[col]` holds one cell per row |
| `Table.DropMissing` | main.py:71 | `dropna()` holds exactly the non-missing cells of the column (as a set), no missing cell, is no longer than the column, and is empty exactly when every cell is missing |
| `Table.DropMissingSnoc` | main.py:71 | one more cell at the end is kept, after the earlier kept cells, exactly when it is not missing; so `dropna()` keeps order |
| `Table.Sample` | main.py:71-73 | there is a sample exactly when some cell is not missing, and the sample is a non-missing cell of the column |
| `Table.InferColumnType` | main.py:72-79 | a NUMERIC column holds a numeric cell, and a column whose first cell is numeric is NUMERIC |
| `Table.InferColumnTypeAsWritten` | main.py:72-77 | the decision as written, where a numpy integer or bool sample fails the `int` test: NUMERIC exactly when the model's decision says NUMERIC and the sample is not such a numpy scalar |
| `Table.DropMissingAppend` | main.py:71 | `dropna()` of two pieces is the concatenation of their `dropna()` |
| `Table.SampleIsFirstPresent` | main.py:71-73 | the sample `iloc[0]` is the cell at the first non-missing position |
| `Table.InferredFromFirstPresent` | main.py:72-77 | a column is NUMERIC if and only if its first non-missing value is numeric |
| `Table.AllMissingIsText` | main.py:78-79 | a column with no non-missing value is TEXT |
| `Table.LaterValuesIgnored` | main.py:71-77 | once a column has a non-missing value, appending further cells of any kind does not change its type |
| `Table.NumericIff` | main.py:71-79 | both directions: NUMERIC exactly when some numeric cell has only missing cells before it |
| `SqlScript.CleanColumnName` | main.py:69 | the cleaned name has no space or hyphen, has the length of the stripped header, and agrees with it at every other position |
| `SqlScript.CleanIdempotent` | main.py:69 | cleaning an already cleaned name leaves it unchanged |
| `SqlScript.CleanPlainName` | main.py:69 | a header without whitespace or hyphens is its own cleaned name |
| `SqlScript.TypeName` | main.py:75-79 | definition of the `col_type` text: `NUMERIC` for a numeric column, `TEXT` otherwise |
| `SqlScript.ColumnDecl` | main.py:69-80 | definition of one entry `f"{clean_col} {col_type}"`; its shape is stated by `ColumnDeclShape` |
| `SqlScript.ColumnDeclShape` | main.py:80 | an entry is the cleaned name followed by ` TEXT` or ` NUMERIC`; the cleaned name has no space, so the first space separates name and type |
| `SqlScript.ColumnDecls` | main.py:66-80 | the `columns` list has exactly one entry per column |
| `SqlScript.Indented` | main.py:83 | every entry gets the four-space indent, in order, one for one |
| `SqlScript.CreateTableStatement` | main.py:82-84 | definition of the block the three writes produce; `ScriptStartsWithCreate`, `EmptyTableScript` and `Emitter.WriteCreateTable` state its properties |
| `SqlScript.Escape` | main.py:96 | definition of `replace("'", "''")`; the lemmas below state that it is invertible, well formed and one character longer per quote |
| `SqlScript.UnescapeEscape` | main.py:96 | collapsing each `''` back to `'` recovers the original text |
| `SqlScript.EscapeWellEscaped` | main.py:96 | the escaped text has no unpaired quote |
| `SqlScript.EscapeUnescape` | main.py:96 | conversely, every text without an unpaired quote is the escaping of what collapsing reads from it |
| `SqlScript.EscapeLength` | main.py:96 | escaping adds exactly one character per quote |
| `SqlScript.EscapeNoQuote` | main.py:96 | text without quotes passes through unchanged, backslashes included |
| `SqlScript.RenderCell` | main.py:89-97 | definition of one value: `NULL`, the number's text unquoted, or the quoted escaped text; `RenderTextReadsBack` and `SqlReader.ReadValueRender` state what it means |
| `SqlScript.RenderTextReadsBack` | main.py:94-97 | a text cell renders as one quoted literal whose body has no unpaired quote and collapses back to the text |
| `SqlScript.RenderCells` | main.py:88-97 | the `values` list holds one rendered value per cell, in cell order, each chosen from the cell alone |
| `SqlScript.InsertStatement` | main.py:99 | definition of one `INSERT INTO <table> VALUES (...);` line; `SqlReader.ReadInsertRender` reads it back as its row |
| `SqlScript.InsertStatements` | main.py:87-99 | definition of the INSERT section, one statement per row; the two lemmas below and `SqlReader.ReadInsertsRender` state its properties |
| `SqlScript.Script` | main.py:66-99 | definition of the whole file text; `Emitter.CreateSqlFile` writes exactly it, and `SqlReader.ScriptRowsReadBack` reads the rows back from it |
| `SqlScript.InsertStatementsAppend` | main.py:87-99 | the INSERT text of two row blocks is the INSERT text of the first followed by that of the second |
| `SqlScript.InsertStatementsSnoc` | main.py:87-99 | one more row adds exactly its one INSERT statement at the end |
| `SqlScript.EmptyTableScript` | main.py:66-99 | a table with no rows yields only the CREATE TABLE block, with every column TEXT |
| `SqlScript.IntegerColumnDeclaredText` | main.py:72-93 | a column of Python-int values whose sample is a numpy integer is declared TEXT as written, yet its value `1` is written unquoted; the corrected decision declares it NUMERIC |
| `SqlScript.InsertArityMatchesCreate` | main.py:80-99 | every INSERT has as many values as CREATE TABLE declares columns |
| `SqlScript.ScriptStartsWithCreate` | main.py:82 | the script begins with `CREATE TABLE IF NOT EXISTS <name> (` and a newline |
| `SqlScript.PeopleExample` | main.py:66-99 | the Name/Age example: Name TEXT and Age NUMERIC; `O'Brien` becomes `'O''Brien'`; an empty name stays `''`; a missing age becomes `NULL` |
| `SqlReader.ReadQuotedEscape` | main.py:96-97 | an escaped body followed by the closing quote reads back as the body |
| `SqlReader.ReadBareToken` | main.py:90-93 | an unquoted token reads back as NULL when it is the word NULL, and as a number otherwise |
| `SqlReader.ReadValueRender` | main.py:89-97 | each rendered cell reads back as that cell: `NULL` as missing, a number as itself, a quoted literal as its text |
| `SqlReader.ReadValuesRender` | main.py:88-99 | the `, `-joined value list of a row reads back as the row, value for value |
| `SqlReader.ReadInsertRender` | main.py:99 | one INSERT statement reads back as its row |
| `SqlReader.ReadInsertsRender` | main.py:87-99 | the INSERT section reads back as exactly the rows, in order |
| `SqlReader.ScriptRowsReadBack` | main.py:82-99 | the script is the CREATE TABLE block followed by text that reads back as the table's rows |
| `Emitter.SqlFile.constructor` | main.py:64 | opening with mode 'w' starts from an empty file |
| `Emitter.SqlFile.Write` | main.py:99 | `f.write` appends its argument |
| `Emitter.DeclareColumns` | main.py:66-80 | the column loop builds exactly the declarations that `ColumnDecls` defines |
| `Emitter.RenderRow` | main.py:88-97 | the per-row loop builds exactly the rendered values of the row's cells |
| `Emitter.WriteCreateTable` | main.py:82-84 | the three writes append exactly the CREATE TABLE block |
| `Emitter.WriteInsert` | main.py:88-99 | one loop iteration appends exactly that row's INSERT statement |
| `Emitter.WriteInserts` | main.py:87-99 | the row loop appends one INSERT per row, in row order |
| `Emitter.CreateSqlFile` | main.py:56-101 | the returned path is `downloads/<table>_<timestamp>.sql` and the fresh file holds exactly `Script(df, table)` |
| `Upload.LastIndexOf` | main.py:114 | the last position of a character, or -1 when it does not occur |
| `Upload.SplitExt` | main.py:114 | stem and extension concatenate to the filename; the extension is empty, or is one dot followed by no dot and no slash |
| `Upload.SplitExtHasExtension` | main.py:114 | both directions: the extension is non-empty exactly when some dot in the final path component has a non-dot character before it in that component |
| `Upload.SplitExtOf` | main.py:114 | a stem whose final component has a non-dot character (it may end in dots), followed by one dotted suffix, splits exactly there |
| `Upload.DottedStemAccepted` | main.py:114-115 | `a..csv` splits as `a.` and `.csv` and is accepted |
| `Upload.FileExtension` | main.py:114 | the lowered extension has the length of the extension, is empty or one dot followed by no dot, and holds no upper-case ASCII letter |
| `Upload.AcceptedExtensions` | main.py:115 | definition of the whitelist: `.csv`, `.xls` and `.xlsx`, in that order, lower-case |
| `Upload.ExtensionAccepted` | main.py:115 | definition of the whitelist test on the lowered extension; the two lemmas below state what it accepts |
| `Upload.AcceptedEndsWithExtension` | main.py:114-115 | an accepted filename ends, up to letter case, in `.csv`, `.xls` or `.xlsx`, and has a non-empty stem |
| `Upload.WhitelistedSuffixAccepted` | main.py:114-115 | a named stem followed by one of the three extensions, in any letter case, is accepted |
| `Upload.TableName` | main.py:130 | the table name is the stem with every space and hyphen replaced by `_` and nothing else changed |
| `Upload.EndsWith` | main.py:45 | definition of `str.endswith`: the suffix is no longer than the string and equals its last characters, compared exactly (case-sensitive) |
| `Upload.ChooseReaderAsWritten` | main.py:45-50 | definition of the dispatch as written: CSV on the lowered extension, then xlrd only when the saved path ends in lower-case `.xls`, otherwise openpyxl |
| `Upload.UpperCaseXlsAccepted` | main.py:114-115 | `DATA.XLS` has extension `.XLS`, which lowers to `.xls` and is accepted |
| `Upload.UpperCaseXlsGoesToOpenpyxl` | main.py:45 | `DATA.XLS` passes the whitelist as `.xls` but the engine test sends it to openpyxl |
| `Upload.ChooseReader` | main.py:132-137 | CSV reader exactly for `.csv`, xlrd exactly for `.xls`, openpyxl exactly for `.xlsx`, all on the lowered extension |
| `Upload.PlanUpload` | main.py:113-140 | an extension outside the whitelist gets a 400 before any conversion; otherwise the conversion uses the derived table name and the corrected reader `ChooseReader`, which differs from main.py:45 for an upper-case `.XLS` |

## Left out

- The FastAPI application, CORS, the static mount, saving the upload, removing it afterwards and the download endpoint (main.py:20-37, 119-126, 142-193). These are HTTP and file plumbing.
- `pd.read_csv`, `pd.read_excel` and their engines (main.py:40-53, 134-137). The loaded table is an input. Only the choice of reader is modelled.
- Which Python values count as numeric. The classification by `pd.isna` and `isinstance(val, (int, float))` of an iterated value is the cell's constructor. Iterating a row yields Python scalars, so a bool is numeric there. The text of a number (`str(val)`) is carried as given in `Num(repr)`.
- `Table.InferColumnType`: models the corrected decision, in which the sample is classified like the iterated values. As written, the sample `iloc[0]` of an int64 or bool column is a numpy scalar that fails the `int` test (see Findings). The model has no column dtype; `Table.InferColumnTypeAsWritten` takes that fact as a parameter. `Table.NumericIff` is about the corrected decision.
- The clock, logging and the exception re-wrapping (main.py:61, 101-104). The timestamp is a parameter of `Emitter.CreateSqlFile`. An unwritable output file is not modelled.
- A DataFrame is always rectangular, so `Rectangular` is required of the table. Duplicate raw headers are not modelled (pandas renames them on load). Duplicate cleaned names are kept, as in the source.
- `Text.LowerAscii`: lower-cases ASCII letters only, not Python's full Unicode case mapping.
- `Upload.SplitExt`: models POSIX paths only, with `/` as the only separator.
- `SqlReader`: the round trip assumes that every numeric text is a plain token. That means non-empty, with no comma or `)`, no leading quote, and not the word NULL. Python's `str` of an int or a float always meets this.
- `Upload.PlanUpload`: uses the corrected `Upload.ChooseReader`, so for an upper-case `.XLS` name it picks xlrd where main.py:45 picks openpyxl (see Findings).
- `SqlScript.PeopleExample`: states the example at the level of the declaration and value lists, not as one literal string for the whole script.

## Findings

| source | as written | input that shows it | evidently intended | confidence | as-written member | corrected member |
|---|---|---|---|---|---|---|
| main.py:73-77 | the column type tests `isinstance(sample_value, (int, float))` on `iloc[0]` of the column, which for an int64 or bool column is a numpy scalar (`numpy.int64`, `numpy.bool_`) and not an `int`, while main.py:89-93 tests the same on values iterated from the row, which are Python scalars | a CSV column of integers such as `1`: declared `TEXT`, but each value is written unquoted as `1` | declare a column NUMERIC when its sample is numeric, whatever its numpy type, as the values are written | not executed; rests on numpy's integer scalars not subclassing `int` and on Series iteration yielding Python scalars | `SqlScript.IntegerColumnDeclaredText` | `Table.InferColumnType` |
| main.py:45 | the xlrd engine is chosen by `file_path.endswith('.xls')` on the original letter case, while main.py:114-115 accepts the lowered extension | filename `DATA.XLS`: accepted as `.xls`, then read with openpyxl, which cannot read a legacy workbook | choose the engine on the lowered extension, as the whitelist does | not executed; the routing follows from the code text | `Upload.UpperCaseXlsGoesToOpenpyxl` | `Upload.ChooseReader` |

`Upload.ChooseReaderAsWritten` is the dispatch as written. `Upload.PlanUpload`
uses the corrected `Upload.ChooseReader`. `Table.InferColumnTypeAsWritten` is
the type decision as written; `SqlScript.ColumnDecl`, and through it the whole
script, uses the corrected `Table.InferColumnType`.
