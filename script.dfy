/**
 * The SQL script `create_sql_file` writes, as a value: the cleaned column
 * declarations, the `CREATE TABLE` block, the rendering of each cell and one
 * `INSERT` statement per row.
 */
module SqlScript {
  import opened Text
  import opened Table

  // ---------------------------------------------------------------------
  // Column names

  /** `str(col).strip().replace(' ', '_').replace('-', '_')`. The result keeps
      the length of the stripped header, has no space and no hyphen, and
      agrees with the stripped header at every other position. */
  function CleanColumnName(col: string): (r: string)
    ensures |r| == |Strip(col)|
    ensures forall i :: 0 <= i < |r| ==> r[i] != ' ' && r[i] != '-'
    ensures forall i :: 0 <= i < |r| ==> r[i] == UnderscoreChar(Strip(col)[i])
  {
    Underscored(Strip(col))
  }

  /** Cleaning an already cleaned name leaves it unchanged. */
  lemma CleanIdempotent(col: string)
    ensures CleanColumnName(CleanColumnName(col)) == CleanColumnName(col)
  {
    var t := Strip(col);
    var r := CleanColumnName(col);
    if r != [] {
      assert r[0] == UnderscoreChar(t[0]) && r[|r| - 1] == UnderscoreChar(t[|t| - 1]);
    }
    StripUnpadded(r);
    UnderscoredPlain(r);
  }

  /** A header made only of characters that are neither whitespace nor
      hyphens is its own cleaned name. */
  lemma CleanPlainName(col: string)
    requires forall i :: 0 <= i < |col| ==> !IsSpace(col[i]) && col[i] != '-'
    ensures CleanColumnName(col) == col
  {
    StripUnpadded(col);
    UnderscoredPlain(col);
  }

  // ---------------------------------------------------------------------
  // CREATE TABLE

  function TypeName(t: ColumnType): string {
    match t
    case NumericColumn => "NUMERIC"
    case TextColumn => "TEXT"
  }

  /** The entry `f"{clean_col} {col_type}"` for the column at position `j`. */
  function ColumnDecl(df: DataFrame, j: nat): string
    requires Rectangular(df) && j < |df.columns|
  {
    CleanColumnName(df.columns[j]) + " " + TypeName(InferColumnType(ColumnCells(df, j)))
  }

  /** A declaration is the cleaned name, then one space and the type. The
      cleaned name has no space, so the first space separates the two. */
  lemma ColumnDeclShape(df: DataFrame, j: nat)
    requires Rectangular(df) && j < |df.columns|
    ensures var name := CleanColumnName(df.columns[j]);
      var r := ColumnDecl(df, j);
      |name| < |r| && r[..|name|] == name && (r[|name|..] == " TEXT" || r[|name|..] == " NUMERIC")
  {
    NameThenType(CleanColumnName(df.columns[j]), InferColumnType(ColumnCells(df, j)));
  }

  lemma NameThenType(name: string, t: ColumnType)
    ensures var r := name + " " + TypeName(t);
      |name| < |r| && r[..|name|] == name && (r[|name|..] == " TEXT" || r[|name|..] == " NUMERIC")
  {
    var suffix := " " + TypeName(t);
    assert name + " " + TypeName(t) == name + suffix;
    assert (name + suffix)[..|name|] == name && (name + suffix)[|name|..] == suffix;
    if t == TextColumn {
      assert suffix == " TEXT";
    } else {
      assert suffix == " NUMERIC";
    }
  }

  /** The `columns` list: one entry per column, in column order. */
  function ColumnDecls(df: DataFrame): (r: seq<string>)
    requires Rectangular(df)
    ensures |r| == |df.columns|
  {
    seq(|df.columns|, j requires 0 <= j < |df.columns| => ColumnDecl(df, j))
  }

  /** Each entry prefixed by the four-space indent. */
  function Indented(decls: seq<string>): (r: seq<string>)
    ensures |r| == |decls|
    ensures forall j :: 0 <= j < |decls| ==> r[j] == "    " + decls[j]
  {
    if decls == [] then [] else ["    " + decls[0]] + Indented(decls[1..])
  }

  /** The block the three writes produce: the header line, the indented
      declarations joined by `,` and a newline, then `);` and a blank line. */
  function CreateTableStatement(tableName: string, decls: seq<string>): string {
    "CREATE TABLE IF NOT EXISTS " + tableName + " (\n" + Join(Indented(decls), ",\n") + "\n);\n\n"
  }

  // ---------------------------------------------------------------------
  // Cell values

  /** `str(val).replace("'", "''")`: every single quote doubled, every other
      character (backslashes included) passed through. */
  function Escape(s: string): string {
    if s == [] then []
    else (if s[0] == '\'' then "''" else [s[0]]) + Escape(s[1..])
  }

  /** The reading of an escaped literal body: each `''` collapses to `'`. */
  function Unescape(t: string): string {
    if t == [] then []
    else if |t| >= 2 && t[0] == '\'' && t[1] == '\'' then "'" + Unescape(t[2..])
    else [t[0]] + Unescape(t[1..])
  }

  /** Every single quote in `t` belongs to a doubled pair `''`. */
  predicate WellEscaped(t: string) {
    if t == [] then true
    else if t[0] == '\'' then |t| >= 2 && t[1] == '\'' && WellEscaped(t[2..])
    else WellEscaped(t[1..])
  }

  /** The number of single quotes in `s`. */
  function QuoteCount(s: string): nat {
    if s == [] then 0 else (if s[0] == '\'' then 1 else 0) + QuoteCount(s[1..])
  }

  /** Collapsing `''` undoes the escaping. */
  lemma {:induction false} UnescapeEscape(s: string)
    ensures Unescape(Escape(s)) == s
  {
    if s != [] {
      var rest := Escape(s[1..]);
      if s[0] == '\'' {
        assert Escape(s) == "''" + rest;
        assert ("''" + rest)[2..] == rest;
      } else {
        assert Escape(s) == [s[0]] + rest;
        assert ([s[0]] + rest)[1..] == rest;
      }
      UnescapeEscape(s[1..]);
    }
  }

  /** An escaped body never holds an unpaired quote. */
  lemma {:induction false} EscapeWellEscaped(s: string)
    ensures WellEscaped(Escape(s))
  {
    if s != [] {
      var rest := Escape(s[1..]);
      EscapeWellEscaped(s[1..]);
      if s[0] == '\'' {
        assert ("''" + rest)[2..] == rest;
      } else {
        assert ([s[0]] + rest)[1..] == rest;
      }
    }
  }

  /** Conversely, every body without an unpaired quote is the escaping of
      exactly what `Unescape` reads from it. */
  lemma {:induction false} EscapeUnescape(t: string)
    requires WellEscaped(t)
    ensures Escape(Unescape(t)) == t
  {
    if t != [] {
      if t[0] == '\'' {
        EscapeUnescape(t[2..]);
        assert ("'" + Unescape(t[2..]))[1..] == Unescape(t[2..]);
        assert t == "''" + t[2..];
      } else {
        EscapeUnescape(t[1..]);
        assert ([t[0]] + Unescape(t[1..]))[1..] == Unescape(t[1..]);
        assert t == [t[0]] + t[1..];
      }
    }
  }

  /** Escaping lengthens the text by exactly one character per quote. */
  lemma {:induction false} EscapeLength(s: string)
    ensures |Escape(s)| == |s| + QuoteCount(s)
  {
    if s != [] {
      EscapeLength(s[1..]);
    }
  }

  /** Text without quotes is passed through unchanged. */
  lemma {:induction false} EscapeNoQuote(s: string)
    requires '\'' !in s
    ensures Escape(s) == s
  {
    if s != [] {
      assert s[0] != '\'';
      EscapeNoQuote(s[1..]);
      assert s == [s[0]] + s[1..];
    }
  }

  /** The rendering of one cell, chosen per value whatever the column's
      declared type: `NULL`, the numeric text unquoted, or a quoted escaped
      string. */
  function RenderCell(c: Cell): string {
    match c
    case Missing => "NULL"
    case Num(repr) => repr
    case Str(s) => "'" + Escape(s) + "'"
  }

  /** A rendered text cell is one quoted literal whose body has no unpaired
      quote and reads back as the original text. */
  lemma RenderTextReadsBack(s: string)
    ensures var r := RenderCell(Str(s));
      |r| >= 2 && r[0] == '\'' && r[|r| - 1] == '\''
      && WellEscaped(r[1..|r| - 1]) && Unescape(r[1..|r| - 1]) == s
  {
    var e := Escape(s);
    EscapeWellEscaped(s);
    UnescapeEscape(s);
    assert ("'" + e + "'")[1..|e| + 1] == e;
  }

  /** The `values` list of one row: exactly one rendered value per cell, in
      cell order. */
  function RenderCells(row: seq<Cell>): (r: seq<string>)
    ensures |r| == |row|
    ensures forall i :: 0 <= i < |row| ==> r[i] == RenderCell(row[i])
  {
    if row == [] then [] else [RenderCell(row[0])] + RenderCells(row[1..])
  }

  // ---------------------------------------------------------------------
  // INSERT and the whole script

  /** One `INSERT INTO <table> VALUES (...);` line holding the row's values. */
  function InsertStatement(tableName: string, row: seq<Cell>): string {
    "INSERT INTO " + tableName + " VALUES (" + Join(RenderCells(row), ", ") + ");\n"
  }

  /** One INSERT per row, in row order. */
  function InsertStatements(tableName: string, rows: seq<seq<Cell>>): string {
    if rows == [] then ""
    else InsertStatement(tableName, rows[0]) + InsertStatements(tableName, rows[1..])
  }

  /** The full text written to the `.sql` file. */
  function Script(df: DataFrame, tableName: string): string
    requires Rectangular(df)
  {
    CreateTableStatement(tableName, ColumnDecls(df)) + InsertStatements(tableName, df.rows)
  }

  /** Adding rows at the end adds their INSERT statements at the end and
      changes nothing before them. */
  lemma {:induction false} InsertStatementsAppend(tableName: string, a: seq<seq<Cell>>, b: seq<seq<Cell>>)
    ensures InsertStatements(tableName, a + b)
         == InsertStatements(tableName, a) + InsertStatements(tableName, b)
  {
    if a == [] {
      assert a + b == b;
    } else {
      assert (a + b)[1..] == a[1..] + b;
      InsertStatementsAppend(tableName, a[1..], b);
    }
  }

  /** Adding one row at the end adds exactly its INSERT statement at the end. */
  lemma InsertStatementsSnoc(tableName: string, rows: seq<seq<Cell>>, row: seq<Cell>)
    ensures InsertStatements(tableName, rows + [row])
         == InsertStatements(tableName, rows) + InsertStatement(tableName, row)
  {
    InsertStatementsAppend(tableName, rows, [row]);
    assert InsertStatements(tableName, [row]) == InsertStatement(tableName, row) + "";
  }

  /** A table with no rows yields only the CREATE TABLE block, and every
      column in it is declared TEXT. */
  lemma EmptyTableScript(columns: seq<string>, tableName: string)
    ensures Rectangular(DataFrame(columns, []))
    ensures Script(DataFrame(columns, []), tableName)
         == CreateTableStatement(tableName, AllTextDecls(columns))
  {
    var df := DataFrame(columns, []);
    var decls := ColumnDecls(df);
    var texts := AllTextDecls(columns);
    forall j | 0 <= j < |columns|
      ensures decls[j] == texts[j]
    {
      AllMissingIsText(ColumnCells(df, j));
      assert decls[j] == ColumnDecl(df, j);
      assert texts[j] == CleanColumnName(columns[j]) + " TEXT";
    }
    assert |decls| == |texts|;
    assert decls == texts;
    assert InsertStatements(tableName, df.rows) == "";
  }

  /** The declarations of a table with no rows: every column TEXT. */
  function AllTextDecls(columns: seq<string>): (r: seq<string>)
    ensures |r| == |columns|
  {
    seq(|columns|, j requires 0 <= j < |columns| => CleanColumnName(columns[j]) + " TEXT")
  }

  /** An integer column as written: the column is declared TEXT because its
      numpy sample fails the `int` test, while each of its values, iterated
      as a Python `int`, is written unquoted. The corrected decision declares
      it NUMERIC, matching how its values are written. */
  lemma IntegerColumnDeclaredText()
    ensures InferColumnTypeAsWritten([Num("1")], true) == TextColumn
    ensures RenderCell(Num("1")) == "1"
    ensures InferColumnType([Num("1")]) == NumericColumn
  {
    SampleIsFirstPresent([Num("1")], 0);
  }

  /** Every INSERT lists as many values as the CREATE TABLE declares columns. */
  lemma InsertArityMatchesCreate(df: DataFrame, i: nat)
    requires Rectangular(df) && i < |df.rows|
    ensures |RenderCells(df.rows[i])| == |ColumnDecls(df)| == |df.columns|
  {
  }

  /** The script begins with the CREATE TABLE header. */
  lemma ScriptStartsWithCreate(df: DataFrame, tableName: string)
    requires Rectangular(df)
    ensures var header := "CREATE TABLE IF NOT EXISTS " + tableName + " (\n";
      |header| <= |Script(df, tableName)| && Script(df, tableName)[..|header|] == header
  {
    var header := "CREATE TABLE IF NOT EXISTS " + tableName + " (\n";
    var rest := Join(Indented(ColumnDecls(df)), ",\n") + "\n);\n\n" + InsertStatements(tableName, df.rows);
    assert Script(df, tableName) == header + rest;
  }

  /** The two-row example: a name with an apostrophe, an empty name and a
      missing age. Name is declared TEXT and Age NUMERIC; the apostrophe is
      doubled, the empty name stays a quoted empty literal and the missing
      age becomes NULL. The cells are supplied directly, not read from a
      CSV file: `pd.read_csv` would load an empty field as missing (written
      `NULL`) and an integer column with a missing value as floats (`30.0`). */
  lemma PeopleExample()
    ensures Rectangular(PeopleTable())
    ensures ColumnDecls(PeopleTable()) == ["Name TEXT", "Age NUMERIC"]
    ensures RenderCells(PeopleTable().rows[0]) == ["'O''Brien'", "30"]
    ensures RenderCells(PeopleTable().rows[1]) == ["''", "NULL"]
  {
    PeopleDecls();
    PeopleValues();
  }

  lemma PeopleDecls()
    ensures Rectangular(PeopleTable())
    ensures ColumnDecls(PeopleTable()) == ["Name TEXT", "Age NUMERIC"]
  {
    PeopleNameDecl();
    PeopleAgeDecl();
    var decls := ColumnDecls(PeopleTable());
    assert decls[0] == ColumnDecl(PeopleTable(), 0);
    assert decls[1] == ColumnDecl(PeopleTable(), 1);
    assert |decls| == 2;
  }

  lemma PeopleValues()
    ensures RenderCells(PeopleTable().rows[0]) == ["'O''Brien'", "30"]
    ensures RenderCells(PeopleTable().rows[1]) == ["''", "NULL"]
  {
    var rows := PeopleTable().rows;
    assert Escape("O'Brien") == "O''Brien";
    assert Escape("") == "";
    var first, second := RenderCells(rows[0]), RenderCells(rows[1]);
    assert first[0] == "'O''Brien'" && first[1] == "30";
    assert second[0] == "''" && second[1] == "NULL";
  }

  function PeopleTable(): DataFrame {
    DataFrame(["Name", "Age"], [[Str("O'Brien"), Num("30")], [Str(""), Missing]])
  }

  lemma PeopleNameDecl()
    ensures Rectangular(PeopleTable()) && 0 < |PeopleTable().columns|
    ensures ColumnDecl(PeopleTable(), 0) == "Name TEXT"
  {
    var name := "Name";
    assert forall i :: 0 <= i < |name| ==> !IsSpace(name[i]) && name[i] != '-';
    CleanPlainName(name);
    SampleIsFirstPresent(ColumnCells(PeopleTable(), 0), 0);
  }

  lemma PeopleAgeDecl()
    ensures Rectangular(PeopleTable()) && 1 < |PeopleTable().columns|
    ensures ColumnDecl(PeopleTable(), 1) == "Age NUMERIC"
  {
    var age := "Age";
    assert forall i :: 0 <= i < |age| ==> !IsSpace(age[i]) && age[i] != '-';
    CleanPlainName(age);
    SampleIsFirstPresent(ColumnCells(PeopleTable(), 1), 0);
  }
}
