/**
 * `create_sql_file` as it runs: the loop that builds the column list, the
 * loop that renders each row's values and the successive writes to the
 * output file. Each method is proved to produce what the value-level
 * definitions in `SqlScript` describe.
 */
module Emitter {
  import opened Text
  import opened Table
  import opened SqlScript

  /** The output file opened with mode 'w': its text so far. */
  class SqlFile {
    var contents: string

    /** Opening for writing truncates: the file starts empty. */
    constructor ()
      ensures contents == []
    {
      contents := [];
    }

    /** `f.write(s)` appends `s`. */
    method Write(s: string)
      modifies this
      ensures contents == old(contents) + s
    {
      contents := contents + s;
    }
  }

  /** The loop over `df.columns`: one `"<clean_col> <TYPE>"` entry per column,
      in column order. */
  method DeclareColumns(df: DataFrame) returns (columns: seq<string>)
    requires Rectangular(df)
    ensures columns == ColumnDecls(df)
  {
    ghost var decls := ColumnDecls(df);
    columns := [];
    for j := 0 to |df.columns|
      invariant columns == decls[..j]
    {
      PrefixSnoc(decls, j);
      var cleanCol := CleanColumnName(df.columns[j]);
      var colType := InferColumnType(ColumnCells(df, j));
      columns := columns + [cleanCol + " " + TypeName(colType)];
      assert decls[j] == cleanCol + " " + TypeName(colType);
    }
  }

  /** The loop over one row: `NULL` for a missing cell, the number's text for
      a numeric one, a quoted escaped literal otherwise, decided per value. */
  method RenderRow(row: seq<Cell>) returns (values: seq<string>)
    ensures values == RenderCells(row)
  {
    ghost var rendered := RenderCells(row);
    values := [];
    for k := 0 to |row|
      invariant values == rendered[..k]
    {
      PrefixSnoc(rendered, k);
      match row[k]
      case Missing =>
        values := values + ["NULL"];
      case Num(repr) =>
        values := values + [repr];
      case Str(s) =>
        var valStr := Escape(s);
        values := values + ["'" + valStr + "'"];
    }
  }

  /** The three writes of the CREATE TABLE block. */
  method WriteCreateTable(f: SqlFile, tableName: string, columns: seq<string>)
    modifies f
    ensures f.contents == old(f.contents) + CreateTableStatement(tableName, columns)
  {
    var header := "CREATE TABLE IF NOT EXISTS " + tableName + " (\n";
    var body := Join(Indented(columns), ",\n");
    var footer := "\n);\n\n";
    f.Write(header);
    f.Write(body);
    f.Write(footer);
    assert CreateTableStatement(tableName, columns) == header + body + footer;
  }

  /** The body of the loop over `df.iterrows()`: render the row's values and
      write one INSERT statement. */
  method WriteInsert(f: SqlFile, tableName: string, row: seq<Cell>)
    modifies f
    ensures f.contents == old(f.contents) + InsertStatement(tableName, row)
  {
    var values := RenderRow(row);
    f.Write("INSERT INTO " + tableName + " VALUES (" + Join(values, ", ") + ");\n");
  }

  /** The loop over `df.iterrows()`: one INSERT statement per row, in row
      order, appended to what the file already holds. */
  method WriteInserts(f: SqlFile, tableName: string, rows: seq<seq<Cell>>)
    modifies f
    ensures f.contents == old(f.contents) + InsertStatements(tableName, rows)
  {
    ghost var start := f.contents;
    assert f.contents == start + InsertStatements(tableName, rows[..0]);
    for i := 0 to |rows|
      invariant f.contents == start + InsertStatements(tableName, rows[..i])
    {
      WriteInsert(f, tableName, rows[i]);
      InsertStatementsSnoc(tableName, rows[..i], rows[i]);
      assert rows[..i + 1] == rows[..i] + [rows[i]];
    }
    assert rows[..|rows|] == rows;
  }

  /** The whole conversion: a fresh file under `downloads/` named after the
      table and the timestamp, holding exactly the script for `df`. The
      timestamp is what `datetime.now()` formats at the start of the call. */
  method CreateSqlFile(df: DataFrame, tableName: string, timestamp: string)
    returns (path: string, f: SqlFile)
    requires Rectangular(df)
    ensures path == "downloads/" + tableName + "_" + timestamp + ".sql"
    ensures fresh(f) && f.contents == Script(df, tableName)
  {
    path := "downloads/" + tableName + "_" + timestamp + ".sql";
    f := new SqlFile();
    var columns := DeclareColumns(df);
    ghost var create := CreateTableStatement(tableName, columns);
    WriteCreateTable(f, tableName, columns);
    assert f.contents == [] + create;
    assert [] + create == create;
    WriteInserts(f, tableName, df.rows);
  }
}
