/**
 * A reader for the INSERT statements the converter writes, used as an
 * independent partner of the rendering: it parses SQL literals (`NULL`, a
 * quoted string with `''` for a quote, a bare numeric token) and value lists,
 * and the lemmas below show that it recovers every row exactly. This fixes
 * at the level of text that there is one INSERT per row, in row order, with
 * one value per cell, in cell order.
 */
module SqlReader {
  import opened Wrappers
  import opened Text
  import opened Table
  import opened SqlScript

  /** A numeric text that reads back unambiguously: non-empty, no comma, no
      closing parenthesis, no leading quote, and not the word NULL. Python's
      `str` of an int or a float is always such a token. */
  predicate PlainNumber(repr: string) {
    repr != [] && repr[0] != '\'' && ',' !in repr && ')' !in repr && repr != "NULL"
  }

  /** Every numeric cell of the row carries a plain number. */
  predicate PlainRow(row: seq<Cell>) {
    forall i :: 0 <= i < |row| && row[i].Num? ==> PlainNumber(row[i].repr)
  }

  /** Reads a quoted body (the opening quote already consumed) up to its
      closing quote; `''` stands for one quote. Returns the body and what
      follows the closing quote. */
  function ReadQuoted(s: string): (r: Option<(string, string)>)
    ensures r.Some? ==> |r.value.1| < |s|
  {
    if s == [] then None
    else if s[0] == '\'' then
      if |s| >= 2 && s[1] == '\'' then
        match ReadQuoted(s[2..])
        case None => None
        case Some((body, rest)) => Some(("'" + body, rest))
      else Some(([], s[1..]))
    else
      match ReadQuoted(s[1..])
      case None => None
      case Some((body, rest)) => Some(([s[0]] + body, rest))
  }

  /** The length of the bare token at the start of `s`: everything up to the
      first comma or closing parenthesis. */
  function TokenLength(s: string): (k: nat)
    ensures k <= |s|
    ensures forall i :: 0 <= i < k ==> s[i] != ',' && s[i] != ')'
    ensures k < |s| ==> s[k] == ',' || s[k] == ')'
  {
    if s == [] || s[0] == ',' || s[0] == ')' then 0 else 1 + TokenLength(s[1..])
  }

  /** Reads one SQL literal and returns it as a cell with the rest of the text. */
  function ReadValue(s: string): (r: Option<(Cell, string)>)
    ensures r.Some? ==> |r.value.1| < |s|
  {
    if s != [] && s[0] == '\'' then
      match ReadQuoted(s[1..])
      case None => None
      case Some((body, rest)) => Some((Str(body), rest))
    else
      var k := TokenLength(s);
      if k == 0 then None
      else if s[..k] == "NULL" then Some((Missing, s[k..]))
      else Some((Num(s[..k]), s[k..]))
  }

  /** Reads one or more literals separated by `, `. */
  function ReadValues(s: string): (r: Option<(seq<Cell>, string)>)
    ensures r.Some? ==> |r.value.1| < |s|
    decreases |s|
  {
    match ReadValue(s)
    case None => None
    case Some((c, rest)) =>
      if |rest| >= 2 && rest[..2] == ", " then
        match ReadValues(rest[2..])
        case None => None
        case Some((cs, rest')) => Some(([c] + cs, rest'))
      else Some(([c], rest))
  }

  /** Reads a possibly empty value list, stopping at its closing parenthesis. */
  function ReadValueList(s: string): (r: Option<(seq<Cell>, string)>)
    ensures r.Some? ==> |r.value.1| <= |s|
  {
    if s != [] && s[0] == ')' then Some(([], s)) else ReadValues(s)
  }

  /** Reads one `INSERT INTO <table> VALUES (...);` line. */
  function ReadInsert(tableName: string, s: string): (r: Option<(seq<Cell>, string)>)
    ensures r.Some? ==> |r.value.1| < |s|
  {
    var head := "INSERT INTO " + tableName + " VALUES (";
    if |s| < |head| || s[..|head|] != head then None
    else
      match ReadValueList(s[|head|..])
      case None => None
      case Some((cells, rest)) =>
        if |rest| >= 3 && rest[..3] == ");\n" then Some((cells, rest[3..])) else None
  }

  /** Reads a whole run of INSERT lines, to the end of the text. */
  function ReadInserts(tableName: string, s: string): Option<seq<seq<Cell>>>
    decreases |s|
  {
    if s == [] then Some([])
    else
      match ReadInsert(tableName, s)
      case None => None
      case Some((cells, rest)) =>
        match ReadInserts(tableName, rest)
        case None => None
        case Some(rows) => Some([cells] + rows)
  }

  // ---------------------------------------------------------------------
  // Round trips

  /** An escaped body followed by the closing quote reads back as the body. */
  lemma {:induction false} ReadQuotedEscape(body: string, tail: string)
    requires tail == [] || tail[0] != '\''
    ensures ReadQuoted(Escape(body) + "'" + tail) == Some((body, tail))
  {
    var s := Escape(body) + "'" + tail;
    if body == [] {
      assert s == "'" + tail;
      assert s[1..] == tail;
    } else {
      var e := Escape(body[1..]);
      ReadQuotedEscape(body[1..], tail);
      if body[0] == '\'' {
        assert s == "''" + (e + "'" + tail);
        assert s[2..] == e + "'" + tail;
        assert "'" + body[1..] == body;
      } else {
        assert s == [body[0]] + (e + "'" + tail);
        assert s[1..] == e + "'" + tail;
        assert [body[0]] + body[1..] == body;
      }
    }
  }

  /** A bare token followed by a comma or a closing parenthesis is read whole. */
  lemma {:induction false} TokenLengthOf(tok: string, tail: string)
    requires ',' !in tok && ')' !in tok
    requires tail != [] && (tail[0] == ',' || tail[0] == ')')
    ensures TokenLength(tok + tail) == |tok|
  {
    if tok != [] {
      assert (tok + tail)[1..] == tok[1..] + tail;
      TokenLengthOf(tok[1..], tail);
    } else {
      assert tok + tail == tail;
    }
  }

  /** One rendered cell, followed by a comma or a closing parenthesis, reads
      back as that cell. */
  lemma ReadValueRender(c: Cell, tail: string)
    requires c.Num? ==> PlainNumber(c.repr)
    requires tail != [] && (tail[0] == ',' || tail[0] == ')')
    ensures ReadValue(RenderCell(c) + tail) == Some((c, tail))
  {
    match c
    case Missing => ReadBareToken("NULL", tail);
    case Num(repr) => ReadBareToken(repr, tail);
    case Str(body) =>
      var s := RenderCell(c) + tail;
      assert s[1..] == Escape(body) + "'" + tail;
      ReadQuotedEscape(body, tail);
  }

  /** A bare token is read whole, as NULL when it is the word NULL and as a
      number otherwise. */
  lemma ReadBareToken(tok: string, tail: string)
    requires tok != [] && tok[0] != '\'' && ',' !in tok && ')' !in tok
    requires tail != [] && (tail[0] == ',' || tail[0] == ')')
    ensures ReadValue(tok + tail)
         == Some((if tok == "NULL" then Missing else Num(tok), tail))
  {
    var s := tok + tail;
    TokenLengthOf(tok, tail);
    assert s[..|tok|] == tok && s[|tok|..] == tail;
  }

  /** The rendering of a cell never starts with a closing parenthesis. */
  lemma RenderedNotClosing(c: Cell)
    requires c.Num? ==> PlainNumber(c.repr)
    ensures RenderCell(c) != [] && RenderCell(c)[0] != ')'
  {
    if c.Num? {
      assert c.repr[0] in c.repr;
    }
  }

  /** A non-empty row's value list, followed by the closing parenthesis,
      reads back as the row. */
  lemma {:induction false} ReadValuesRender(row: seq<Cell>, tail: string)
    requires row != [] && PlainRow(row)
    requires tail != [] && tail[0] == ')'
    ensures ReadValues(Join(RenderCells(row), ", ") + tail) == Some((row, tail))
  {
    if |row| == 1 {
      ReadValueRender(row[0], tail);
      assert [row[0]] == row;
    } else {
      var rest := row[1..];
      assert PlainRow(rest);
      ReadValuesRender(rest, tail);
      assert row[0].Num? ==> PlainNumber(row[0].repr);
      ReadRestOfRow(row, tail);
    }
  }

  /** Reading a row of two or more cells, given that its remaining cells
      read back. */
  lemma ReadRestOfRow(row: seq<Cell>, tail: string)
    requires |row| >= 2 && (row[0].Num? ==> PlainNumber(row[0].repr))
    requires tail != [] && tail[0] == ')'
    requires ReadValues(Join(RenderCells(row[1..]), ", ") + tail) == Some((row[1..], tail))
    ensures ReadValues(Join(RenderCells(row), ", ") + tail) == Some((row, tail))
  {
    var first := RenderCell(row[0]);
    var more := Join(RenderCells(row[1..]), ", ") + tail;
    SplitFirstValue(row, tail);
    ReadValueRender(row[0], ", " + more);
    ReadValuesCons(first, row[0], more, row[1..], tail);
    assert [row[0]] + row[1..] == row;
  }

  /** The value list of a row with two or more cells is its first value, the
      separator, and the value list of the remaining cells. */
  lemma SplitFirstValue(row: seq<Cell>, tail: string)
    requires |row| >= 2
    ensures Join(RenderCells(row), ", ") + tail
         == RenderCell(row[0]) + (", " + (Join(RenderCells(row[1..]), ", ") + tail))
  {
    assert RenderCells(row) == [RenderCell(row[0])] + RenderCells(row[1..]);
    JoinCons(RenderCell(row[0]), RenderCells(row[1..]), ", ", tail);
  }

  /** One step of reading a list: a value, the separator, then the rest. */
  lemma ReadValuesCons(first: string, c: Cell, more: string, cs: seq<Cell>, tail: string)
    requires ReadValue(first + (", " + more)) == Some((c, ", " + more))
    requires ReadValues(more) == Some((cs, tail))
    ensures ReadValues(first + (", " + more)) == Some(([c] + cs, tail))
  {
    var after := ", " + more;
    assert after[..2] == ", " && after[2..] == more;
  }

  /** One INSERT statement reads back as its row, whatever follows it. */
  lemma ReadInsertRender(tableName: string, row: seq<Cell>, tail: string)
    requires PlainRow(row)
    ensures ReadInsert(tableName, InsertStatement(tableName, row) + tail) == Some((row, tail))
  {
    var head := "INSERT INTO " + tableName + " VALUES (";
    var list := Join(RenderCells(row), ", ");
    var s := InsertStatement(tableName, row) + tail;
    assert s == head + (list + ");\n" + tail);
    assert s[..|head|] == head && s[|head|..] == list + ");\n" + tail;
    var closing := ");\n" + tail;
    assert list + ");\n" + tail == list + closing;
    if row == [] {
      assert list == "";
      assert list + closing == closing;
    } else {
      RenderedNotClosing(row[0]);
      ReadValuesRender(row, closing);
      JoinStartsWithFirst(RenderCells(row), ", ");
      assert (list + closing)[0] == list[0];
    }
    assert closing[..3] == ");\n" && closing[3..] == tail;
  }

  /** A joined list starts with its first item. */
  lemma JoinStartsWithFirst(items: seq<string>, sep: string)
    requires items != [] && items[0] != []
    ensures Join(items, sep) != [] && Join(items, sep)[0] == items[0][0]
  {
  }

  /** The INSERT section of the script reads back as exactly the rows, in
      order: one statement per row and one value per cell. */
  lemma {:induction false} ReadInsertsRender(tableName: string, rows: seq<seq<Cell>>)
    requires forall i :: 0 <= i < |rows| ==> PlainRow(rows[i])
    ensures ReadInserts(tableName, InsertStatements(tableName, rows)) == Some(rows)
  {
    if rows != [] {
      var rest := InsertStatements(tableName, rows[1..]);
      ReadInsertRender(tableName, rows[0], rest);
      ReadInsertsRender(tableName, rows[1..]);
      assert InsertStatements(tableName, rows) != [];
      assert [rows[0]] + rows[1..] == rows;
    }
  }

  /** The whole script: after its CREATE TABLE block, the text reads back
      as the table's rows. */
  lemma ScriptRowsReadBack(df: DataFrame, tableName: string)
    requires Rectangular(df)
    requires forall i :: 0 <= i < |df.rows| ==> PlainRow(df.rows[i])
    ensures var create := CreateTableStatement(tableName, ColumnDecls(df));
      |create| <= |Script(df, tableName)|
      && Script(df, tableName)[..|create|] == create
      && ReadInserts(tableName, Script(df, tableName)[|create|..]) == Some(df.rows)
  {
    var create := CreateTableStatement(tableName, ColumnDecls(df));
    var inserts := InsertStatements(tableName, df.rows);
    assert Script(df, tableName)[|create|..] == inserts;
    ReadInsertsRender(tableName, df.rows);
  }
}
