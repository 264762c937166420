/**
 * The text of the `.sql` file `generate_insert_queries` writes: a fixed
 * header comment, one `INSERT INTO <table> (<columns>) VALUES` statement
 * with one tuple per data row, and a fixed footer. The file is modelled as
 * the string its successive writes produce.
 */
module Script {
  import opened Text
  import opened Sanitize
  import opened Literal

  /** The 123-dash rule line of the header and footer. */
  const Rule: string := "---------------------------------------------------------------------------------------------------------------------------"

  /** The header comment block, which names the table: the first four writes. */
  function Prologue(table: string): string
  {
    "-- SQL Insert Statements\n"
    + ("-- Generated for table: " + table + "\n")
    + "-- This is a single INSERT statement for all rows\n\n"
    + (Rule + "\n\n")
  }

  /** The statement head: the table name as given, the column names joined by ", ". */
  function InsertHead(table: string, columns: seq<string>): string
  {
    "INSERT INTO " + table + " (" + Join(", ", columns) + ") VALUES\n"
  }

  /** The literals of one row, one per value, in order. */
  function Literals(row: seq<Cell>): seq<string>
  {
    if row == [] then [] else [Render(row[0])] + Literals(row[1..])
  }

  /** One literal per value. */
  lemma {:induction false} LiteralsLength(row: seq<Cell>)
    ensures |Literals(row)| == |row|
  {
    if row != [] {
      LiteralsLength(row[1..]);
    }
  }

  /** Literal `j` of a row is the rendering of value `j`. */
  lemma {:induction false} LiteralsAt(row: seq<Cell>, j: nat)
    requires j < |row|
    ensures |Literals(row)| == |row|
    ensures Literals(row)[j] == Render(row[j])
    decreases j
  {
    LiteralsLength(row);
    if j > 0 {
      LiteralsAt(row[1..], j - 1);
    }
  }

  /** The parenthesised tuple of one row. */
  function RowTuple(row: seq<Cell>): string
  {
    "(" + Join(", ", Literals(row)) + ")"
  }

  /** The tuples of all rows, in row order. */
  function Tuples(rows: seq<seq<Cell>>): seq<string>
  {
    if rows == [] then [] else [RowTuple(rows[0])] + Tuples(rows[1..])
  }

  /** One tuple per row. */
  lemma {:induction false} TuplesLength(rows: seq<seq<Cell>>)
    ensures |Tuples(rows)| == |rows|
  {
    if rows != [] {
      TuplesLength(rows[1..]);
    }
  }

  /** Tuple `i` is the tuple of row `i`. */
  lemma {:induction false} TuplesAt(rows: seq<seq<Cell>>, i: nat)
    requires i < |rows|
    ensures |Tuples(rows)| == |rows|
    ensures Tuples(rows)[i] == RowTuple(rows[i])
    decreases i
  {
    TuplesLength(rows);
    if i > 0 {
      TuplesAt(rows[1..], i - 1);
    }
  }

  /** One more row adds its tuple at the end. */
  lemma {:induction false} TuplesSnoc(rows: seq<seq<Cell>>, row: seq<Cell>)
    ensures Tuples(rows + [row]) == Tuples(rows) + [RowTuple(row)]
  {
    if rows == [] {
      assert rows + [row] == [row];
      assert [row][1..] == [];
    } else {
      assert (rows + [row])[1..] == rows[1..] + [row];
      TuplesSnoc(rows[1..], row);
    }
  }

  /** The VALUES part: the tuples joined by ",\n", then ";\n". */
  function ValuesText(rows: seq<seq<Cell>>): string
  {
    Join(",\n", Tuples(rows)) + ";\n"
  }

  /**
   * The footer: two line breaks after the statement's own, so two blank
   * lines; then the two rule strings with no break between them, one line of
   * 246 dashes; then a blank line.
   */
  function Epilogue(): string
  {
    ("\n\n" + Rule) + (Rule + "\n\n")
  }

  /** The whole file, for a table name, the file's column headers and its data rows. */
  function Script(table: string, headers: seq<string>, rows: seq<seq<Cell>>): string
  {
    Prologue(table) + InsertHead(table, SanitizeColumns(headers)) + ValuesText(rows) + Epilogue()
  }

  /**
   * `generate_insert_queries`, with the column names sanitised as `read_data`
   * does: the header writes, one tuple appended per row by the loop, then the
   * joined tuples and the footer. The text written is exactly `Script`.
   */
  method GenerateInsertQueries(table: string, headers: seq<string>, data: seq<seq<Cell>>)
    returns (text: string)
    ensures text == Script(table, headers, data)
  {
    var columns := SanitizeColumns(headers);
    text := "-- SQL Insert Statements\n";
    text := text + ("-- Generated for table: " + table + "\n");
    text := text + "-- This is a single INSERT statement for all rows\n\n";
    text := text + (Rule + "\n\n");
    assert text == Prologue(table);
    text := text + ("INSERT INTO " + table + " (" + Join(", ", columns) + ") VALUES\n");
    assert text == Prologue(table) + InsertHead(table, columns);
    var valueStrings: seq<string> := [];
    for i := 0 to |data|
      invariant valueStrings == Tuples(data[..i])
    {
      var values := Literals(data[i]);
      valueStrings := valueStrings + ["(" + Join(", ", values) + ")"];
      assert data[..i + 1] == data[..i] + [data[i]];
      TuplesSnoc(data[..i], data[i]);
    }
    assert data[..|data|] == data;
    text := text + (Join(",\n", valueStrings) + ";\n");
    assert text == Prologue(table) + InsertHead(table, columns) + ValuesText(data);
    ghost var body := text;
    text := text + ("\n\n" + Rule);
    text := text + (Rule + "\n\n");
    assert text == body + Epilogue();
  }

  // ---------------------------------------------------------------------
  // Reading the statement back
  // ---------------------------------------------------------------------

  /** Cells separated by ", ", up to the first place no ", " follows a literal. */
  function ReadCells(t: string): (r: Option<(seq<Cell>, string)>)
    ensures r.Some? ==> |r.value.1| < |t|
    decreases |t|
  {
    match ReadLiteral(t)
    case None => None
    case Some(p) =>
      if |p.1| >= 2 && p.1[0] == ',' && p.1[1] == ' ' then
        match ReadCells(p.1[2..])
        case None => None
        case Some(q) => Some(([p.0] + q.0, q.1))
      else Some(([p.0], p.1))
  }

  /** One parenthesised tuple; `()` is a row with no values. */
  function ReadTuple(t: string): (r: Option<(seq<Cell>, string)>)
    ensures r.Some? ==> |r.value.1| < |t|
  {
    if |t| == 0 || t[0] != '(' then None
    else if |t| >= 2 && t[1] == ')' then Some(([], t[2..]))
    else
      match ReadCells(t[1..])
      case None => None
      case Some(p) => if |p.1| > 0 && p.1[0] == ')' then Some((p.0, p.1[1..])) else None
  }

  /** Tuples separated by ",\n". */
  function ReadTuples(t: string): (r: Option<(seq<seq<Cell>>, string)>)
    ensures r.Some? ==> |r.value.1| < |t|
    decreases |t|
  {
    match ReadTuple(t)
    case None => None
    case Some(p) =>
      if |p.1| >= 2 && p.1[0] == ',' && p.1[1] == '\n' then
        match ReadTuples(p.1[2..])
        case None => None
        case Some(q) => Some(([p.0] + q.0, q.1))
      else Some(([p.0], p.1))
  }

  /** The VALUES part: zero or more tuples, then ";\n". */
  function ReadValues(t: string): Option<(seq<seq<Cell>>, string)>
  {
    if |t| >= 2 && t[0] == ';' && t[1] == '\n' then Some(([], t[2..]))
    else
      match ReadTuples(t)
      case None => None
      case Some(p) =>
        if |p.1| >= 2 && p.1[0] == ';' && p.1[1] == '\n' then Some((p.0, p.1[2..])) else None
  }

  /** Every cell of the row can be read back; see `Readable` for the `str()` texts this admits. */
  predicate RowReadable(row: seq<Cell>)
  {
    row == [] || (Readable(row[0]) && RowReadable(row[1..]))
  }

  /** Every cell of every row can be read back. */
  predicate AllReadable(rows: seq<seq<Cell>>)
  {
    rows == [] || (RowReadable(rows[0]) && AllReadable(rows[1..]))
  }

  /** `RowReadable` holds exactly when each cell of the row is readable. */
  lemma {:induction false} RowReadableCells(row: seq<Cell>)
    ensures RowReadable(row) <==> forall j :: 0 <= j < |row| ==> Readable(row[j])
  {
    if row != [] {
      RowReadableCells(row[1..]);
      assert forall j :: 0 < j < |row| ==> row[j] == row[1..][j - 1];
    }
  }

  /** `AllReadable` holds exactly when each row is readable. */
  lemma {:induction false} AllReadableRows(rows: seq<seq<Cell>>)
    ensures AllReadable(rows) <==> forall i :: 0 <= i < |rows| ==> RowReadable(rows[i])
  {
    if rows != [] {
      AllReadableRows(rows[1..]);
      assert forall i :: 0 < i < |rows| ==> rows[i] == rows[1..][i - 1];
    }
  }

  /** A single literal, then `)`: one cell. */
  lemma {:induction false} ReadCellsOne(c: Cell, rest: string)
    requires Readable(c)
    requires |rest| > 0 && rest[0] == ')'
    ensures ReadCells(Join(", ", Literals([c])) + rest) == Some(([c], rest))
  {
    assert Literals([c]) == [Render(c)];
    ReadRender(c, rest);
  }

  /** A literal, ", " and a readable list of further literals: the literal's cell comes first. */
  lemma {:induction false} ReadCellsCons(c: Cell, more: seq<Cell>, rest: string)
    requires Readable(c) && more != []
    requires ReadCells(Join(", ", Literals(more)) + rest) == Some((more, rest))
    ensures ReadCells(Join(", ", Literals([c] + more)) + rest) == Some(([c] + more, rest))
  {
    var lit := Render(c);
    var tail := Join(", ", Literals(more)) + rest;
    assert ([c] + more)[1..] == more;
    assert Literals([c] + more) == [lit] + Literals(more);
    JoinConsAppend(", ", lit, Literals(more), rest);
    ReadRender(c, ", " + tail);
    assert (", " + tail)[2..] == tail;
  }

  lemma {:induction false} ReadCellsJoin(cells: seq<Cell>, rest: string)
    requires cells != []
    requires RowReadable(cells)
    requires |rest| > 0 && rest[0] == ')'
    ensures ReadCells(Join(", ", Literals(cells)) + rest) == Some((cells, rest))
    decreases |cells|
  {
    assert Readable(cells[0]);
    SplitHead(cells, []);
    if |cells| == 1 {
      assert cells[1..] == [];
      ReadCellsOne(cells[0], rest);
    } else {
      ReadCellsJoin(cells[1..], rest);
      ReadCellsCons(cells[0], cells[1..], rest);
    }
  }

  /** A rendered tuple reads back as its row: one literal per value, in order. */
  lemma {:induction false} ReadRowTuple(row: seq<Cell>, rest: string)
    requires RowReadable(row)
    ensures ReadTuple(RowTuple(row) + rest) == Some((row, rest))
  {
    var t := RowTuple(row) + rest;
    if row == [] {
      assert t == "()" + rest;
      assert t[2..] == rest;
    } else {
      var inner := Join(", ", Literals(row)) + (")" + rest);
      assert t == "(" + inner;
      assert t[1..] == inner;
      ReadCellsJoin(row, ")" + rest);
      assert Join(", ", Literals(row)) != [] by {
        JoinCons(", ", Render(row[0]), Literals(row[1..]));
      }
      assert (")" + rest)[1..] == rest;
    }
  }

  /** A single tuple, then `;`: one row. */
  lemma {:induction false} ReadTuplesOne(row: seq<Cell>, rest: string)
    requires RowReadable(row)
    requires |rest| > 0 && rest[0] == ';'
    ensures ReadTuples(Join(",\n", Tuples([row])) + rest) == Some(([row], rest))
  {
    assert Tuples([row]) == [RowTuple(row)];
    ReadRowTuple(row, rest);
  }

  /** A tuple, ",\n" and a readable list of further tuples: the tuple's row comes first. */
  lemma {:induction false} ReadTuplesCons(row: seq<Cell>, more: seq<seq<Cell>>, rest: string)
    requires RowReadable(row) && more != []
    requires ReadTuples(Join(",\n", Tuples(more)) + rest) == Some((more, rest))
    ensures ReadTuples(Join(",\n", Tuples([row] + more)) + rest) == Some(([row] + more, rest))
  {
    var tuple := RowTuple(row);
    var tail := Join(",\n", Tuples(more)) + rest;
    assert ([row] + more)[1..] == more;
    assert Tuples([row] + more) == [tuple] + Tuples(more);
    JoinConsAppend(",\n", tuple, Tuples(more), rest);
    ReadRowTuple(row, ",\n" + tail);
    assert (",\n" + tail)[2..] == tail;
  }

  lemma {:induction false} ReadTuplesJoin(rows: seq<seq<Cell>>, rest: string)
    requires rows != []
    requires AllReadable(rows)
    requires |rest| > 0 && rest[0] == ';'
    ensures ReadTuples(Join(",\n", Tuples(rows)) + rest) == Some((rows, rest))
    decreases |rows|
  {
    SplitHead(rows, []);
    if |rows| == 1 {
      assert rows[1..] == [];
      ReadTuplesOne(rows[0], rest);
    } else {
      ReadTuplesJoin(rows[1..], rest);
      ReadTuplesCons(rows[0], rows[1..], rest);
    }
  }

  /**
   * The VALUES part holds exactly one tuple per data row, in row order, each
   * with one literal per value in order: reading it back gives the rows.
   * With no rows it is ";\n" alone.
   */
  lemma {:induction false} ValuesRoundTrip(rows: seq<seq<Cell>>, rest: string)
    requires AllReadable(rows)
    ensures ReadValues(ValuesText(rows) + rest) == Some((rows, rest))
  {
    var t := ValuesText(rows) + rest;
    if rows == [] {
      assert t == ";\n" + rest;
      assert t[2..] == rest;
    } else {
      var after := ";\n" + rest;
      var joined := Join(",\n", Tuples(rows));
      assert t == joined + after;
      JoinCons(",\n", RowTuple(rows[0]), Tuples(rows[1..]));
      assert RowTuple(rows[0])[0] == '(';
      assert t[0] == '(';
      ReadTuplesJoin(rows, after);
      assert after[2..] == rest;
    }
  }

  // ---------------------------------------------------------------------
  // Reading the column list back
  // ---------------------------------------------------------------------

  /** The length of the leading run of word characters. */
  function WordLen(t: string): (n: nat)
    ensures n <= |t|
    ensures n == |t| || !IsWordChar(t[n])
  {
    if t != [] && IsWordChar(t[0]) then 1 + WordLen(t[1..]) else 0
  }

  lemma {:induction false} WordLenPrefix(w: string, rest: string)
    requires AllWord(w)
    requires rest == [] || !IsWordChar(rest[0])
    ensures WordLen(w + rest) == |w|
  {
    if w == [] {
      assert w + rest == rest;
    } else {
      assert (w + rest)[1..] == w[1..] + rest;
      WordLenPrefix(w[1..], rest);
    }
  }

  /** One backtick-quoted identifier made of word characters. */
  function ReadIdent(t: string): (r: Option<(string, string)>)
    ensures r.Some? ==> |r.value.1| < |t|
  {
    if |t| == 0 || t[0] != '`' then None
    else
      var n := WordLen(t[1..]);
      if n + 1 < |t| && t[n + 1] == '`' then Some((t[1..n + 1], t[n + 2..])) else None
  }

  /** Identifiers separated by ", ". */
  function ReadIdents(t: string): (r: Option<(seq<string>, string)>)
    ensures r.Some? ==> |r.value.1| < |t|
    decreases |t|
  {
    match ReadIdent(t)
    case None => None
    case Some(p) =>
      if |p.1| >= 2 && p.1[0] == ',' && p.1[1] == ' ' then
        match ReadIdents(p.1[2..])
        case None => None
        case Some(q) => Some(([p.0] + q.0, q.1))
      else Some(([p.0], p.1))
  }

  /** The column list: empty, or identifiers separated by ", ". */
  function ReadColumns(t: string): Option<(seq<string>, string)>
  {
    if |t| > 0 && t[0] == '`' then ReadIdents(t) else Some(([], t))
  }

  /** The headers as they appear between the backticks, in file order. */
  function CleanAll(headers: seq<string>): seq<string>
  {
    if headers == [] then [] else [Clean(headers[0])] + CleanAll(headers[1..])
  }

  /** A sanitised name reads back as its inner text, and reading stops after its closing backtick. */
  lemma {:induction false} ReadSanitized(name: string, rest: string)
    ensures ReadIdent(SanitizeColumnName(name) + rest) == Some((Clean(name), rest))
  {
    var c := Clean(name);
    var t := SanitizeColumnName(name) + rest;
    var tail := c + ("`" + rest);
    assert t == "`" + tail;
    assert t[1..] == tail;
    WordLenPrefix(c, "`" + rest);
    assert t[|c| + 1] == '`';
    assert t[1..|c| + 1] == c;
    assert t[|c| + 2..] == rest;
  }

  /** A single sanitised name, then `)`: one identifier. */
  lemma {:induction false} ReadIdentsOne(h: string, rest: string)
    requires |rest| > 0 && rest[0] == ')'
    ensures ReadIdents(Join(", ", SanitizeColumns([h])) + rest) == Some((CleanAll([h]), rest))
  {
    assert SanitizeColumns([h]) == [SanitizeColumnName(h)];
    assert CleanAll([h]) == [Clean(h)];
    ReadSanitized(h, rest);
  }

  /** A sanitised name, ", " and a readable list of further names: its inner text comes first. */
  lemma {:induction false} ReadIdentsCons(h: string, more: seq<string>, rest: string)
    requires more != []
    requires ReadIdents(Join(", ", SanitizeColumns(more)) + rest) == Some((CleanAll(more), rest))
    ensures ReadIdents(Join(", ", SanitizeColumns([h] + more)) + rest) == Some((CleanAll([h] + more), rest))
  {
    var name := SanitizeColumnName(h);
    var tail := Join(", ", SanitizeColumns(more)) + rest;
    assert ([h] + more)[1..] == more;
    assert SanitizeColumns([h] + more) == [name] + SanitizeColumns(more);
    assert CleanAll([h] + more) == [Clean(h)] + CleanAll(more);
    JoinConsAppend(", ", name, SanitizeColumns(more), rest);
    ReadSanitized(h, ", " + tail);
    assert (", " + tail)[2..] == tail;
  }

  lemma {:induction false} ReadIdentsJoin(headers: seq<string>, rest: string)
    requires headers != []
    requires |rest| > 0 && rest[0] == ')'
    ensures ReadIdents(Join(", ", SanitizeColumns(headers)) + rest) == Some((CleanAll(headers), rest))
    decreases |headers|
  {
    SplitHead(headers, []);
    if |headers| == 1 {
      assert headers[1..] == [];
      ReadIdentsOne(headers[0], rest);
    } else {
      ReadIdentsJoin(headers[1..], rest);
      ReadIdentsCons(headers[0], headers[1..], rest);
    }
  }

  /**
   * The column list of the statement is the sanitised headers in file order:
   * reading it back gives the inner text of each header, one per header.
   */
  lemma {:induction false} ColumnsRoundTrip(headers: seq<string>, rest: string)
    requires |rest| > 0 && rest[0] == ')'
    ensures ReadColumns(Join(", ", SanitizeColumns(headers)) + rest) == Some((CleanAll(headers), rest))
  {
    if headers == [] {
      assert Join(", ", SanitizeColumns(headers)) + rest == rest;
    } else {
      JoinCons(", ", SanitizeColumnName(headers[0]), SanitizeColumns(headers[1..]));
      assert (Join(", ", SanitizeColumns(headers)) + rest)[0] == '`';
      ReadIdentsJoin(headers, rest);
    }
  }

  // ---------------------------------------------------------------------
  // Reading the whole statement back
  // ---------------------------------------------------------------------

  /** What follows the column list: `) VALUES` and a line break. */
  const ValuesKeyword: string := ") VALUES\n"

  /** The statement after `INSERT INTO <table> (`: columns, the VALUES keyword, the tuples. */
  function ReadStatementBody(t: string): Option<(seq<string>, seq<seq<Cell>>, string)>
  {
    match ReadColumns(t)
    case None => None
    case Some(p) =>
      if !StartsWith(p.1, ValuesKeyword) then None
      else
        match ReadValues(p.1[|ValuesKeyword|..])
        case None => None
        case Some(q) => Some((p.0, q.0, q.1))
  }

  lemma {:induction false} Regroup(p: string, a: string, b: string, c: string, d: string, e: string, f: string, g: string)
    ensures p + (a + b + c + d + e) + f + g == (p + a + b + c) + (d + (e + (f + g)))
  {
  }

  /** The text up to the column list: the header comment and `INSERT INTO <table> (`. */
  function StatementLead(table: string): string
  {
    Prologue(table) + "INSERT INTO " + table + " ("
  }

  /**
   * The file written for a table, headers and rows: it opens with the header
   * comment and `INSERT INTO` followed by the table name exactly as given
   * (neither sanitised nor quoted); the rest reads back as the sanitised
   * headers in file order, then the rows in order, then the fixed footer.
   */
  lemma {:induction false} ScriptRoundTrip(table: string, headers: seq<string>, rows: seq<seq<Cell>>)
    requires AllReadable(rows)
    ensures StartsWith(Script(table, headers, rows), StatementLead(table))
    ensures ReadStatementBody(Script(table, headers, rows)[|StatementLead(table)|..])
            == Some((CleanAll(headers), rows, Epilogue()))
  {
    var lead := StatementLead(table);
    var cols := Join(", ", SanitizeColumns(headers));
    var body := cols + (ValuesKeyword + (ValuesText(rows) + Epilogue()));
    Regroup(Prologue(table), "INSERT INTO ", table, " (", cols, ValuesKeyword, ValuesText(rows), Epilogue());
    assert Script(table, headers, rows) == lead + body;
    assert (lead + body)[|lead|..] == body;
    StatementBodyRoundTrip(headers, rows, Epilogue());
  }

  /** After `INSERT INTO <table> (`, the statement reads back as the columns and the rows. */
  lemma {:induction false} StatementBodyRoundTrip(headers: seq<string>, rows: seq<seq<Cell>>, rest: string)
    requires AllReadable(rows)
    ensures ReadStatementBody(Join(", ", SanitizeColumns(headers)) + (ValuesKeyword + (ValuesText(rows) + rest)))
            == Some((CleanAll(headers), rows, rest))
  {
    var values := ValuesText(rows) + rest;
    ColumnsRoundTrip(headers, ValuesKeyword + values);
    assert (ValuesKeyword + values)[|ValuesKeyword|..] == values;
    ValuesRoundTrip(rows, rest);
  }
}
