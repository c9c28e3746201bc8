/** The spreadsheet TSV parser, and the quoted writing it undoes. */
module Tsv {
  import opened Wrappers

  const MAX_TSV_LENGTH := 5_000_000
  const MAX_ROWS := 200
  const MAX_COLUMNS := 200

  type Row = seq<string>
  type Matrix = seq<Row>

  datatype TsvError =
    | EmptyInput | TooLong | CharacterAfterQuote | QuoteInsideField | UnterminatedQuote
    | TooManyColumns | TooManyRows | RaggedRows

  datatype ParserState = ParserState(rows: Matrix, row: Row, cell: string, quoted: bool, closed: bool)

  const START := ParserState([], [], "", false, false)

  function PushCell(state: ParserState): ParserState {
    state.(row := state.row + [state.cell], cell := "", closed := false)
  }

  function PushRow(state: ParserState): Result<ParserState, TsvError> {
    var pushed := PushCell(state);
    if |pushed.row| > MAX_COLUMNS then Err(TooManyColumns)
    else if |pushed.rows| + 1 > MAX_ROWS then Err(TooManyRows)
    else Ok(pushed.(rows := pushed.rows + [pushed.row], row := []))
  }

  function SecondIs(rest: string, expected: char): bool {
    |rest| > 1 && rest[1] == expected
  }

  /** Characters consumed and the state after them, for one turn of the parser's loop. */
  function Turn(rest: string, state: ParserState): (turn: Result<(nat, ParserState), TsvError>)
    requires rest != ""
    ensures turn.Ok? ==> 1 <= turn.value.0 <= |rest|
  {
    var character := rest[0];
    if state.quoted then
      if character != '"' then Ok((1, state.(cell := state.cell + [character])))
      else if SecondIs(rest, '"') then Ok((2, state.(cell := state.cell + ['"'])))
      else Ok((1, state.(quoted := false, closed := true)))
    else if state.closed && character != '\t' && character != '\r' && character != '\n' then
      Err(CharacterAfterQuote)
    else if character == '"' then
      if |state.cell| > 0 then Err(QuoteInsideField) else Ok((1, state.(quoted := true)))
    else if character == '\t' then Ok((1, PushCell(state)))
    else if character == '\r' || character == '\n' then
      var pushed := PushRow(state);
      if pushed.Err? then Err(pushed.error)
      else Ok((if character == '\r' && SecondIs(rest, '\n') then 2 else 1, pushed.value))
    else Ok((1, state.(cell := state.cell + [character])))
  }

  function Run(rest: string, state: ParserState): Result<ParserState, TsvError>
    decreases |rest|
  {
    if rest == "" then Ok(state)
    else
      var turn := Turn(rest, state);
      if turn.Err? then Err(turn.error) else Run(rest[turn.value.0..], turn.value.1)
  }

  predicate EndsWithNewline(input: string) {
    |input| > 0 && (input[|input| - 1] == '\n' || input[|input| - 1] == '\r')
  }

  predicate EndsWithTab(input: string) {
    |input| > 0 && input[|input| - 1] == '\t'
  }

  predicate Rectangular(rows: Matrix) {
    forall i | 0 <= i < |rows| :: |rows[i]| == |rows[0]|
  }

  /** What happens after the last character: close the open row, drop a trailing blank one. */
  function Finish(input: string, state: ParserState): Result<Matrix, TsvError> {
    if state.quoted then Err(UnterminatedQuote)
    else
      var last :=
        if |state.row| > 0 || |state.cell| > 0 || EndsWithTab(input) then PushRow(state) else Ok(state);
      if last.Err? then Err(last.error)
      else
        var all := last.value.rows;
        var rows :=
          if |all| > 1 && all[|all| - 1] == [""] && EndsWithNewline(input) then all[..|all| - 1] else all;
        if rows == [] then Ok([[""]])
        else if !Rectangular(rows) then Err(RaggedRows)
        else Ok(rows)
  }

  function Parse(input: string): Result<Matrix, TsvError> {
    if |input| == 0 then Err(EmptyInput)
    else if |input| > MAX_TSV_LENGTH then Err(TooLong)
    else
      var state := Run(input, START);
      if state.Err? then Err(state.error) else Finish(input, state.value)
  }

  method ParseTsv(input: string) returns (result: Result<Matrix, TsvError>)
    ensures result == Parse(input)
  {
    if |input| == 0 { return Err(EmptyInput); }
    if |input| > MAX_TSV_LENGTH { return Err(TooLong); }
    var rows: Matrix, row: Row, cell, quoted, justClosedQuote := [], [], "", false, false;
    var position := 0;
    while position < |input|
      invariant position <= |input|
      invariant Run(input, START) == Run(input[position..], ParserState(rows, row, cell, quoted, justClosedQuote))
    {
      ghost var rest, state := input[position..], ParserState(rows, row, cell, quoted, justClosedQuote);
      var character := input[position];
      var next := if position + 1 < |input| then input[position + 1] else ' ';
      var consumed := 1;
      if quoted {
        if character == '"' {
          if next == '"' {
            cell := cell + ['"'];
            consumed := 2;
          } else {
            quoted := false;
            justClosedQuote := true;
          }
        } else {
          cell := cell + [character];
        }
      } else {
        if justClosedQuote && character != '\t' && character != '\r' && character != '\n' {
          return Err(CharacterAfterQuote);
        }
        if character == '"' {
          if |cell| > 0 { return Err(QuoteInsideField); }
          quoted := true;
        } else if character == '\t' {
          row, cell, justClosedQuote := row + [cell], "", false;
        } else if character == '\r' || character == '\n' {
          if character == '\r' && next == '\n' { consumed := 2; }
          row, cell, justClosedQuote := row + [cell], "", false;
          if |row| > MAX_COLUMNS { return Err(TooManyColumns); }
          rows, row := rows + [row], [];
          if |rows| > MAX_ROWS { return Err(TooManyRows); }
        } else {
          cell := cell + [character];
        }
      }
      assert Turn(rest, state) == Ok((consumed, ParserState(rows, row, cell, quoted, justClosedQuote)));
      OneTurn(rest, state, consumed, ParserState(rows, row, cell, quoted, justClosedQuote), rest[consumed..]);
      assert rest[consumed..] == input[position + consumed..];
      position := position + consumed;
    }
    result := Finish(input, ParserState(rows, row, cell, quoted, justClosedQuote));
  }

  // ----- Writing -----

  function Doubled(cell: string): string {
    if cell == "" then ""
    else (if cell[0] == '"' then "\"\"" else [cell[0]]) + Doubled(cell[1..])
  }

  function QuoteCell(cell: string): string {
    "\"" + Doubled(cell) + "\""
  }

  function RowText(row: Row): string
    requires row != []
  {
    if |row| == 1 then QuoteCell(row[0]) else QuoteCell(row[0]) + "\t" + RowText(row[1..])
  }

  /** Every cell quoted, inner quotes doubled, tabs between cells and newlines between rows. */
  function QuotedText(matrix: Matrix): string
    requires matrix != [] && forall i | 0 <= i < |matrix| :: matrix[i] != []
  {
    if |matrix| == 1 then RowText(matrix[0]) else RowText(matrix[0]) + "\n" + QuotedText(matrix[1..])
  }

  // ----- Reading what was written -----

  predicate Fresh(state: ParserState) {
    !state.quoted && !state.closed && state.cell == ""
  }

  function Closed(state: ParserState, cell: string): ParserState {
    state.(cell := cell, quoted := false, closed := true)
  }

  predicate Separates(rest: string) {
    rest == "" || rest[0] == '\t' || rest[0] == '\n'
  }

  lemma OneTurn(text: string, state: ParserState, width: nat, next: ParserState, rest: string)
    requires text != "" && Turn(text, state) == Ok((width, next)) && text[width..] == rest
    ensures Run(text, state) == Run(rest, next)
  {
  }

  lemma Regroup(a: string, b: string, c: string, d: string)
    ensures a + b + c + d == a + b + (c + d)
  {
  }

  lemma Associate(a: string, b: string, c: string)
    ensures a + b + c == a + (b + c)
  {
  }

  lemma SplitLast(before: Row, row: Row)
    requires |row| > 1
    ensures before + [row[0]] + row[1..][..|row| - 2] == before + row[..|row| - 1]
  {
  }

  lemma SplitLastRow(before: Matrix, rows: Matrix)
    requires |rows| > 1
    ensures before + [rows[0]] + rows[1..][..|rows| - 2] == before + rows[..|rows| - 1]
  {
  }

  /** Inside quotes a doubled cell is read back whole, whatever it contains. */
  lemma {:induction false} RunDoubled(cell: string, rest: string, state: ParserState)
    requires state.quoted && Separates(rest)
    ensures Run(Doubled(cell) + "\"" + rest, state) == Run(rest, Closed(state, state.cell + cell))
    decreases |cell|
  {
    var text := Doubled(cell) + "\"" + rest;
    if cell == "" {
      assert text == "\"" + rest;
      assert state.cell + cell == state.cell;
      OneTurn(text, state, 1, Closed(state, state.cell), rest);
    } else {
      var width := if cell[0] == '"' then 2 else 1;
      var next := state.(cell := state.cell + [cell[0]]);
      Regroup(if width == 2 then "\"\"" else [cell[0]], Doubled(cell[1..]), "\"", rest);
      OneTurn(text, state, width, next, Doubled(cell[1..]) + "\"" + rest);
      RunDoubled(cell[1..], rest, next);
      assert state.cell + [cell[0]] + cell[1..] == state.cell + cell;
    }
  }

  lemma RunQuotedCell(cell: string, rest: string, state: ParserState)
    requires Fresh(state) && Separates(rest)
    ensures Run(QuoteCell(cell) + rest, state) == Run(rest, Closed(state, cell))
  {
    var text := QuoteCell(cell) + rest;
    OneTurn(text, state, 1, state.(quoted := true), Doubled(cell) + "\"" + rest);
    RunDoubled(cell, rest, state.(quoted := true));
    assert "" + cell == cell;
  }

  function Last<T>(items: seq<T>): T
    requires items != []
  {
    items[|items| - 1]
  }

  /** A written cell and its tab file the cell. */
  lemma RunTabbedCell(cell: string, rest: string, state: ParserState)
    requires Fresh(state)
    ensures Run(QuoteCell(cell) + "\t" + rest, state) == Run(rest, state.(row := state.row + [cell]))
  {
    var tail := "\t" + rest;
    Associate(QuoteCell(cell), "\t", rest);
    RunQuotedCell(cell, tail, state);
    OneTurn(tail, Closed(state, cell), 1, state.(row := state.row + [cell]), rest);
  }

  lemma {:induction false} RunRow(row: Row, rest: string, state: ParserState)
    requires Fresh(state) && row != [] && (rest == "" || rest[0] == '\n')
    ensures Run(RowText(row) + rest, state)
      == Run(rest, Closed(state.(row := state.row + row[..|row| - 1]), Last(row)))
    decreases |row|
  {
    if |row| == 1 {
      RunQuotedCell(row[0], rest, state);
      assert state.row + row[..0] == state.row;
    } else {
      var tail := RowText(row[1..]) + rest;
      Regroup(QuoteCell(row[0]), "\t", RowText(row[1..]), rest);
      RunTabbedCell(row[0], tail, state);
      RunRow(row[1..], rest, state.(row := state.row + [row[0]]));
      SplitLast(state.row, row);
    }
  }

  predicate WithinLimits(matrix: Matrix) {
    matrix != [] && |matrix| <= MAX_ROWS &&
    forall i | 0 <= i < |matrix| :: 1 <= |matrix[i]| <= MAX_COLUMNS
  }

  /** The state in which the parser reaches the end of a written matrix. */
  function Reached(matrix: Matrix): ParserState
    requires WithinLimits(matrix)
  {
    var row := Last(matrix);
    ParserState(matrix[..|matrix| - 1], row[..|row| - 1], Last(row), false, true)
  }

  lemma NewlineTurn(row: Row, rest: string, state: ParserState)
    requires 1 <= |row| <= MAX_COLUMNS && |state.rows| < MAX_ROWS
    ensures Turn("\n" + rest, ParserState(state.rows, row[..|row| - 1], Last(row), false, true))
      == Ok((1, ParserState(state.rows + [row], [], "", false, false)))
  {
    assert row[..|row| - 1] + [Last(row)] == row;
  }

  /** A written row and its newline file the row. */
  lemma RunFiledRow(row: Row, rest: string, state: ParserState)
    requires Fresh(state) && state.row == [] && 1 <= |row| <= MAX_COLUMNS && |state.rows| < MAX_ROWS
    ensures Run(RowText(row) + "\n" + rest, state) == Run(rest, state.(rows := state.rows + [row]))
  {
    var tail := "\n" + rest;
    var open := ParserState(state.rows, row[..|row| - 1], Last(row), false, true);
    Associate(RowText(row), "\n", rest);
    assert state.row + row[..|row| - 1] == row[..|row| - 1];
    RunRow(row, tail, state);
    NewlineTurn(row, rest, state);
    OneTurn(tail, open, 1, state.(rows := state.rows + [row]), rest);
  }

  lemma {:induction false} RunMatrix(matrix: Matrix, state: ParserState)
    requires WithinLimits(matrix) && Fresh(state) && state.row == [] && |state.rows| + |matrix| <= MAX_ROWS
    ensures Run(QuotedText(matrix), state) == Ok(Reached(matrix).(rows := state.rows + matrix[..|matrix| - 1]))
    decreases |matrix|
  {
    var row := matrix[0];
    if |matrix| == 1 {
      assert RowText(row) + "" == RowText(row);
      RunRow(row, "", state);
      assert state.row + row[..|row| - 1] == row[..|row| - 1];
      assert state.rows + matrix[..0] == state.rows;
    } else {
      RunFiledRow(row, QuotedText(matrix[1..]), state);
      RunMatrix(matrix[1..], state.(rows := state.rows + [row]));
      SplitLastRow(state.rows, matrix);
    }
  }

  lemma {:induction false} RowTextEndsWithQuote(row: Row)
    requires row != []
    ensures RowText(row) != "" && Last(RowText(row)) == '"'
    decreases |row|
  {
    if |row| > 1 {
      RowTextEndsWithQuote(row[1..]);
    }
  }

  lemma {:induction false} TextEndsWithQuote(matrix: Matrix)
    requires WithinLimits(matrix)
    ensures QuotedText(matrix) != "" && Last(QuotedText(matrix)) == '"'
    decreases |matrix|
  {
    RowTextEndsWithQuote(matrix[0]);
    if |matrix| > 1 {
      TextEndsWithQuote(matrix[1..]);
    }
  }

  /** A blank last row of a single-column matrix leaves no trace in the parser. */
  predicate LosesLastRow(matrix: Matrix)
    requires WithinLimits(matrix)
  {
    |matrix| > 1 && Last(matrix) == [""]
  }

  lemma FinishReached(matrix: Matrix, text: string)
    requires WithinLimits(matrix) && Rectangular(matrix)
    requires text != "" && Last(text) == '"'
    ensures Finish(text, Reached(matrix)) == Ok(if LosesLastRow(matrix) then matrix[..|matrix| - 1] else matrix)
  {
    var row := Last(matrix);
    var state := Reached(matrix);
    if |row| == 1 && Last(row) == "" {
      assert row == [""];
      assert |matrix| == 1 ==> matrix == [row];
    } else {
      assert state.row + [state.cell] == row;
      assert state.rows + [row] == matrix;
      assert PushRow(state) == Ok(Closed(state, "").(rows := matrix, row := [], closed := false));
    }
  }

  lemma ParseQuoted(matrix: Matrix)
    requires WithinLimits(matrix) && Rectangular(matrix) && |QuotedText(matrix)| <= MAX_TSV_LENGTH
    ensures Parse(QuotedText(matrix)) == Ok(if LosesLastRow(matrix) then matrix[..|matrix| - 1] else matrix)
  {
    var text := QuotedText(matrix);
    TextEndsWithQuote(matrix);
    RunMatrix(matrix, START);
    assert START.rows + matrix[..|matrix| - 1] == matrix[..|matrix| - 1];
    assert Run(text, START) == Ok(Reached(matrix));
    FinishReached(matrix, text);
  }

  /** Parsing undoes quoting exactly when the text does not end in a lone blank row. */
  lemma ParsingUndoesQuoting(matrix: Matrix)
    requires WithinLimits(matrix) && Rectangular(matrix) && |QuotedText(matrix)| <= MAX_TSV_LENGTH
    ensures Parse(QuotedText(matrix)) == Ok(matrix) <==> |matrix| == 1 || Last(matrix) != [""]
  {
    ParseQuoted(matrix);
  }

  /** With two columns nothing can be lost, whatever tabs, newlines or quotes the cells hold. */
  lemma WideMatricesRoundTrip(matrix: Matrix)
    requires WithinLimits(matrix) && Rectangular(matrix) && |matrix[0]| >= 2
    requires |QuotedText(matrix)| <= MAX_TSV_LENGTH
    ensures Parse(QuotedText(matrix)) == Ok(matrix)
  {
    ParsingUndoesQuoting(matrix);
    assert |Last(matrix)| == |matrix[0]|;
  }

  /** The failing family is not empty: a column of "a" over a blank cell comes back without the blank. */
  lemma BlankLastCellIsDropped()
    ensures Parse(QuotedText([["a"], [""]])) == Ok([["a"]])
  {
    var matrix := [["a"], [""]];
    assert QuotedText(matrix[1..]) == RowText([""]);
    assert Doubled("a") == "a" by { assert "a"[1..] == ""; }
    assert QuotedText(matrix) == "\"a\"\n\"\"";
    ParseQuoted(matrix);
    assert matrix[..1] == [["a"]];
  }
}
