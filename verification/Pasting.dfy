/** Pasting tab-separated text into a table: parser, bounds and cells together. */
module Pasting {
  import opened Wrappers
  import opened DeckModel
  import opened Commands
  import opened LocalEdits
  import Tsv
  import TableEdits

  /** A cell whose content has a place for plain text. */
  predicate TakesText(content: RichText) {
    content.blocks != [] && (content.blocks[0].ListBlock? ==> content.blocks[0].items != [])
  }

  /** The whole text of a content that is one block with one run. */
  function OnlyText(content: RichText): Option<string> {
    if |content.blocks| != 1 then None
    else
      match content.blocks[0]
      case Paragraph(_, runs) => if |runs| == 1 then Some(runs[0].text) else None
      case Heading(_, _, runs) => if |runs| == 1 then Some(runs[0].text) else None
      case ListBlock(_, _, items) =>
        if |items| == 1 && |items[0].runs| == 1 then Some(items[0].runs[0].text) else None
  }

  /** After the paste the cell shows exactly `text`; nothing but its content has changed. */
  ghost predicate Shows(before: TableCell, after: TableCell, text: string) {
    && after == before.(content := after.content)
    && (if TakesText(before.content) then OnlyText(after.content) == Some(text) else after == before)
  }

  lemma PastedCellShows(
    cell: TableCell, startRow: nat, startColumn: nat, matrix: Tsv.Matrix)
    ensures var pasted := PastedCell(cell, startRow, startColumn, matrix);
      if InPastedRange(cell, startRow, startColumn, matrix)
      then Shows(cell, pasted, matrix[cell.row - startRow][cell.column - startColumn])
      else pasted == cell
  {
  }

  /**
   Pasting a written matrix of at least two columns succeeds exactly when it fits, and then every cell
   under it shows its own text, whatever tabs, newlines or quotes that holds, and no other cell changes.
   */
  lemma PastingShowsMatrix(
    table: Table, startRow: nat, startColumn: nat, matrix: Tsv.Matrix)
    requires TableEdits.IsSimple(table)
    requires Tsv.WithinLimits(matrix) && Tsv.Rectangular(matrix) && |matrix[0]| >= 2
    requires |Tsv.QuotedText(matrix)| <= Tsv.MAX_TSV_LENGTH
    ensures var pasted := PasteTsv(table, startRow, startColumn, Tsv.QuotedText(matrix));
      && (pasted.Ok? <==> startRow + |matrix| <= table.rowCount && startColumn + |matrix[0]| <= table.columnCount)
      && (pasted.Ok? ==>
           && |pasted.value.cells| == |table.cells| && pasted.value == table.(cells := pasted.value.cells)
           && forall i | 0 <= i < |table.cells| ::
                var cell := table.cells[i];
                if InPastedRange(cell, startRow, startColumn, matrix)
                then Shows(cell, pasted.value.cells[i], matrix[cell.row - startRow][cell.column - startColumn])
                else pasted.value.cells[i] == cell)
  {
    Tsv.WideMatricesRoundTrip(matrix);
    var pasted := PasteTsv(table, startRow, startColumn, Tsv.QuotedText(matrix));
    if pasted.Ok? {
      forall i | 0 <= i < |table.cells|
        ensures var cell := table.cells[i];
          if InPastedRange(cell, startRow, startColumn, matrix)
          then Shows(cell, pasted.value.cells[i], matrix[cell.row - startRow][cell.column - startColumn])
          else pasted.value.cells[i] == cell
      {
        PastedCellShows(table.cells[i], startRow, startColumn, matrix);
      }
    }
  }
}
