/** Inserting and deleting table rows and columns. */
module TableEdits {
  import opened Wrappers
  import opened DeckModel
  import opened Commands
  import opened Tables

  const MAX_TABLE_LINES := 200

  /** Rows and columns are edited by the same steps with the two coordinates exchanged. */
  datatype Axis = RowAxis | ColumnAxis

  function Along(axis: Axis, row: nat, column: nat): nat {
    if axis.RowAxis? then row else column
  }

  function Line(cell: TableCell, axis: Axis): nat {
    if axis.RowAxis? then cell.row else cell.column
  }

  function Opposite(cell: TableCell, axis: Axis): nat {
    if axis.RowAxis? then cell.column else cell.row
  }

  function WithLine(cell: TableCell, axis: Axis, line: nat): TableCell {
    if axis.RowAxis? then cell.(row := line) else cell.(column := line)
  }

  function LineCount(table: Table, axis: Axis): nat {
    if axis.RowAxis? then table.rowCount else table.columnCount
  }

  function OppositeCount(table: Table, axis: Axis): nat {
    if axis.RowAxis? then table.columnCount else table.rowCount
  }

  function LineSizes(table: Table, axis: Axis): seq<real> {
    if axis.RowAxis? then table.rowHeights else table.columnWidths
  }

  function WithLines(table: Table, axis: Axis, count: nat, sizes: seq<real>, cells: seq<TableCell>): Table {
    if axis.RowAxis? then table.(rowCount := count, rowHeights := sizes, cells := cells)
    else table.(columnCount := count, columnWidths := sizes, cells := cells)
  }

  predicate SingleSpan(cell: TableCell) {
    cell.rowSpan == 1 && cell.columnSpan == 1
  }

  predicate IsSimple(table: Table) {
    forall i | 0 <= i < |table.cells| :: SingleSpan(table.cells[i])
  }

  predicate FitsNewLine(cell: TableCell, count: nat, axis: Axis, index: nat) {
    Line(cell, axis) == index && SingleSpan(cell) && Opposite(cell, axis) < count
  }

  function OppositePositions(cells: seq<TableCell>, axis: Axis): set<nat> {
    if cells == [] then {}
    else OppositePositions(cells[..|cells| - 1], axis) + {Opposite(cells[|cells| - 1], axis)}
  }

  lemma {:induction false} PositionListed(cells: seq<TableCell>, axis: Axis, place: nat)
    ensures place in OppositePositions(cells, axis) <==>
      exists i :: 0 <= i < |cells| && Opposite(cells[i], axis) == place
  {
    if cells != [] {
      PositionListed(cells[..|cells| - 1], axis, place);
    }
  }

  /** Exactly one fresh cell for every place of the new line. */
  predicate InsertedCellsFit(cells: seq<TableCell>, count: nat, axis: Axis, index: nat) {
    |cells| == count &&
    (forall i | 0 <= i < |cells| :: FitsNewLine(cells[i], count, axis, index)) &&
    |OppositePositions(cells, axis)| == count
  }

  method ValidateInsertedCells(cells: seq<TableCell>, count: nat, axis: Axis, index: nat) returns (fits: bool)
    ensures fits <==> InsertedCellsFit(cells, count, axis, index)
  {
    if |cells| != count { return false; }
    var positions: set<nat> := {};
    for n := 0 to |cells|
      invariant forall i | 0 <= i < n :: FitsNewLine(cells[i], count, axis, index)
      invariant positions == OppositePositions(cells[..n], axis)
    {
      if !FitsNewLine(cells[n], count, axis, index) { return false; }
      assert cells[..n + 1][..n] == cells[..n];
      positions := positions + {Opposite(cells[n], axis)};
    }
    assert cells[..|cells|] == cells;
    fits := |positions| == count;
  }

  predicate Before(left: TableCell, right: TableCell) {
    left.row < right.row || (left.row == right.row && left.column <= right.column)
  }

  function InsertSorted(cell: TableCell, sorted: seq<TableCell>): seq<TableCell> {
    if sorted == [] || Before(cell, sorted[0]) then [cell] + sorted
    else [sorted[0]] + InsertSorted(cell, sorted[1..])
  }

  /** Cells by row, then by column. */
  function SortedTableCells(cells: seq<TableCell>): seq<TableCell> {
    if cells == [] then [] else InsertSorted(cells[0], SortedTableCells(cells[1..]))
  }

  function RaisedCell(cell: TableCell, axis: Axis, index: nat): TableCell {
    if Line(cell, axis) >= index then WithLine(cell, axis, Line(cell, axis) + 1) else cell
  }

  function Raised(cells: seq<TableCell>, axis: Axis, index: nat): seq<TableCell> {
    if cells == [] then []
    else [RaisedCell(cells[0], axis, index)] + Raised(cells[1..], axis, index)
  }

  function Lowered(cell: TableCell, axis: Axis, index: nat): TableCell {
    if Line(cell, axis) > index then WithLine(cell, axis, Line(cell, axis) - 1) else cell
  }

  function Kept(cells: seq<TableCell>, axis: Axis, index: nat): seq<TableCell> {
    if cells == [] then []
    else if Line(cells[0], axis) == index then Kept(cells[1..], axis, index)
    else [Lowered(cells[0], axis, index)] + Kept(cells[1..], axis, index)
  }

  function InsertLine(table: Table, axis: Axis, index: nat, size: real, cells: seq<TableCell>)
    : Result<Table, CommandError>
  {
    var count := LineCount(table, axis);
    var sizes := LineSizes(table, axis);
    if !IsSimple(table) then Err(UnsupportedOperation)
    else if index > count then Err(InvalidIndex)
    else if count >= MAX_TABLE_LINES then Err(LimitExceeded)
    else if !InsertedCellsFit(cells, OppositeCount(table, axis), axis, index) then Err(InvalidSelection)
    else if index > |sizes| then Err(InvalidIndex)
    else
      Ok(WithLines(
        table, axis, count + 1, sizes[..index] + [size] + sizes[index..],
        SortedTableCells(Raised(table.cells, axis, index) + cells)))
  }

  function DeleteLine(table: Table, axis: Axis, index: nat): Result<Table, CommandError> {
    var count := LineCount(table, axis);
    var sizes := LineSizes(table, axis);
    if !IsSimple(table) then Err(UnsupportedOperation)
    else if count == 1 then Err(LastResource)
    else if index >= count then Err(InvalidIndex)
    else
      Ok(WithLines(
        table, axis, count - 1,
        if index < |sizes| then sizes[..index] + sizes[index + 1..] else sizes,
        Kept(table.cells, axis, index)))
  }

  // ----- Tilings of single cells -----

  predicate SamePosition(left: TableCell, right: TableCell) {
    left.row == right.row && left.column == right.column
  }

  predicate DistinctPositions(cells: seq<TableCell>) {
    forall i, j | 0 <= i < j < |cells| :: !SamePosition(cells[i], cells[j])
  }

  predicate Occupied(cells: seq<TableCell>, row: nat, column: nat) {
    exists i :: 0 <= i < |cells| && cells[i].row == row && cells[i].column == column
  }

  ghost predicate FillsGrid(table: Table) {
    forall row: nat, column: nat | row < table.rowCount && column < table.columnCount ::
      Occupied(table.cells, row, column)
  }

  /** A valid table of single cells: what row and column edits start from and end in. */
  ghost predicate SimpleTiling(table: Table) {
    TableSchema(table) && DimensionsMatch(table) && IsSimple(table) && Tiles(table)
  }

  lemma TilingFillsGrid(table: Table)
    requires IsSimple(table) && Tiles(table)
    ensures DistinctPositions(table.cells) && FillsGrid(table)
  {
    forall i, j | 0 <= i < j < |table.cells| ensures !SamePosition(table.cells[i], table.cells[j]) {
      if SamePosition(table.cells[i], table.cells[j]) {
        OneOwner(table, i, j, table.cells[i].row, table.cells[i].column);
      }
    }
    forall row: nat, column: nat | row < table.rowCount && column < table.columnCount
      ensures Occupied(table.cells, row, column)
    {
      assert CoveredOnce(table, row, column);
    }
  }

  lemma OccupiedOnce(table: Table, row: nat, column: nat)
    requires IsSimple(table) && DistinctPositions(table.cells) && Occupied(table.cells, row, column)
    ensures CoveredOnce(table, row, column)
  {
    var i :| 0 <= i < |table.cells| && table.cells[i].row == row && table.cells[i].column == column;
    assert Covers(table.cells[i], row, column);
    forall j | 0 <= j < |table.cells| && Covers(table.cells[j], row, column) ensures j == i {
      assert SamePosition(table.cells[i], table.cells[j]) && SamePosition(table.cells[j], table.cells[i]);
    }
  }

  lemma SimpleTilesByPosition(table: Table)
    requires IsSimple(table)
    ensures Tiles(table) <==> AllInBounds(table) && DistinctPositions(table.cells) && FillsGrid(table)
  {
    if Tiles(table) {
      TilingFillsGrid(table);
    } else if AllInBounds(table) && DistinctPositions(table.cells) && FillsGrid(table) {
      forall row: nat, column: nat | row < table.rowCount && column < table.columnCount
        ensures CoveredOnce(table, row, column)
      {
        OccupiedOnce(table, row, column);
      }
    }
  }

  // ----- Sorting keeps a tiling -----

  lemma {:induction false} InsertSortedMembers(cell: TableCell, sorted: seq<TableCell>)
    ensures multiset(InsertSorted(cell, sorted)) == multiset{cell} + multiset(sorted)
  {
    if sorted != [] && !Before(cell, sorted[0]) {
      InsertSortedMembers(cell, sorted[1..]);
      assert sorted == [sorted[0]] + sorted[1..];
    }
  }

  lemma {:induction false} SortingPermutes(cells: seq<TableCell>)
    ensures multiset(SortedTableCells(cells)) == multiset(cells)
  {
    if cells != [] {
      SortingPermutes(cells[1..]);
      InsertSortedMembers(cells[0], SortedTableCells(cells[1..]));
      assert cells == [cells[0]] + cells[1..];
    }
  }

  predicate Free(cells: seq<TableCell>, cell: TableCell) {
    forall i | 0 <= i < |cells| :: !SamePosition(cells[i], cell)
  }

  lemma {:induction false} InsertSortedDistinct(cell: TableCell, sorted: seq<TableCell>)
    requires DistinctPositions(sorted) && Free(sorted, cell)
    ensures DistinctPositions(InsertSorted(cell, sorted))
  {
    if sorted != [] && !Before(cell, sorted[0]) {
      var rest := InsertSorted(cell, sorted[1..]);
      InsertSortedDistinct(cell, sorted[1..]);
      InsertSortedMembers(cell, sorted[1..]);
      forall i | 0 <= i < |rest| ensures !SamePosition(sorted[0], rest[i]) {
        assert rest[i] in multiset(rest);
        assert rest[i] == cell || rest[i] in sorted[1..];
      }
    }
  }

  lemma {:induction false} SortingKeepsDistinct(cells: seq<TableCell>)
    requires DistinctPositions(cells)
    ensures DistinctPositions(SortedTableCells(cells))
  {
    if cells != [] {
      var rest := SortedTableCells(cells[1..]);
      SortingKeepsDistinct(cells[1..]);
      SortingPermutes(cells[1..]);
      forall i | 0 <= i < |rest| ensures !SamePosition(rest[i], cells[0]) {
        assert rest[i] in multiset(rest);
        assert rest[i] in cells[1..];
      }
      InsertSortedDistinct(cells[0], rest);
    }
  }

  lemma SortingKeepsMembers(cells: seq<TableCell>, cell: TableCell)
    ensures cell in SortedTableCells(cells) <==> cell in cells
  {
    SortingPermutes(cells);
    assert cell in multiset(SortedTableCells(cells)) <==> cell in multiset(cells);
  }

  /** Sorted means sorted: each cell comes before the next. */
  predicate InOrder(cells: seq<TableCell>) {
    forall i | 0 <= i < |cells| - 1 :: Before(cells[i], cells[i + 1])
  }

  lemma {:induction false} InsertSortedInOrder(cell: TableCell, sorted: seq<TableCell>)
    requires InOrder(sorted)
    ensures InOrder(InsertSorted(cell, sorted))
  {
    if sorted != [] && !Before(cell, sorted[0]) {
      assert InOrder(sorted[1..]);
      InsertSortedInOrder(cell, sorted[1..]);
    }
  }

  lemma {:induction false} SortingSorts(cells: seq<TableCell>)
    ensures InOrder(SortedTableCells(cells))
  {
    if cells != [] {
      SortingSorts(cells[1..]);
      InsertSortedInOrder(cells[0], SortedTableCells(cells[1..]));
    }
  }

  // ----- Insertion -----

  lemma {:induction false} RaisedCells(cells: seq<TableCell>, axis: Axis, index: nat)
    ensures |Raised(cells, axis, index)| == |cells|
    ensures forall i | 0 <= i < |cells| ::
      Raised(cells, axis, index)[i] == RaisedCell(cells[i], axis, index)
  {
    if cells != [] {
      RaisedCells(cells[1..], axis, index);
    }
  }

  lemma {:induction false} PositionsBounded(cells: seq<TableCell>, axis: Axis)
    ensures |OppositePositions(cells, axis)| <= |cells|
  {
    if cells != [] {
      var last := |cells| - 1;
      PositionsBounded(cells[..last], axis);
      AddOne(OppositePositions(cells[..last], axis), Opposite(cells[last], axis));
    }
  }

  /** As many distinct places as cells: no two inserted cells share a place. */
  lemma {:induction false} FullPositionsAreDistinct(cells: seq<TableCell>, axis: Axis)
    requires |OppositePositions(cells, axis)| == |cells|
    ensures forall i, j | 0 <= i < j < |cells| :: Opposite(cells[i], axis) != Opposite(cells[j], axis)
  {
    if cells != [] {
      var last := |cells| - 1;
      var before := OppositePositions(cells[..last], axis);
      PositionsBounded(cells[..last], axis);
      AddOne(before, Opposite(cells[last], axis));
      FullPositionsAreDistinct(cells[..last], axis);
      PositionListed(cells[..last], axis, Opposite(cells[last], axis));
    }
  }

  ghost function Places(count: nat): set<nat> {
    if count == 0 then {} else Places(count - 1) + {count - 1}
  }

  lemma {:induction false} PlacesBelow(count: nat)
    ensures |Places(count)| == count
    ensures forall place: nat :: place in Places(count) <==> place < count
  {
    if count > 0 {
      PlacesBelow(count - 1);
    }
  }

  /** Enough distinct places below `count` reach every one of them. */
  lemma FullPositionsAreEverywhere(cells: seq<TableCell>, count: nat, axis: Axis, index: nat, place: nat)
    requires InsertedCellsFit(cells, count, axis, index) && place < count
    ensures exists i :: 0 <= i < |cells| && Opposite(cells[i], axis) == place
  {
    PlacesBelow(count);
    var all := Places(count);
    var found := OppositePositions(cells, axis);
    forall position | position in found ensures position in all {
      PositionListed(cells, axis, position);
      var i :| 0 <= i < |cells| && Opposite(cells[i], axis) == position;
      assert FitsNewLine(cells[i], count, axis, index);
    }
    SubsetSize(found, all);
    PositionListed(cells, axis, place);
  }

  ghost predicate WithinCounts(cells: seq<TableCell>, rows: nat, columns: nat) {
    forall i | 0 <= i < |cells| :: cells[i].row < rows && cells[i].column < columns && SingleSpan(cells[i])
  }

  lemma InsertionDistinct(table: Table, axis: Axis, index: nat, cells: seq<TableCell>)
    requires DistinctPositions(table.cells)
    requires InsertedCellsFit(cells, OppositeCount(table, axis), axis, index)
    ensures DistinctPositions(Raised(table.cells, axis, index) + cells)
  {
    var raised := Raised(table.cells, axis, index);
    var all := raised + cells;
    RaisedCells(table.cells, axis, index);
    FullPositionsAreDistinct(cells, axis);
    forall i, j | 0 <= i < j < |all| ensures !SamePosition(all[i], all[j]) {
      if j < |raised| {
        assert !SamePosition(table.cells[i], table.cells[j]);
      } else {
        assert FitsNewLine(cells[j - |raised|], OppositeCount(table, axis), axis, index);
        if i < |raised| {
          assert Line(raised[i], axis) != index;
        } else {
          assert FitsNewLine(cells[i - |raised|], OppositeCount(table, axis), axis, index);
        }
      }
    }
  }

  lemma InsertionOccupies(table: Table, axis: Axis, index: nat, cells: seq<TableCell>, row: nat, column: nat)
    requires FillsGrid(table) && index <= LineCount(table, axis)
    requires InsertedCellsFit(cells, OppositeCount(table, axis), axis, index)
    requires Along(axis, row, column) < LineCount(table, axis) + 1
    requires Along(axis, column, row) < OppositeCount(table, axis)
    ensures Occupied(Raised(table.cells, axis, index) + cells, row, column)
  {
    var raised := Raised(table.cells, axis, index);
    var all := raised + cells;
    var line, place := Along(axis, row, column), Along(axis, column, row);
    RaisedCells(table.cells, axis, index);
    if line == index {
      FullPositionsAreEverywhere(cells, OppositeCount(table, axis), axis, index, place);
      var i :| 0 <= i < |cells| && Opposite(cells[i], axis) == place;
      assert FitsNewLine(cells[i], OppositeCount(table, axis), axis, index);
      assert all[|raised| + i] == cells[i];
    } else {
      var source := if line < index then line else line - 1;
      var oldRow, oldColumn := Along(axis, source, place), Along(axis, place, source);
      assert Occupied(table.cells, oldRow, oldColumn);
      var i :| 0 <= i < |table.cells| && table.cells[i].row == oldRow && table.cells[i].column == oldColumn;
      assert all[i] == raised[i];
    }
  }

  /** Inserting a line into a valid table of single cells gives another one. */
  lemma InsertionKeepsTiling(table: Table, axis: Axis, index: nat, size: real, cells: seq<TableCell>)
    requires SimpleTiling(table) && InsertLine(table, axis, index, size, cells).Ok?
    ensures SimpleTiling(InsertLine(table, axis, index, size, cells).value)
  {
    var result := InsertLine(table, axis, index, size, cells).value;
    var all := Raised(table.cells, axis, index) + cells;
    SimpleTilesByPosition(table);
    RaisedCells(table.cells, axis, index);
    InsertionDistinct(table, axis, index, cells);
    SortingKeepsDistinct(all);
    assert WithinCounts(all, result.rowCount, result.columnCount) by {
      forall i | 0 <= i < |all|
        ensures all[i].row < result.rowCount && all[i].column < result.columnCount && SingleSpan(all[i])
      {
        if i < |table.cells| {
          assert InBounds(table, table.cells[i]) && SingleSpan(table.cells[i]);
        } else {
          assert FitsNewLine(cells[i - |table.cells|], OppositeCount(table, axis), axis, index);
        }
      }
    }
    forall i | 0 <= i < |result.cells| ensures InBounds(result, result.cells[i]) && SingleSpan(result.cells[i]) {
      SortingKeepsMembers(all, result.cells[i]);
    }
    forall row: nat, column: nat | row < result.rowCount && column < result.columnCount
      ensures Occupied(result.cells, row, column)
    {
      InsertionOccupies(table, axis, index, cells, row, column);
      var i :| 0 <= i < |all| && all[i].row == row && all[i].column == column;
      SortingKeepsMembers(all, all[i]);
    }
    SimpleTilesByPosition(result);
  }

  // ----- Deletion -----

  lemma {:induction false} KeptMembers(cells: seq<TableCell>, axis: Axis, index: nat, cell: TableCell)
    ensures cell in Kept(cells, axis, index) <==>
      exists i :: 0 <= i < |cells| && Line(cells[i], axis) != index && cell == Lowered(cells[i], axis, index)
  {
    if cells != [] {
      KeptMembers(cells[1..], axis, index, cell);
      assert forall i | 1 <= i < |cells| :: cells[i] == cells[1..][i - 1];
    }
  }

  lemma {:induction false} KeptDistinct(cells: seq<TableCell>, axis: Axis, index: nat)
    requires DistinctPositions(cells)
    ensures DistinctPositions(Kept(cells, axis, index))
  {
    if cells != [] {
      var rest := Kept(cells[1..], axis, index);
      KeptDistinct(cells[1..], axis, index);
      if Line(cells[0], axis) != index {
        forall i | 0 <= i < |rest| ensures !SamePosition(Lowered(cells[0], axis, index), rest[i]) {
          KeptMembers(cells[1..], axis, index, rest[i]);
          var j :| 0 <= j < |cells[1..]| && Line(cells[1..][j], axis) != index &&
            rest[i] == Lowered(cells[1..][j], axis, index);
          assert !SamePosition(cells[0], cells[j + 1]);
        }
      }
    }
  }

  /** Deleting a line from a valid table of single cells gives another one. */
  lemma DeletionKeepsTiling(table: Table, axis: Axis, index: nat)
    requires SimpleTiling(table) && DeleteLine(table, axis, index).Ok?
    ensures SimpleTiling(DeleteLine(table, axis, index).value)
  {
    var result := DeleteLine(table, axis, index).value;
    SimpleTilesByPosition(table);
    KeptDistinct(table.cells, axis, index);
    forall i | 0 <= i < |result.cells| ensures InBounds(result, result.cells[i]) && SingleSpan(result.cells[i]) {
      KeptMembers(table.cells, axis, index, result.cells[i]);
      var j :| 0 <= j < |table.cells| && Line(table.cells[j], axis) != index &&
        result.cells[i] == Lowered(table.cells[j], axis, index);
      assert InBounds(table, table.cells[j]) && SingleSpan(table.cells[j]);
    }
    forall row: nat, column: nat | row < result.rowCount && column < result.columnCount
      ensures Occupied(result.cells, row, column)
    {
      DeletionOccupies(table, axis, index, row, column);
    }
    SimpleTilesByPosition(result);
  }

  lemma DeletionOccupies(table: Table, axis: Axis, index: nat, row: nat, column: nat)
    requires FillsGrid(table) && index < LineCount(table, axis)
    requires Along(axis, row, column) < LineCount(table, axis) - 1
    requires Along(axis, column, row) < OppositeCount(table, axis)
    ensures Occupied(Kept(table.cells, axis, index), row, column)
  {
    var line, place := Along(axis, row, column), Along(axis, column, row);
    var source := if line < index then line else line + 1;
    var oldRow, oldColumn := Along(axis, source, place), Along(axis, place, source);
    assert Occupied(table.cells, oldRow, oldColumn);
    var i :| 0 <= i < |table.cells| && table.cells[i].row == oldRow && table.cells[i].column == oldColumn;
    KeptMembers(table.cells, axis, index, Lowered(table.cells[i], axis, index));
  }

  // ----- Deletion undoes insertion -----

  /** How often `cell` appears among what a deletion keeps. */
  ghost function Survivals(cells: seq<TableCell>, axis: Axis, index: nat, cell: TableCell): nat {
    if cells == [] then 0
    else
      (if Line(cells[0], axis) != index && Lowered(cells[0], axis, index) == cell then 1 else 0) +
      Survivals(cells[1..], axis, index, cell)
  }

  lemma HeadCount<T>(items: seq<T>, item: T)
    requires items != []
    ensures multiset(items)[item] == multiset(items[1..])[item] + if items[0] == item then 1 else 0
  {
    assert items == [items[0]] + items[1..];
  }

  lemma {:induction false} KeptAreSurvivals(cells: seq<TableCell>, axis: Axis, index: nat, cell: TableCell)
    ensures multiset(Kept(cells, axis, index))[cell] == Survivals(cells, axis, index, cell)
  {
    if cells != [] {
      KeptAreSurvivals(cells[1..], axis, index, cell);
      if Line(cells[0], axis) != index {
        HeadCount(Kept(cells, axis, index), cell);
      }
    }
  }

  lemma {:induction false} InsertSortedSurvivals(
    added: TableCell, sorted: seq<TableCell>, axis: Axis, index: nat, cell: TableCell)
    ensures Survivals(InsertSorted(added, sorted), axis, index, cell)
      == Survivals([added] + sorted, axis, index, cell)
  {
    assert ([added] + sorted)[1..] == sorted;
    if sorted != [] && !Before(added, sorted[0]) {
      var rest := InsertSorted(added, sorted[1..]);
      InsertSortedSurvivals(added, sorted[1..], axis, index, cell);
      assert ([sorted[0]] + rest)[1..] == rest;
      assert ([added] + sorted[1..])[1..] == sorted[1..];
    }
  }

  lemma {:induction false} SortingKeepsSurvivals(cells: seq<TableCell>, axis: Axis, index: nat, cell: TableCell)
    ensures Survivals(SortedTableCells(cells), axis, index, cell) == Survivals(cells, axis, index, cell)
  {
    if cells != [] {
      var rest := SortedTableCells(cells[1..]);
      SortingKeepsSurvivals(cells[1..], axis, index, cell);
      InsertSortedSurvivals(cells[0], rest, axis, index, cell);
      assert ([cells[0]] + rest)[1..] == rest;
    }
  }

  lemma {:induction false} SurvivalsConcat(
    left: seq<TableCell>, right: seq<TableCell>, axis: Axis, index: nat, cell: TableCell)
    ensures Survivals(left + right, axis, index, cell)
      == Survivals(left, axis, index, cell) + Survivals(right, axis, index, cell)
  {
    if left == [] {
      assert left + right == right;
    } else {
      SurvivalsConcat(left[1..], right, axis, index, cell);
      assert (left + right)[1..] == left[1..] + right;
    }
  }

  lemma {:induction false} RaisedCellsSurvive(cells: seq<TableCell>, axis: Axis, index: nat, cell: TableCell)
    ensures Survivals(Raised(cells, axis, index), axis, index, cell) == multiset(cells)[cell]
  {
    if cells != [] {
      RaisedCellsSurvive(cells[1..], axis, index, cell);
      assert Raised(cells, axis, index)[1..] == Raised(cells[1..], axis, index);
      HeadCount(cells, cell);
    }
  }

  lemma {:induction false} NewLineIsDropped(cells: seq<TableCell>, axis: Axis, index: nat, cell: TableCell)
    requires forall i | 0 <= i < |cells| :: Line(cells[i], axis) == index
    ensures Survivals(cells, axis, index, cell) == 0
  {
    if cells != [] {
      NewLineIsDropped(cells[1..], axis, index, cell);
    }
  }

  lemma KeptUndoesInsertion(table: Table, axis: Axis, index: nat, cells: seq<TableCell>)
    requires InsertedCellsFit(cells, OppositeCount(table, axis), axis, index)
    ensures multiset(Kept(SortedTableCells(Raised(table.cells, axis, index) + cells), axis, index))
      == multiset(table.cells)
  {
    var all := Raised(table.cells, axis, index) + cells;
    assert forall i | 0 <= i < |cells| :: FitsNewLine(cells[i], OppositeCount(table, axis), axis, index);
    forall cell
      ensures multiset(Kept(SortedTableCells(all), axis, index))[cell] == multiset(table.cells)[cell]
    {
      KeptAreSurvivals(SortedTableCells(all), axis, index, cell);
      SortingKeepsSurvivals(all, axis, index, cell);
      SurvivalsConcat(Raised(table.cells, axis, index), cells, axis, index, cell);
      RaisedCellsSurvive(table.cells, axis, index, cell);
      NewLineIsDropped(cells, axis, index, cell);
    }
  }

  lemma SizesRestored(sizes: seq<real>, index: nat, size: real)
    requires index <= |sizes|
    ensures var grown := sizes[..index] + [size] + sizes[index..];
      grown[..index] + grown[index + 1..] == sizes
  {
  }

  /** Deleting the line just inserted gives back the sizes and, in some order, the cells. */
  lemma DeletionUndoesInsertion(table: Table, axis: Axis, index: nat, size: real, cells: seq<TableCell>)
    requires SimpleTiling(table) && InsertLine(table, axis, index, size, cells).Ok?
    ensures var undone := DeleteLine(InsertLine(table, axis, index, size, cells).value, axis, index);
      && undone.Ok?
      && undone.value == table.(cells := undone.value.cells)
      && multiset(undone.value.cells) == multiset(table.cells)
  {
    var inserted := InsertLine(table, axis, index, size, cells).value;
    var sizes := LineSizes(table, axis);
    InsertionKeepsTiling(table, axis, index, size, cells);
    KeptUndoesInsertion(table, axis, index, cells);
    SizesRestored(sizes, index, size);
  }
}
