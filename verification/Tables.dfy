/** Table tiling: the validator's area count and bitmap against "exactly one cell per coordinate". */
module Tables {
  import opened Wrappers
  import opened DeckModel

  type Position = (nat, nat)

  datatype TableIssue =
    | HeightsMismatch | WidthsMismatch | CellOutOfBounds(cellIndex: nat) | AreaExceeded
    | AreaMissing | WorkLimit | CellsOverlap | CoordinateMissing

  /** The table schema: at least one row and column, and spans of at least one. */
  predicate TableSchema(table: Table) {
    table.rowCount >= 1 && table.columnCount >= 1 &&
    forall i | 0 <= i < |table.cells| :: table.cells[i].rowSpan >= 1 && table.cells[i].columnSpan >= 1
  }

  predicate InBounds(table: Table, cell: TableCell) {
    cell.row < table.rowCount && cell.column < table.columnCount &&
    cell.rowSpan <= table.rowCount - cell.row && cell.columnSpan <= table.columnCount - cell.column
  }

  predicate Covers(cell: TableCell, row: nat, column: nat) {
    cell.row <= row < cell.row + cell.rowSpan && cell.column <= column < cell.column + cell.columnSpan
  }

  predicate AllInBounds(table: Table) {
    forall i | 0 <= i < |table.cells| :: InBounds(table, table.cells[i])
  }

  ghost predicate CoveredOnce(table: Table, row: nat, column: nat) {
    exists i :: 0 <= i < |table.cells| && Covers(table.cells[i], row, column) &&
      forall j | 0 <= j < |table.cells| && Covers(table.cells[j], row, column) :: j == i
  }

  /** Every cell lies in the table and every coordinate belongs to exactly one cell. */
  ghost predicate Tiles(table: Table) {
    AllInBounds(table) &&
    forall row: nat, column: nat | row < table.rowCount && column < table.columnCount ::
      CoveredOnce(table, row, column)
  }

  ghost predicate Uncovered(table: Table, row: nat, column: nat) {
    row < table.rowCount && column < table.columnCount &&
    forall i | 0 <= i < |table.cells| :: !Covers(table.cells[i], row, column)
  }

  ghost predicate Overlapping(table: Table, i: nat, j: nat) {
    && i < j < |table.cells| && InBounds(table, table.cells[i]) && InBounds(table, table.cells[j])
    && exists row: nat, column: nat ::
      Covers(table.cells[i], row, column) && Covers(table.cells[j], row, column)
  }

  predicate DimensionsMatch(table: Table) {
    |table.rowHeights| == table.rowCount && |table.columnWidths| == table.columnCount
  }

  // ----- Rectangles as sets of positions -----

  ghost function Block(top: nat, bottom: nat, left: nat, right: nat): set<Position> {
    set row: nat, column: nat | top <= row < bottom && left <= column < right :: (row, column)
  }

  ghost function Coordinates(cell: TableCell): set<Position> {
    Block(cell.row, cell.row + cell.rowSpan, cell.column, cell.column + cell.columnSpan)
  }

  ghost function Grid(table: Table): set<Position> {
    Block(0, table.rowCount, 0, table.columnCount)
  }

  /** `rows * columns` as repeated addition. */
  function Area(rows: nat, columns: nat): nat {
    if rows == 0 then 0 else Area(rows - 1, columns) + columns
  }

  lemma {:induction false} AreaIsProduct(rows: nat, columns: nat)
    ensures Area(rows, columns) == rows * columns
  {
    if rows > 0 {
      AreaIsProduct(rows - 1, columns);
      assert rows * columns == (rows - 1) * columns + columns;
    }
  }

  lemma StripExtends(row: nat, left: nat, right: nat)
    requires left <= right
    ensures Block(row, row + 1, left, right + 1) == Block(row, row + 1, left, right) + {(row, right)}
    ensures (row, right) !in Block(row, row + 1, left, right)
  {
  }

  lemma {:induction false} StripSize(row: nat, left: nat, right: nat)
    requires left <= right
    ensures |Block(row, row + 1, left, right)| == right - left
    decreases right - left
  {
    if left < right {
      StripSize(row, left, right - 1);
      StripExtends(row, left, right - 1);
    } else {
    }
  }

  lemma BlockExtends(top: nat, bottom: nat, left: nat, right: nat)
    requires top <= bottom
    ensures Block(top, bottom + 1, left, right) == Block(top, bottom, left, right) + Block(bottom, bottom + 1, left, right)
    ensures Block(top, bottom, left, right) !! Block(bottom, bottom + 1, left, right)
  {
  }

  lemma {:induction false} BlockSize(top: nat, bottom: nat, left: nat, right: nat)
    requires top <= bottom && left <= right
    ensures |Block(top, bottom, left, right)| == Area(bottom - top, right - left)
    decreases bottom - top
  {
    if top < bottom {
      BlockSize(top, bottom - 1, left, right);
      StripSize(bottom - 1, left, right);
      BlockExtends(top, bottom - 1, left, right);
    } else {
    }
  }

  function CellArea(cell: TableCell): nat {
    Area(cell.rowSpan, cell.columnSpan)
  }

  /** Area and union of the first `count` cells, counting only those in bounds. */
  function DeclaredArea(table: Table, count: nat): nat
    requires count <= |table.cells|
  {
    if count == 0 then 0
    else
      DeclaredArea(table, count - 1) +
      if InBounds(table, table.cells[count - 1]) then CellArea(table.cells[count - 1]) else 0
  }

  ghost function Union(table: Table, count: nat): set<Position>
    requires count <= |table.cells|
  {
    if count == 0 then {}
    else
      Union(table, count - 1) +
      if InBounds(table, table.cells[count - 1]) then Coordinates(table.cells[count - 1]) else {}
  }

  lemma {:induction false} UnionMembers(table: Table, count: nat, row: nat, column: nat)
    requires count <= |table.cells|
    ensures (row, column) in Union(table, count) <==>
      exists i :: 0 <= i < count && InBounds(table, table.cells[i]) && Covers(table.cells[i], row, column)
  {
    if count > 0 {
      UnionMembers(table, count - 1, row, column);
      assert (row, column) in Coordinates(table.cells[count - 1]) <==> Covers(table.cells[count - 1], row, column);
    }
  }

  lemma CellSize(cell: TableCell)
    ensures |Coordinates(cell)| == CellArea(cell)
  {
    BlockSize(cell.row, cell.row + cell.rowSpan, cell.column, cell.column + cell.columnSpan);
  }

  lemma {:induction false} UnionInGrid(table: Table, count: nat)
    requires count <= |table.cells|
    ensures Union(table, count) <= Grid(table)
  {
    if count > 0 {
      UnionInGrid(table, count - 1);
    }
  }

  ghost predicate NoOverlap(table: Table, count: nat)
    requires count <= |table.cells|
  {
    forall i, j | 0 <= i < j < count :: !Overlapping(table, i, j)
  }

  lemma NoOverlapStep(table: Table, count: nat)
    requires 0 < count <= |table.cells|
    ensures NoOverlap(table, count) <==>
      NoOverlap(table, count - 1) &&
      (InBounds(table, table.cells[count - 1]) ==> Union(table, count - 1) !! Coordinates(table.cells[count - 1]))
  {
    var last := count - 1;
    if InBounds(table, table.cells[last]) && !(Union(table, last) !! Coordinates(table.cells[last])) {
      var position :| position in Union(table, last) && position in Coordinates(table.cells[last]);
      UnionMembers(table, last, position.0, position.1);
      var i :| 0 <= i < last && InBounds(table, table.cells[i]) && Covers(table.cells[i], position.0, position.1);
      assert Covers(table.cells[last], position.0, position.1);
      assert Overlapping(table, i, last);
    }
    if InBounds(table, table.cells[last]) && Union(table, last) !! Coordinates(table.cells[last]) {
      forall i | 0 <= i < last ensures !Overlapping(table, i, last) {
        if Overlapping(table, i, last) {
          var row: nat, column: nat :|
            Covers(table.cells[i], row, column) && Covers(table.cells[last], row, column);
          assert (row, column) in Coordinates(table.cells[last]);
          UnionMembers(table, last, row, column);
        }
      }
    }
  }

  /** The union falls short of the declared area exactly when two cells overlap. */
  lemma {:induction false} AreaCountsOverlap(table: Table, count: nat)
    requires count <= |table.cells|
    ensures |Union(table, count)| <= DeclaredArea(table, count)
    ensures |Union(table, count)| == DeclaredArea(table, count) <==> NoOverlap(table, count)
  {
    if count > 0 {
      AreaCountsOverlap(table, count - 1);
      NoOverlapStep(table, count);
      CellSize(table.cells[count - 1]);
    }
  }

  function TableArea(table: Table): nat {
    Area(table.rowCount, table.columnCount)
  }

  lemma UnionFitsTable(table: Table, count: nat)
    requires count <= |table.cells|
    ensures |Grid(table)| == TableArea(table)
    ensures |Union(table, count)| <= TableArea(table)
    ensures |Union(table, count)| == TableArea(table) <==> Union(table, count) == Grid(table)
  {
    BlockSize(0, table.rowCount, 0, table.columnCount);
    UnionInGrid(table, count);
    SubsetSize(Union(table, count), Grid(table));
  }

  lemma SubsetSize<T>(small: set<T>, large: set<T>)
    requires small <= large
    ensures |small| <= |large|
    ensures |small| == |large| <==> small == large
  {
    assert large == small + (large - small);
  }

  /** An area above the table's forces two cells onto the same coordinate. */
  lemma ExcessAreaIsOverlap(table: Table, count: nat)
    requires count <= |table.cells| && DeclaredArea(table, count) > TableArea(table)
    ensures exists i, j :: Overlapping(table, i, j)
  {
    AreaCountsOverlap(table, count);
    UnionFitsTable(table, count);
    assert !NoOverlap(table, count);
    var i, j :| 0 <= i < j < count && Overlapping(table, i, j);
  }

  lemma TilingHasNoOverlap(table: Table)
    requires Tiles(table)
    ensures NoOverlap(table, |table.cells|)
  {
    forall i, j | 0 <= i < j < |table.cells| ensures !Overlapping(table, i, j) {
      if Overlapping(table, i, j) {
        var row: nat, column: nat :|
          Covers(table.cells[i], row, column) && Covers(table.cells[j], row, column);
        OneOwner(table, i, j, row, column);
      }
    }
  }

  lemma OverlapSpoilsTiling(table: Table)
    requires exists i, j :: Overlapping(table, i, j)
    ensures !Tiles(table)
  {
    var i, j :| Overlapping(table, i, j);
    if Tiles(table) {
      TilingHasNoOverlap(table);
    }
  }

  lemma OneOwner(table: Table, i: nat, j: nat, row: nat, column: nat)
    requires Tiles(table) && i < |table.cells| && j < |table.cells|
    requires Covers(table.cells[i], row, column) && Covers(table.cells[j], row, column)
    ensures i == j
  {
    assert InBounds(table, table.cells[i]);
    assert CoveredOnce(table, row, column);
  }

  lemma TilingCoversGrid(table: Table)
    requires Tiles(table)
    ensures Union(table, |table.cells|) == Grid(table)
  {
    UnionInGrid(table, |table.cells|);
    forall position | position in Grid(table) ensures position in Union(table, |table.cells|) {
      assert CoveredOnce(table, position.0, position.1);
      UnionMembers(table, |table.cells|, position.0, position.1);
    }
  }

  /** The count the validator makes decides the tiling. */
  lemma CountDecidesTiling(table: Table)
    ensures Tiles(table) <==>
      AllInBounds(table) && DeclaredArea(table, |table.cells|) == TableArea(table) &&
      |Union(table, |table.cells|)| == TableArea(table)
  {
    var count := |table.cells|;
    AreaCountsOverlap(table, count);
    UnionFitsTable(table, count);
    if Tiles(table) {
      TilingHasNoOverlap(table);
      TilingCoversGrid(table);
    } else if AllInBounds(table) && DeclaredArea(table, count) == TableArea(table) == |Union(table, count)| {
      forall row: nat, column: nat | row < table.rowCount && column < table.columnCount
        ensures CoveredOnce(table, row, column)
      {
        assert (row, column) in Grid(table);
        UnionMembers(table, count, row, column);
        var i :| 0 <= i < count && InBounds(table, table.cells[i]) && Covers(table.cells[i], row, column);
        forall j | 0 <= j < count && Covers(table.cells[j], row, column) ensures j == i {
          assert i < j ==> Overlapping(table, i, j);
          assert j < i ==> Overlapping(table, j, i);
        }
      }
    }
  }

  // ----- The validator -----

  /** The row-major place of a position in the bitmap, `row * columns + column`. */
  function Offset(columns: nat, row: nat, column: nat): nat {
    if row == 0 then column else columns + Offset(columns, row - 1, column)
  }

  lemma {:induction false} OffsetIsRowMajor(columns: nat, row: nat, column: nat)
    ensures Offset(columns, row, column) == row * columns + column
  {
    if row > 0 {
      OffsetIsRowMajor(columns, row - 1, column);
      assert row * columns == (row - 1) * columns + columns;
    }
  }

  lemma {:induction false} OffsetBelowArea(columns: nat, rows: nat, row: nat, column: nat)
    requires row < rows && column < columns
    ensures Offset(columns, row, column) < Area(rows, columns)
  {
    if row > 0 {
      OffsetBelowArea(columns, rows - 1, row - 1, column);
    }
  }

  lemma OffsetInRange(table: Table, row: nat, column: nat)
    requires row < table.rowCount && column < table.columnCount
    ensures Offset(table.columnCount, row, column) < TableArea(table)
  {
    OffsetBelowArea(table.columnCount, table.rowCount, row, column);
  }

  lemma {:induction false} OffsetInjective(columns: nat, row: nat, column: nat, row': nat, column': nat)
    requires column < columns && column' < columns
    requires Offset(columns, row, column) == Offset(columns, row', column')
    ensures row == row' && column == column'
  {
    if row > 0 && row' > 0 {
      OffsetInjective(columns, row - 1, column, row' - 1, column');
    }
  }

  function Place(table: Table, row: nat, column: nat): nat {
    Offset(table.columnCount, row, column)
  }

  /** The bitmap marks exactly the positions seen so far. */
  ghost predicate Marks(table: Table, occupied: array<bool>, seen: set<Position>)
    reads occupied
  {
    && occupied.Length == TableArea(table)
    && forall row: nat, column: nat {:trigger Place(table, row, column)} |
         row < table.rowCount && column < table.columnCount ::
         Place(table, row, column) < occupied.Length &&
         (occupied[Place(table, row, column)] <==> (row, column) in seen)
  }

  lemma PlaceInjective(table: Table, row: nat, column: nat, row': nat, column': nat)
    requires column < table.columnCount && column' < table.columnCount
    ensures Place(table, row, column) == Place(table, row', column') ==> row == row' && column == column'
  {
    if Place(table, row, column) == Place(table, row', column') {
      OffsetInjective(table.columnCount, row, column, row', column');
    }
  }

  method MarkPosition(table: Table, occupied: array<bool>, row: nat, column: nat, ghost seen: set<Position>)
    returns (first: bool)
    requires row < table.rowCount && column < table.columnCount
    requires Marks(table, occupied, seen)
    modifies occupied
    ensures Marks(table, occupied, seen + {(row, column)})
    ensures first <==> (row, column) !in seen
  {
    OffsetIsRowMajor(table.columnCount, row, column);
    var coordinate := row * table.columnCount + column;
    assert coordinate == Place(table, row, column);
    first := !occupied[coordinate];
    forall row': nat, column': nat | row' < table.rowCount && column' < table.columnCount
      ensures Place(table, row', column') == coordinate ==> row' == row && column' == column
    {
      PlaceInjective(table, row, column, row', column');
    }
    occupied[coordinate] := true;
  }

  method MarkStrip(
    table: Table, row: nat, left: nat, right: nat, occupied: array<bool>, ghost seen: set<Position>)
    returns (added: nat, hasOverlap: bool)
    requires row < table.rowCount && left <= right <= table.columnCount && Marks(table, occupied, seen)
    modifies occupied
    ensures Marks(table, occupied, seen + Block(row, row + 1, left, right))
    ensures |seen + Block(row, row + 1, left, right)| == |seen| + added
    ensures added <= right - left && (hasOverlap <==> added < right - left)
  {
    added, hasOverlap := 0, false;
    for column := left to right
      invariant Marks(table, occupied, seen + Block(row, row + 1, left, column))
      invariant |seen + Block(row, row + 1, left, column)| == |seen| + added
      invariant added <= column - left && (hasOverlap <==> added < column - left)
    {
      StripGrows(seen, row, left, column);
      var first := MarkPosition(table, occupied, row, column, seen + Block(row, row + 1, left, column));
      if first { added := added + 1; } else { hasOverlap := true; }
    }
  }

  lemma StripGrows(seen: set<Position>, row: nat, left: nat, right: nat)
    requires left <= right
    ensures var before := seen + Block(row, row + 1, left, right);
      && seen + Block(row, row + 1, left, right + 1) == before + {(row, right)}
      && |before + {(row, right)}| == |before| + if (row, right) in before then 0 else 1
  {
    StripExtends(row, left, right);
    AddOne(seen + Block(row, row + 1, left, right), (row, right));
  }

  lemma AddOne<T>(items: set<T>, item: T)
    ensures |items + {item}| == |items| + if item in items then 0 else 1
  {
    if item in items {
      assert items + {item} == items;
    }
  }

  lemma BlockGrows(seen: set<Position>, top: nat, bottom: nat, left: nat, right: nat)
    requires top <= bottom
    ensures seen + Block(top, bottom + 1, left, right)
      == seen + Block(top, bottom, left, right) + Block(bottom, bottom + 1, left, right)
  {
    BlockExtends(top, bottom, left, right);
  }

  /** Marks one cell; a second visit to any of its positions raises the flag. */
  method MarkCell(table: Table, cell: TableCell, occupied: array<bool>, ghost seen: set<Position>)
    returns (added: nat, hasOverlap: bool)
    requires InBounds(table, cell) && Marks(table, occupied, seen)
    modifies occupied
    ensures Marks(table, occupied, seen + Coordinates(cell))
    ensures |seen + Coordinates(cell)| == |seen| + added
    ensures added <= CellArea(cell) && (hasOverlap <==> added < CellArea(cell))
  {
    added, hasOverlap := 0, false;
    var lastRow, lastColumn := cell.row + cell.rowSpan, cell.column + cell.columnSpan;
    ghost var visits := 0;
    for row := cell.row to lastRow
      invariant Marks(table, occupied, seen + Block(cell.row, row, cell.column, lastColumn))
      invariant |seen + Block(cell.row, row, cell.column, lastColumn)| == |seen| + added
      invariant added <= visits && (hasOverlap <==> added < visits)
      invariant visits == Area(row - cell.row, cell.columnSpan)
    {
      BlockGrows(seen, cell.row, row, cell.column, lastColumn);
      var strip, overlap := MarkStrip(
        table, row, cell.column, lastColumn, occupied, seen + Block(cell.row, row, cell.column, lastColumn));
      added, hasOverlap, visits := added + strip, hasOverlap || overlap, visits + cell.columnSpan;
    }
  }

  method NewBitmap(table: Table) returns (occupied: array<bool>)
    ensures fresh(occupied) && Marks(table, occupied, {})
  {
    occupied := new bool[TableArea(table)](_ => false);
    forall row: nat, column: nat | row < table.rowCount && column < table.columnCount
      ensures Place(table, row, column) < occupied.Length
    {
      OffsetInRange(table, row, column);
    }
  }

  /** The bitmap pass counts the union of all cells and notices any second visit. */
  method MarkCells(table: Table) returns (occupiedCount: nat, hasOverlap: bool)
    requires AllInBounds(table)
    ensures occupiedCount == |Union(table, |table.cells|)|
    ensures hasOverlap <==> occupiedCount < DeclaredArea(table, |table.cells|)
  {
    var occupied := NewBitmap(table);
    occupiedCount, hasOverlap := 0, false;
    ghost var seen := {};
    for n := 0 to |table.cells|
      invariant seen == Union(table, n) && Marks(table, occupied, seen)
      invariant occupiedCount == |seen| <= DeclaredArea(table, n)
      invariant hasOverlap <==> occupiedCount < DeclaredArea(table, n)
    {
      var added, overlap := MarkCell(table, table.cells[n], occupied, seen);
      seen := seen + Coordinates(table.cells[n]);
      occupiedCount := occupiedCount + added;
      hasOverlap := hasOverlap || overlap;
    }
  }

  /** The bounds pass: stops at the first cell that would push the area over the table's. */
  method CheckBounds(table: Table) returns (issues: seq<TableIssue>, stopped: bool, declaredArea: nat)
    ensures stopped <==> AreaExceeded in issues
    ensures stopped ==> exists i, j :: Overlapping(table, i, j)
    ensures !stopped ==> declaredArea == DeclaredArea(table, |table.cells|) && (issues == [] <==> AllInBounds(table))
    ensures CellsOverlap !in issues && CoordinateMissing !in issues
  {
    issues, stopped, declaredArea := [], false, 0;
    for n := 0 to |table.cells|
      invariant AreaExceeded !in issues && CellsOverlap !in issues && CoordinateMissing !in issues
      invariant declaredArea == DeclaredArea(table, n)
      invariant issues == [] <==> forall i | 0 <= i < n :: InBounds(table, table.cells[i])
    {
      var cell := table.cells[n];
      if !InBounds(table, cell) {
        issues := issues + [CellOutOfBounds(n)];
      } else if declaredArea + CellArea(cell) > TableArea(table) {
        ExcessAreaIsOverlap(table, n + 1);
        issues, stopped := issues + [AreaExceeded], true;
        return;
      } else {
        declaredArea := declaredArea + CellArea(cell);
      }
    }
  }

  /**
   No issue is reported exactly when the lists match the dimensions, the work limit holds and the
   cells tile the table; and each kind of overlap or gap report is a real one.
   */
  method ValidateTable(table: Table, maxCoordinateVisits: nat) returns (issues: seq<TableIssue>)
    requires TableSchema(table)
    ensures issues == [] <==>
      DimensionsMatch(table) && TableArea(table) <= maxCoordinateVisits && Tiles(table)
    ensures AreaExceeded in issues || CellsOverlap in issues ==> exists i, j :: Overlapping(table, i, j)
    ensures CoordinateMissing in issues ==> exists row: nat, column: nat :: Uncovered(table, row, column)
  {
    CountDecidesTiling(table);
    var shape := [];
    if |table.rowHeights| != table.rowCount { shape := shape + [HeightsMismatch]; }
    if |table.columnWidths| != table.columnCount { shape := shape + [WidthsMismatch]; }

    var bounds, stopped, declaredArea := CheckBounds(table);
    issues := shape + bounds;
    if stopped {
      assert AreaExceeded in issues;
      OverlapSpoilsTiling(table);
      return;
    }
    if bounds != [] || declaredArea != TableArea(table) {
      issues := issues + [AreaMissing];
      return;
    }
    if TableArea(table) > maxCoordinateVisits {
      issues := issues + [WorkLimit];
      return;
    }
    var occupiedCount, hasOverlap := MarkCells(table);
    UnionFitsTable(table, |table.cells|);
    AreaCountsOverlap(table, |table.cells|);
    if hasOverlap { issues := issues + [CellsOverlap]; }
    if occupiedCount != TableArea(table) {
      issues := issues + [CoordinateMissing];
      GapExists(table);
    }
  }

  lemma GapExists(table: Table)
    requires AllInBounds(table) && |Union(table, |table.cells|)| != TableArea(table)
    ensures exists row: nat, column: nat :: Uncovered(table, row, column)
  {
    UnionFitsTable(table, |table.cells|);
    UnionInGrid(table, |table.cells|);
    var gap :| gap in Grid(table) && gap !in Union(table, |table.cells|);
    GapIsUncovered(table, gap);
  }

  lemma GapIsUncovered(table: Table, gap: Position)
    requires AllInBounds(table) && gap in Grid(table) && gap !in Union(table, |table.cells|)
    ensures Uncovered(table, gap.0, gap.1)
  {
    UnionMembers(table, |table.cells|, gap.0, gap.1);
  }
}
