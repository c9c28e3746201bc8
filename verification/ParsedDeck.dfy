/**
 What parsing makes of a document: names and font families are trimmed, and every connector is stamped with
 the current geometry version. Parsing a document that is in this form again changes nothing in it.
 */
module ParsedDeck {
  import opened Wrappers
  import opened DeckModel
  import opened Commands
  import opened LocalEdits
  import opened TableEdits

  /** White space and line terminators, section 12.2 and 12.3 of ECMA-262. */
  predicate IsSpace(c: char) {
    || '\t' <= c <= '\r' || c == ' ' || c == '\U{00A0}' || c == '\U{1680}' || '\U{2000}' <= c <= '\U{200A}'
    || c == '\U{2028}' || c == '\U{2029}' || c == '\U{202F}' || c == '\U{205F}' || c == '\U{3000}' || c == '\U{FEFF}'
  }

  predicate Trimmed(text: string) {
    text != [] ==> !IsSpace(text[0]) && !IsSpace(text[|text| - 1])
  }

  predicate ParsedStyle(style: StyleFields) {
    "fontFamily" in style ==> Trimmed(style["fontFamily"])
  }

  predicate ParsedCell(cell: TableCell) {
    ParsedStyle(cell.style)
  }

  predicate ParsedCells(cells: seq<TableCell>) {
    forall cell | cell in cells :: ParsedCell(cell)
  }

  predicate ParsedTable(table: Table) {
    ParsedCells(table.cells) && ParsedStyle(table.border) && ParsedStyle(table.style)
  }

  predicate ParsedElement(element: Element)
    decreases element, 1
  {
    && Trimmed(element.base.name)
    && match element {
         case Text(_, _, _, _, style) => ParsedStyle(style)
         case Image(_, _) => true
         case TableElement(_, table) => ParsedTable(table)
         case Shape(_, fields) => ParsedStyle(fields)
         case Icon(_, iconName) => Trimmed(iconName)
         case Placeholder(_, _, _) => true
         case Connector(_, stamped, _, _) => stamped
         case Group(_, _, _, children) => ParsedForest(children)
       }
  }

  predicate ParsedForest(elements: seq<Element>)
    decreases elements, 0
  {
    elements != [] ==> ParsedElement(elements[0]) && ParsedForest(elements[1..])
  }

  predicate ParsedSlide(slide: Slide) {
    Trimmed(slide.name) && ParsedForest(slide.elements)
  }

  predicate ParsedSlides(slides: seq<Slide>) {
    forall slide | slide in slides :: ParsedSlide(slide)
  }

  predicate ParsedDocument(document: DeckDocument) {
    && Trimmed(document.name)
    && (forall theme | theme in document.themes :: Trimmed(theme.name))
    && (forall master | master in document.masters :: ParsedForest(master.elements))
    && (forall layout | layout in document.layouts :: ParsedForest(layout.elements))
    && ParsedSlides(document.slides)
  }

  // ----- Stamping connectors -----

  function StampedElement(element: Element): Element
    decreases element, 1
  {
    if element.Connector? then element.(stamped := true)
    else if element.Group? then element.(children := StampedForest(element.children))
    else element
  }

  function StampedForest(elements: seq<Element>): seq<Element>
    decreases elements, 0
  {
    if elements == [] then [] else [StampedElement(elements[0])] + StampedForest(elements[1..])
  }

  lemma {:induction false} ElementIsStamped(element: Element)
    requires ParsedElement(element)
    ensures StampedElement(element) == element
    decreases element, 1
  {
    if element.Group? {
      ForestIsStamped(element.children);
    }
  }

  /** The step that stamps connectors finds nothing to do in a parsed forest. */
  lemma {:induction false} ForestIsStamped(elements: seq<Element>)
    requires ParsedForest(elements)
    ensures StampedForest(elements) == elements
    decreases elements, 0
  {
    if elements != [] {
      ElementIsStamped(elements[0]);
      ForestIsStamped(elements[1..]);
    }
  }

  // ----- Commands -----

  predicate ParsedPatch(patch: StylePatch) {
    match patch
    case TextPatch(_, _, _, style) => ParsedStyle(style)
    case ShapePatch(_, fields, _) => ParsedStyle(fields)
    case TablePatch(_, border, style) => (border.Some? ==> ParsedStyle(border.value)) && ParsedStyle(style)
  }

  /** The same of the strings an in-place command carries. */
  predicate ParsedCommand(command: Command) {
    match command
    case DeckRename(name) => Trimmed(name)
    case SlideUpdate(_, newName, _) => newName.Some? ==> Trimmed(newName.value)
    case ElementUpdateStyle(_, _, _, patch) => ParsedPatch(patch)
    case TableInsertRow(_, _, _, _, _, cells) => ParsedCells(cells)
    case TableInsertColumn(_, _, _, _, _, cells) => ParsedCells(cells)
    case TableUpdateCell(_, _, _, _, _, style) => style.Some? ==> ParsedStyle(style.value)
    case TableUpdateStyle(_, _, _, border, style) =>
      (border.Some? ==> ParsedStyle(border.value)) && (style.Replace? ==> ParsedStyle(style.value))
    case _ => true
  }

  predicate ParsedCommands(commands: seq<Command>) {
    forall command | command in commands :: ParsedCommand(command)
  }

  // ----- In-place commands keep the form -----

  lemma {:induction false} KeptCellsStayParsed(cells: seq<TableCell>, axis: Axis, index: nat)
    requires ParsedCells(cells)
    ensures ParsedCells(Kept(cells, axis, index))
  {
    if cells != [] {
      assert cells[0] in cells;
      KeptCellsStayParsed(cells[1..], axis, index);
    }
  }

  lemma InsertLineStaysParsed(table: Table, axis: Axis, index: nat, size: real, cells: seq<TableCell>)
    requires ParsedTable(table) && ParsedCells(cells) && InsertLine(table, axis, index, size, cells).Ok?
    ensures ParsedTable(InsertLine(table, axis, index, size, cells).value)
  {
    hide ParsedStyle, InsertedCellsFit, IsSimple;
    var raised := Raised(table.cells, axis, index);
    RaisedCells(table.cells, axis, index);
    forall cell | cell in SortedTableCells(raised + cells)
      ensures ParsedCell(cell)
    {
      SortingKeepsMembers(raised + cells, cell);
      if cell in raised {
        var i :| 0 <= i < |raised| && raised[i] == cell;
        assert table.cells[i] in table.cells;
      }
    }
  }

  lemma UpdatedCellsStayParsed(table: Table, cellId: Id, content: Option<RichText>, style: Option<StyleFields>)
    requires ParsedTable(table) && (style.Some? ==> ParsedStyle(style.value))
    requires UpdateCell(table, cellId, content, style).Ok?
    ensures ParsedTable(UpdateCell(table, cellId, content, style).value)
  {
    hide ParsedStyle;
    var cells := UpdateCell(table, cellId, content, style).value.cells;
    forall cell | cell in cells
      ensures ParsedCell(cell)
    {
      var i :| 0 <= i < |cells| && cells[i] == cell;
      assert table.cells[i] in table.cells;
    }
  }

  lemma PastedCellsStayParsed(table: Table, startRow: nat, startColumn: nat, tsv: string)
    requires ParsedTable(table) && PasteTsv(table, startRow, startColumn, tsv).Ok?
    ensures ParsedTable(PasteTsv(table, startRow, startColumn, tsv).value)
  {
    hide ParsedStyle, IsSimple;
    var cells := PasteTsv(table, startRow, startColumn, tsv).value.cells;
    forall cell | cell in cells
      ensures ParsedCell(cell)
    {
      var i :| 0 <= i < |cells| && cells[i] == cell;
      assert table.cells[i] in table.cells;
    }
  }

  lemma EditTableStaysParsed(table: Table, command: Command)
    requires ParsedTable(table) && ParsedCommand(command) && EditTable(table, command).Ok?
    ensures ParsedTable(EditTable(table, command).value)
  {
    hide InsertLine, IsSimple, UpdateCell, PasteTsv;
    match command {
      case TableInsertRow(_, _, _, index, size, cells) => InsertLineStaysParsed(table, RowAxis, index, size, cells);
      case TableInsertColumn(_, _, _, index, size, cells) =>
        InsertLineStaysParsed(table, ColumnAxis, index, size, cells);
      case TableDeleteRow(_, _, _, index) => KeptCellsStayParsed(table.cells, RowAxis, index);
      case TableDeleteColumn(_, _, _, index) => KeptCellsStayParsed(table.cells, ColumnAxis, index);
      case TableUpdateCell(_, _, _, cellId, content, style) => UpdatedCellsStayParsed(table, cellId, content, style);
      case TablePasteTsv(_, _, _, startRow, startColumn, tsv) =>
        PastedCellsStayParsed(table, startRow, startColumn, tsv);
      case _ =>
    }
  }

  lemma StyledElementStaysParsed(element: Element, patch: StylePatch)
    requires ParsedElement(element) && ParsedPatch(patch) && ApplyStylePatch(element, patch).Ok?
    ensures ParsedElement(ApplyStylePatch(element, patch).value)
  {
    hide Trimmed, ParsedCells;
  }

  lemma EditElementStaysParsed(element: Element, command: Command)
    requires ParsedElement(element) && ParsedCommand(command) && EditElement(element, command).Ok?
    ensures ParsedElement(EditElement(element, command).value)
  {
    hide EditTable, ParsedTable, Trimmed, ApplyStylePatch, ParsedStyle;
    if command.ElementUpdateStyle? {
      StyledElementStaysParsed(element, command.patch);
    } else if element.TableElement? && EditTable(element.table, command).Ok? {
      EditTableStaysParsed(element.table, command);
    }
  }

  lemma {:induction false} EditEachStaysParsed(elements: seq<Element>, ids: set<Id>, command: Command)
    requires ParsedForest(elements) && ParsedCommand(command) && EditEach(elements, ids, command).Ok?
    ensures ParsedForest(EditEach(elements, ids, command).value)
    decreases |elements|
  {
    hide EditElement, ParsedElement, ParsedCommand;
    if elements != [] {
      EditEachStaysParsed(elements[1..], ids, command);
      if elements[0].Id() in ids {
        EditElementStaysParsed(elements[0], command);
      }
    }
  }

  lemma {:induction false} VisitElementStaysParsed(element: Element, containerId: Id, ids: set<Id>, command: Command)
    requires ParsedElement(element) && ParsedCommand(command) && VisitElement(element, containerId, ids, command).Ok?
    ensures ParsedElement(VisitElement(element, containerId, ids, command).value.1)
    decreases element, 1
  {
    hide EditEach, ParsedCommand, Trimmed;
    if element.Group? {
      if element.Id() == containerId {
        EditEachStaysParsed(element.children, ids, command);
      } else {
        VisitContainerStaysParsed(element.children, containerId, ids, command);
      }
    }
  }

  lemma {:induction false} VisitContainerStaysParsed(
    elements: seq<Element>, containerId: Id, ids: set<Id>, command: Command)
    requires ParsedForest(elements) && ParsedCommand(command)
    requires VisitContainer(elements, containerId, ids, command).Ok?
    ensures ParsedForest(VisitContainer(elements, containerId, ids, command).value.1)
    decreases elements, 0
  {
    hide ParsedCommand;
    if elements != [] {
      VisitElementStaysParsed(elements[0], containerId, ids, command);
      VisitContainerStaysParsed(elements[1..], containerId, ids, command);
    }
  }

  lemma EditSlideStaysParsed(slide: Slide, command: Command)
    requires ParsedSlide(slide) && ParsedCommand(command) && EditSlide(slide, command).Ok?
    ensures ParsedSlide(EditSlide(slide, command).value)
  {
    hide EditEach, VisitContainer, ParsedForest;
    if !command.SlideUpdate? && !command.SlideSetHidden? {
      var target := TargetOf(command).value;
      if target.containerId.None? {
        EditEachStaysParsed(slide.elements, target.ids, command);
      } else {
        VisitContainerStaysParsed(slide.elements, target.containerId.value, target.ids, command);
      }
    }
  }

  lemma {:induction false} ReplaceSlideStaysParsed(slides: seq<Slide>, slideId: Id, command: Command)
    requires ParsedSlides(slides) && ParsedCommand(command) && ReplaceSlide(slides, slideId, command).Ok?
    ensures ParsedSlides(ReplaceSlide(slides, slideId, command).value.1)
    decreases |slides|
  {
    hide EditSlide, ParsedSlide, ParsedCommand;
    if slides != [] {
      assert slides[0] in slides;
      ReplaceSlideStaysParsed(slides[1..], slideId, command);
      if slides[0].id == slideId {
        EditSlideStaysParsed(slides[0], command);
      }
    }
  }

  lemma ExecuteStaysParsed(document: DeckDocument, command: Command)
    requires IsLocal(command) && ParsedDocument(document) && ParsedCommand(command)
    requires Execute(document, command).Ok?
    ensures ParsedDocument(Execute(document, command).value)
  {
    hide ReplaceSlide, ParsedForest, ParsedSlides;
    if !command.DeckRename? {
      ReplaceSlideStaysParsed(document.slides, LocalSlideId(command), command);
    }
  }

  lemma TimeStampStaysParsed(document: DeckDocument, timestamp: string)
    requires ParsedDocument(document)
    ensures ParsedDocument(document.(modifiedAt := timestamp))
  {
  }

  /** A batch of parsed in-place commands takes a parsed document to a parsed one. */
  lemma {:induction false} BatchStaysParsed(document: DeckDocument, commands: seq<Command>)
    requires AllLocal(commands) && ParsedDocument(document) && ParsedCommands(commands)
    requires ExecuteAll(document, commands).Ok?
    ensures ParsedDocument(ExecuteAll(document, commands).value)
    decreases |commands|
  {
    hide Execute, ParsedDocument, ParsedCommand;
    if commands != [] {
      assert commands[0] in commands;
      ExecuteStaysParsed(document, commands[0]);
      BatchStaysParsed(Execute(document, commands[0]).value, commands[1..]);
    }
  }
}
