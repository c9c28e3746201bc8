/** The commands that change one entity in place, executed on the document tree. */
module LocalEdits {
  import opened Wrappers
  import opened DeckModel
  import opened Commands
  import Tsv
  import TableEdits

  // ----- Edits of one element -----

  function Deduplicated(overrides: seq<PlaceholderOverride>): seq<PlaceholderOverride> {
    if overrides == [] then []
    else
      var last := overrides[|overrides| - 1];
      var before := Deduplicated(overrides[..|overrides| - 1]);
      if last in before then before else before + [last]
  }

  function WithOverride(base: Base, placeholderOverride: PlaceholderOverride): Base {
    if base.placeholderBinding.None? then base
    else
      var binding := base.placeholderBinding.value;
      base.(placeholderBinding :=
        Some(binding.(overrides := Deduplicated(binding.overrides + [placeholderOverride]))))
  }

  /** A style patch marks the style, and a new opacity also marks the visibility, as overridden. */
  function StyledBase(base: Base, opacity: Option<real>): Base {
    if opacity.None? then WithOverride(base, StyleOverride)
    else WithOverride(WithOverride(base.(opacity := opacity.value), StyleOverride), VisibilityOverride)
  }

  function GetOr<T>(option: Option<T>, default: T): T {
    if option.Some? then option.value else default
  }

  function ApplyStylePatch(element: Element, patch: StylePatch): Result<Element, CommandError> {
    match (element, patch)
    case (Text(base, role, alignment, content, style), TextPatch(opacity, newAlignment, newRole, newStyle)) =>
      Ok(Text(StyledBase(base, opacity), GetOr(newRole, role), GetOr(newAlignment, alignment), content, style + newStyle))
    case (Shape(base, fields), ShapePatch(opacity, newFields, shadow)) =>
      var kept := if shadow.Clear? then fields - {"shadow"} else fields;
      var shadowed := if shadow.Replace? then map["shadow" := shadow.value] else map[];
      Ok(Shape(StyledBase(base, opacity), kept + newFields + shadowed))
    case (TableElement(base, table), TablePatch(opacity, border, style)) =>
      Ok(TableElement(
        StyledBase(base, opacity), table.(border := GetOr(border, table.border), style := table.style + style)))
    case _ => Err(TypeMismatch)
  }

  const PLAIN_MARKS := TextMarks(false, false, false, false)

  function FirstMarks(runs: seq<TextRun>): TextMarks {
    if runs == [] then PLAIN_MARKS else runs[0].marks
  }

  /** Plain text takes over the first block and keeps the marks of its first run. */
  function WithPlainText(content: RichText, text: string): RichText {
    if content.blocks == [] then content
    else
      match content.blocks[0]
      case ListBlock(id, ordered, items) =>
        if items == [] then content
        else RichText([ListBlock(id, ordered, [items[0].(runs := [TextRun(text, FirstMarks(items[0].runs))])])])
      case Paragraph(id, runs) => RichText([Paragraph(id, [TextRun(text, FirstMarks(runs))])])
      case Heading(id, level, runs) => RichText([Heading(id, level, [TextRun(text, FirstMarks(runs))])])
  }

  predicate InPastedRange(cell: TableCell, startRow: nat, startColumn: nat, matrix: Tsv.Matrix) {
    startRow <= cell.row < startRow + |matrix| &&
    startColumn <= cell.column < startColumn + |matrix[cell.row - startRow]|
  }

  function PastedCell(cell: TableCell, startRow: nat, startColumn: nat, matrix: Tsv.Matrix): TableCell {
    if InPastedRange(cell, startRow, startColumn, matrix) then
      cell.(content := WithPlainText(cell.content, matrix[cell.row - startRow][cell.column - startColumn]))
    else cell
  }

  function PasteTsv(table: Table, startRow: nat, startColumn: nat, tsv: string): Result<Table, CommandError> {
    if !TableEdits.IsSimple(table) then Err(UnsupportedOperation)
    else
      var parsed := Tsv.Parse(tsv);
      if parsed.Err? then Err(InvalidSelection)
      else
        var matrix := parsed.value;
        var width := if matrix == [] then 0 else |matrix[0]|;
        if startRow + |matrix| > table.rowCount || startColumn + width > table.columnCount then Err(InvalidSelection)
        else
          Ok(table.(cells := seq(|table.cells|, i requires 0 <= i < |table.cells| =>
            PastedCell(table.cells[i], startRow, startColumn, matrix))))
  }

  function UpdateCell(
    table: Table, cellId: Id, content: Option<RichText>, style: Option<StyleFields>): Result<Table, CommandError>
  {
    if forall i | 0 <= i < |table.cells| :: table.cells[i].id != cellId then Err(NotFound)
    else
      Ok(table.(cells := seq(|table.cells|, i requires 0 <= i < |table.cells| =>
        var cell := table.cells[i];
        if cell.id == cellId then
          cell.(content := GetOr(content, cell.content), style := GetOr(style, cell.style))
        else cell)))
  }

  function EditTable(table: Table, command: Command): Result<Table, CommandError> {
    match command
    case TableInsertRow(_, _, _, index, size, cells) =>
      TableEdits.InsertLine(table, TableEdits.RowAxis, index, size, cells)
    case TableDeleteRow(_, _, _, index) => TableEdits.DeleteLine(table, TableEdits.RowAxis, index)
    case TableInsertColumn(_, _, _, index, size, cells) =>
      TableEdits.InsertLine(table, TableEdits.ColumnAxis, index, size, cells)
    case TableDeleteColumn(_, _, _, index) => TableEdits.DeleteLine(table, TableEdits.ColumnAxis, index)
    case TableUpdateCell(_, _, _, cellId, content, style) => UpdateCell(table, cellId, content, style)
    case TableUpdateStyle(_, _, _, border, style) =>
      var cleared := if style.Clear? then map[] else table.style;
      var merged := if style.Replace? then cleared + style.value else cleared;
      Ok(table.(border := GetOr(border, table.border), style := merged))
    case TablePasteTsv(_, _, _, startRow, startColumn, tsv) => PasteTsv(table, startRow, startColumn, tsv)
    case _ => Err(UnsupportedOperation)
  }

  function FrameFor(transforms: seq<FrameUpdate>, id: Id): Option<Frame> {
    if transforms == [] then None
    else
      var later := FrameFor(transforms[1..], id);
      if later.Some? then later
      else if transforms[0].elementId == id then Some(transforms[0].frame)
      else None
  }

  function WithBase(element: Element, base: Base): Element {
    element.(base := base)
  }

  /**
   One targeted element after a command. Moving a connector needs the geometry of the whole slide
   and is not part of this function.
   */
  function EditElement(element: Element, command: Command): Result<Element, CommandError> {
    match command
    case ElementSetLocked(_, _, _, locked) => Ok(WithBase(element, element.base.(locked := locked)))
    case ElementSetVisible(_, _, _, visible) =>
      Ok(WithBase(element, WithOverride(element.base.(visible := visible), VisibilityOverride)))
    case ElementUpdateStyle(_, _, _, patch) => ApplyStylePatch(element, patch)
    case ElementTransform(_, _, transforms) =>
      var frame := FrameFor(transforms, element.Id());
      if element.Connector? then Err(UnsupportedOperation)
      else if frame.None? then Ok(element)
      else Ok(WithBase(element, WithOverride(element.base.(frame := frame.value), FrameOverride)))
    case TextReplaceContent(_, _, _, content) =>
      if element.Text? then Ok(element.(content := content)) else Err(TypeMismatch)
    case _ =>
      if !element.TableElement? then Err(TypeMismatch)
      else
        var table := EditTable(element.table, command);
        if table.Err? then Err(table.error) else Ok(element.(table := table.value))
  }

  // ----- The element tree around it -----

  /** The elements an in-place element command names, and where. */
  datatype Target = Target(slideId: Id, containerId: Option<Id>, ids: set<Id>)

  function TargetOf(command: Command): Option<Target> {
    match command
    case ElementUpdateStyle(slideId, containerId, id, _) => Some(Target(slideId, containerId, {id}))
    case ElementSetLocked(slideId, containerId, id, _) => Some(Target(slideId, containerId, {id}))
    case ElementSetVisible(slideId, containerId, id, _) => Some(Target(slideId, containerId, {id}))
    case TextReplaceContent(slideId, containerId, id, _) => Some(Target(slideId, containerId, {id}))
    case TableInsertRow(slideId, containerId, id, _, _, _) => Some(Target(slideId, containerId, {id}))
    case TableDeleteRow(slideId, containerId, id, _) => Some(Target(slideId, containerId, {id}))
    case TableInsertColumn(slideId, containerId, id, _, _, _) => Some(Target(slideId, containerId, {id}))
    case TableDeleteColumn(slideId, containerId, id, _) => Some(Target(slideId, containerId, {id}))
    case TableUpdateCell(slideId, containerId, id, _, _, _) => Some(Target(slideId, containerId, {id}))
    case TableUpdateStyle(slideId, containerId, id, _, _) => Some(Target(slideId, containerId, {id}))
    case TablePasteTsv(slideId, containerId, id, _, _, _) => Some(Target(slideId, containerId, {id}))
    case ElementTransform(slideId, containerId, transforms) =>
      Some(Target(slideId, containerId, set i | 0 <= i < |transforms| :: transforms[i].elementId))
    case _ => None
  }

  function SelectedCount(elements: seq<Element>, ids: set<Id>): nat {
    if elements == [] then 0
    else (if elements[0].Id() in ids then 1 else 0) + SelectedCount(elements[1..], ids)
  }

  predicate SelectionLocked(elements: seq<Element>, ids: set<Id>) {
    exists i :: 0 <= i < |elements| && elements[i].Id() in ids && elements[i].base.locked
  }

  function EditEach(elements: seq<Element>, ids: set<Id>, command: Command): Result<seq<Element>, CommandError> {
    if elements == [] then Ok([])
    else
      var head := if elements[0].Id() in ids then EditElement(elements[0], command) else Ok(elements[0]);
      if head.Err? then Err(head.error)
      else
        var tail := EditEach(elements[1..], ids, command);
        if tail.Err? then Err(tail.error) else Ok([head.value] + tail.value)
  }

  /** The elements of one container: all targets present, none locked unless the command unlocks. */
  function EditContainer(elements: seq<Element>, ids: set<Id>, command: Command): Result<seq<Element>, CommandError> {
    if SelectedCount(elements, ids) != |ids| then Err(NotFound)
    else if !command.ElementSetLocked? && SelectionLocked(elements, ids) then Err(Locked)
    else EditEach(elements, ids, command)
  }

  /** Walks the groups; the flag tells whether the container was met. */
  function VisitElement(element: Element, containerId: Id, ids: set<Id>, command: Command)
    : Result<(bool, Element), CommandError>
    decreases element, 1
  {
    if !element.Group? then Ok((false, element))
    else if element.Id() == containerId then
      if element.base.locked then Err(Locked)
      else
        var edited := EditContainer(element.children, ids, command);
        if edited.Err? then Err(edited.error) else Ok((true, element.(children := edited.value)))
    else
      var visited := VisitContainer(element.children, containerId, ids, command);
      if visited.Err? then Err(visited.error)
      else Ok((visited.value.0, element.(children := visited.value.1)))
  }

  function VisitContainer(elements: seq<Element>, containerId: Id, ids: set<Id>, command: Command)
    : Result<(bool, seq<Element>), CommandError>
    decreases elements, 0
  {
    if elements == [] then Ok((false, []))
    else
      var head := VisitElement(elements[0], containerId, ids, command);
      if head.Err? then Err(head.error)
      else
        var tail := VisitContainer(elements[1..], containerId, ids, command);
        if tail.Err? then Err(tail.error)
        else Ok((head.value.0 || tail.value.0, [head.value.1] + tail.value.1))
  }

  function EditTree(elements: seq<Element>, containerId: Option<Id>, ids: set<Id>, command: Command)
    : Result<seq<Element>, CommandError>
  {
    if containerId.None? then EditContainer(elements, ids, command)
    else
      var visited := VisitContainer(elements, containerId.value, ids, command);
      if visited.Err? then Err(visited.error)
      else if !visited.value.0 then Err(NotFound)
      else Ok(visited.value.1)
  }

  // ----- Slides and the document -----

  function ChangedBackground(current: Option<Background>, change: Change<Background>): Option<Background> {
    match change
    case Keep => current
    case Clear => None
    case Replace(value) => Some(value)
  }

  function EditSlide(slide: Slide, command: Command): Result<Slide, CommandError> {
    if command.SlideUpdate? then
      Ok(slide.(
        name := GetOr(command.newName, slide.name),
        background := ChangedBackground(slide.background, command.background)))
    else if command.SlideSetHidden? then Ok(slide.(hidden := command.hidden))
    else
      var target := TargetOf(command);
      if target.None? then Err(UnsupportedOperation)
      else
        var elements := EditTree(slide.elements, target.value.containerId, target.value.ids, command);
        if elements.Err? then Err(elements.error) else Ok(slide.(elements := elements.value))
  }

  function ReplaceSlide(slides: seq<Slide>, slideId: Id, command: Command): Result<(bool, seq<Slide>), CommandError> {
    if slides == [] then Ok((false, []))
    else
      var head := if slides[0].id == slideId then EditSlide(slides[0], command) else Ok(slides[0]);
      if head.Err? then Err(head.error)
      else
        var tail := ReplaceSlide(slides[1..], slideId, command);
        if tail.Err? then Err(tail.error)
        else Ok((slides[0].id == slideId || tail.value.0, [head.value] + tail.value.1))
  }

  predicate IsLocal(command: Command) {
    command.DeckRename? || command.SlideUpdate? || command.SlideSetHidden? || TargetOf(command).Some?
  }

  function LocalSlideId(command: Command): Id
    requires IsLocal(command) && !command.DeckRename?
  {
    var target := TargetOf(command);
    if target.Some? then target.value.slideId else command.slideId
  }

  function Execute(document: DeckDocument, command: Command): Result<DeckDocument, CommandError>
    requires IsLocal(command)
  {
    if command.DeckRename? then Ok(document.(name := command.name))
    else
      var replaced := ReplaceSlide(document.slides, LocalSlideId(command), command);
      if replaced.Err? then Err(replaced.error)
      else if !replaced.value.0 then Err(NotFound)
      else Ok(document.(slides := replaced.value.1))
  }

  predicate AllLocal(commands: seq<Command>) {
    forall i | 0 <= i < |commands| :: IsLocal(commands[i])
  }

  function ExecuteAll(document: DeckDocument, commands: seq<Command>): Result<DeckDocument, CommandError>
    requires AllLocal(commands)
    decreases |commands|
  {
    if commands == [] then Ok(document)
    else
      var first := Execute(document, commands[0]);
      if first.Err? then first else ExecuteAll(first.value, commands[1..])
  }
}
