/**
 The deck document: slides, layouts and masters that hold recursive element trees.
 Purely visual fields that no modelled operation reads are left out.
 */
module DeckModel {
  import opened Wrappers

  type Id = string

  datatype Point = Point(x: real, y: real)

  /** A rotation is kept as its cosine and sine. */
  datatype Frame = Frame(x: real, y: real, width: real, height: real, cosine: real, sine: real)

  datatype Anchor = TopAnchor | RightAnchor | BottomAnchor | LeftAnchor | CenterAnchor

  datatype Binding = Binding(elementId: Option<Id>, anchor: Option<Anchor>)

  datatype Endpoint = Endpoint(point: Point, binding: Binding)

  datatype PlaceholderOverride = FrameOverride | StyleOverride | VisibilityOverride

  datatype PlaceholderBinding =
    PlaceholderBinding(placeholderId: Id, overrides: seq<PlaceholderOverride>)

  datatype PlaceholderRole = Title | Subtitle | Body | Media | TableRole | Footer | SlideNumber

  datatype ElementKind =
    | TextKind | ImageKind | TableKind | ShapeKind | IconKind
    | ConnectorKind | PlaceholderKind | GroupKind

  /** Optional style fields that a later patch overrides one by one. */
  type StyleFields = map<string, string>

  datatype TextMarks = TextMarks(bold: bool, italic: bool, underline: bool, strikethrough: bool)

  datatype TextRun = TextRun(text: string, marks: TextMarks)

  datatype ListItem = ListItem(id: Id, level: nat, runs: seq<TextRun>)

  datatype TextBlock =
    | Paragraph(id: Id, runs: seq<TextRun>)
    | Heading(id: Id, level: nat, runs: seq<TextRun>)
    | ListBlock(id: Id, ordered: bool, items: seq<ListItem>)

  datatype RichText = RichText(blocks: seq<TextBlock>)

  datatype TableCell = TableCell(
    id: Id, row: nat, column: nat, rowSpan: nat, columnSpan: nat, content: RichText, style: StyleFields)

  datatype Table = Table(
    rowCount: nat, columnCount: nat, rowHeights: seq<real>, columnWidths: seq<real>,
    cells: seq<TableCell>, border: StyleFields, style: StyleFields)

  /** The fields every element has. */
  datatype Base = Base(
    id: Id, name: string, frame: Frame, opacity: real, visible: bool, locked: bool,
    placeholderBinding: Option<PlaceholderBinding>)

  datatype Element =
    | Text(base: Base, styleRole: string, verticalAlignment: string, content: RichText, style: StyleFields)
    | Image(base: Base, assetId: Id)
    | TableElement(base: Base, table: Table)
    | Shape(base: Base, fields: StyleFields)
    | Icon(base: Base, iconName: string)
    | Placeholder(base: Base, role: PlaceholderRole, accepts: seq<ElementKind>)
    | Connector(base: Base, stamped: bool, start: Endpoint, end: Endpoint)
    | Group(base: Base, spaceWidth: real, spaceHeight: real, children: seq<Element>)
  {
    function Id(): Id { base.id }

    function Kind(): ElementKind {
      match this
      case Text(_, _, _, _, _) => TextKind
      case Image(_, _) => ImageKind
      case TableElement(_, _) => TableKind
      case Shape(_, _) => ShapeKind
      case Icon(_, _) => IconKind
      case Placeholder(_, _, _) => PlaceholderKind
      case Connector(_, _, _, _) => ConnectorKind
      case Group(_, _, _, _) => GroupKind
    }
  }

  datatype Background = ThemeBackground | SolidBackground(color: string) | ImageBackground(assetId: Id)

  datatype Theme = Theme(id: Id, name: string)

  datatype Master = Master(id: Id, themeId: Id, elements: seq<Element>, background: Option<Background>)

  datatype Layout = Layout(id: Id, masterId: Id, elements: seq<Element>, background: Option<Background>)

  datatype Slide = Slide(
    id: Id, name: string, layoutId: Id, hidden: bool, background: Option<Background>, elements: seq<Element>)

  datatype AssetRef = AssetRef(id: Id, isImage: bool, hash: string)

  datatype DeckDocument = DeckDocument(
    id: Id, name: string, pageWidth: real, pageHeight: real, includeHidden: bool,
    defaultBackground: Background, modifiedAt: string,
    themes: seq<Theme>, masters: seq<Master>, layouts: seq<Layout>, slides: seq<Slide>,
    assets: seq<AssetRef>)

  /** The identifiers of a tree, in visiting order: an element, then its children. */
  function TreeIds(element: Element): seq<Id>
    decreases element, 1
  {
    [element.Id()] + (if element.Group? then ForestIds(element.children) else [])
  }

  function ForestIds(elements: seq<Element>): seq<Id>
    decreases elements, 0
  {
    if elements == [] then [] else TreeIds(elements[0]) + ForestIds(elements[1..])
  }

  ghost predicate Distinct<T(!new)>(items: seq<T>) {
    forall i, j :: 0 <= i < j < |items| ==> items[i] != items[j]
  }

  /** First match in visiting order, through nested groups. */
  function FindElement(elements: seq<Element>, id: Id): Option<Element>
    decreases elements
  {
    if elements == [] then None
    else if elements[0].Id() == id then Some(elements[0])
    else
      var nested := if elements[0].Group? then FindElement(elements[0].children, id) else None;
      if nested.Some? then nested else FindElement(elements[1..], id)
  }

  function FindSlide(slides: seq<Slide>, id: Id): Option<Slide> {
    if slides == [] then None
    else if slides[0].id == id then Some(slides[0])
    else FindSlide(slides[1..], id)
  }

  function FindLayout(layouts: seq<Layout>, id: Id): Option<Layout> {
    if layouts == [] then None
    else if layouts[0].id == id then Some(layouts[0])
    else FindLayout(layouts[1..], id)
  }

  function FindMaster(masters: seq<Master>, id: Id): Option<Master> {
    if masters == [] then None
    else if masters[0].id == id then Some(masters[0])
    else FindMaster(masters[1..], id)
  }
}
