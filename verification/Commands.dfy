/** The closed union of document commands. */
module Commands {
  import opened Wrappers
  import opened DeckModel

  datatype CommandError =
    | NotFound | InvalidIndex | Locked | InvalidSelection | LastResource | TypeMismatch
    | UnsupportedOperation | LimitExceeded

  /** An optional nullable field of a command: absent, `null`, or a value. */
  datatype Change<+T> = Keep | Clear | Replace(value: T)

  datatype FrameUpdate = FrameUpdate(elementId: Id, frame: Frame)

  datatype StylePatch =
    | TextPatch(opacity: Option<real>, verticalAlignment: Option<string>, styleRole: Option<string>, style: StyleFields)
    | ShapePatch(opacity: Option<real>, fields: StyleFields, shadow: Change<string>)
    | TablePatch(opacity: Option<real>, border: Option<StyleFields>, style: StyleFields)

  datatype Command =
    | DeckRename(name: string)
    | DeckSetPage(width: real, height: real)
    | DeckSetExportOptions(includeHidden: bool)
    | ThemeCreate(theme: Theme)
    | ThemeUpdate(themeId: Id, themeReplacement: Theme)
    | ThemeEnforceDeck(themeId: Id)
    | ThemeDelete(themeId: Id, replacementThemeId: Option<Id>)
    | MasterCreate(master: Master)
    | MasterUpdate(masterId: Id, masterReplacement: Master)
    | MasterDelete(masterId: Id, replacementMasterId: Option<Id>)
    | LayoutCreate(layout: Layout)
    | LayoutUpdate(layoutId: Id, layoutReplacement: Layout)
    | LayoutDelete(layoutId: Id, replacementLayoutId: Option<Id>)
    | SlideCreate(slide: Slide)
    | SlideDelete(slideId: Id)
    | SlideReorder(slideId: Id, toIndex: nat)
    | SlideDuplicate(slideId: Id, duplicate: Slide)
    | SlideUpdate(slideId: Id, newName: Option<string>, background: Change<Background>)
    | SlideSetLayout(slideId: Id, layoutId: Id)
    | SlideResetPlaceholder(slideId: Id, placeholderId: Id)
    | SlideSetHidden(slideId: Id, hidden: bool)
    | ElementInsert(slideId: Id, containerId: Option<Id>, element: Element)
    | ElementUpdate(slideId: Id, containerId: Option<Id>, elementId: Id, replacement: Element)
    | ElementDelete(slideId: Id, containerId: Option<Id>, elementIds: seq<Id>)
    | ElementTransform(slideId: Id, containerId: Option<Id>, transforms: seq<FrameUpdate>)
    | ElementAlign(slideId: Id, containerId: Option<Id>, elementIds: seq<Id>, relativeToContainer: bool)
    | ElementDistribute(slideId: Id, containerId: Option<Id>, elementIds: seq<Id>, relativeToContainer: bool)
    | ElementGroup(slideId: Id, containerId: Option<Id>, elementIds: seq<Id>, groupId: Id)
    | ElementUngroup(slideId: Id, containerId: Option<Id>, groupId: Id)
    | ElementUpdateStyle(slideId: Id, containerId: Option<Id>, elementId: Id, patch: StylePatch)
    | ElementSetLocked(slideId: Id, containerId: Option<Id>, elementId: Id, locked: bool)
    | ElementSetVisible(slideId: Id, containerId: Option<Id>, elementId: Id, visible: bool)
    | ElementReorder(slideId: Id, containerId: Option<Id>, elementId: Id, toIndex: nat)
    | TextReplaceContent(slideId: Id, containerId: Option<Id>, textId: Id, content: RichText)
    | TableInsertRow(slideId: Id, containerId: Option<Id>, tableId: Id, index: nat, size: real, cells: seq<TableCell>)
    | TableDeleteRow(slideId: Id, containerId: Option<Id>, tableId: Id, index: nat)
    | TableInsertColumn(
        slideId: Id, containerId: Option<Id>, tableId: Id, index: nat, size: real, cells: seq<TableCell>)
    | TableDeleteColumn(slideId: Id, containerId: Option<Id>, tableId: Id, index: nat)
    | TableUpdateCell(
        slideId: Id, containerId: Option<Id>, tableId: Id, cellId: Id, cellContent: Option<RichText>,
        cellStyle: Option<StyleFields>)
    | TableUpdateStyle(
        slideId: Id, containerId: Option<Id>, tableId: Id, border: Option<StyleFields>, style: Change<StyleFields>)
    | TablePasteTsv(slideId: Id, containerId: Option<Id>, tableId: Id, startRow: nat, startColumn: nat, tsv: string)
    | AssetRegister(asset: AssetRef)
    | AssetRemove(assetId: Id)
    | ConnectorUpdateEndpoint(
        slideId: Id, containerId: Option<Id>, connectorId: Id, updatesStart: bool, endpoint: Endpoint)

  predicate NoRepeats(ids: seq<Id>) {
    forall i, j | 0 <= i < j < |ids| :: ids[i] != ids[j]
  }

  function TransformTargets(transforms: seq<FrameUpdate>): (ids: seq<Id>)
    ensures |ids| == |transforms|
    ensures forall i | 0 <= i < |ids| :: ids[i] == transforms[i].elementId
  {
    seq(|transforms|, i requires 0 <= i < |transforms| => transforms[i].elementId)
  }

  /** The selection rules of the command schemas: long enough, and nothing named twice. */
  predicate CommandSchema(command: Command) {
    match command
    case ElementDelete(_, _, ids) => |ids| >= 1 && NoRepeats(ids)
    case ElementTransform(_, _, transforms) => |transforms| >= 1 && NoRepeats(TransformTargets(transforms))
    case ElementAlign(_, _, ids, _) => |ids| >= 2 && NoRepeats(ids)
    case ElementDistribute(_, _, ids, _) => |ids| >= 3 && NoRepeats(ids)
    case ElementGroup(_, _, ids, _) => |ids| >= 2 && NoRepeats(ids)
    case _ => true
  }
}
