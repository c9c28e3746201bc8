/** The read and write footprint of every command: the conflict keys of a batch. */
module Access {
  import opened Wrappers
  import opened DeckModel
  import opened Commands

  datatype EntityKey =
    | DeckName | DeckSlideOrder | DeckPage | DeckExportSettings | DeckDefaultBackground
    | ThemeCollection | MasterCollection | LayoutCollection | AssetCollection
    | ThemeReferences | MasterReferences | LayoutReferences | AssetReferences
    | SlideEntity(slideId: Id)
    | ElementEntity(elementId: Id)
    | ThemeEntity(themeId: Id)
    | MasterEntity(masterId: Id)
    | LayoutEntity(layoutId: Id)
    | AssetEntity(assetId: Id)
    | ElementCollection(ownerSlideId: Id, containerId: Option<Id>)

  datatype CommandAccess = CommandAccess(readSet: set<EntityKey>, writeSet: set<EntityKey>)

  function Touched(access: CommandAccess): set<EntityKey> {
    access.readSet + access.writeSet
  }

  // ----- Helpers that collect keys of a tree -----

  function ElementTreeWrites(element: Element, slideId: Id): set<EntityKey>
    decreases element, 1
  {
    {ElementEntity(element.Id())} +
    if element.Group? then
      {ElementCollection(slideId, Some(element.Id()))} + ForestWrites(element.children, slideId)
    else {}
  }

  function ForestWrites(elements: seq<Element>, slideId: Id): set<EntityKey>
    decreases elements, 0
  {
    if elements == [] then {}
    else ElementTreeWrites(elements[0], slideId) + ForestWrites(elements[1..], slideId)
  }

  function SlideTreeWrites(slide: Slide): set<EntityKey> {
    {SlideEntity(slide.id), ElementCollection(slide.id, None)} + ForestWrites(slide.elements, slide.id)
  }

  function SlidesTreeWrites(slides: seq<Slide>, affected: Slide -> bool): set<EntityKey> {
    if slides == [] then {}
    else (if affected(slides[0]) then SlideTreeWrites(slides[0]) else {}) + SlidesTreeWrites(slides[1..], affected)
  }

  /** Element keys without the slide-scoped collections, for masters and layouts. */
  function ForestEntityWrites(elements: seq<Element>): set<EntityKey> {
    set id | id in ForestIds(elements) :: ElementEntity(id)
  }

  function ContainerReads(slideId: Id, containerId: Option<Id>): set<EntityKey> {
    {SlideEntity(slideId)} + if containerId.Some? then {ElementEntity(containerId.value)} else {}
  }

  function ElementKeys(ids: seq<Id>): set<EntityKey> {
    set id | id in ids :: ElementEntity(id)
  }

  function ForestAssetIds(elements: seq<Element>): set<Id>
    decreases elements
  {
    if elements == [] then {}
    else
      (match elements[0]
       case Image(_, assetId) => {assetId}
       case Group(_, _, _, children) => ForestAssetIds(children)
       case _ => {}) + ForestAssetIds(elements[1..])
  }

  function BackgroundAssetIds(background: Option<Background>): set<Id> {
    if background.Some? && background.value.ImageBackground? then {background.value.assetId} else {}
  }

  function AssetReferenceReads(elements: seq<Element>, background: Option<Background>): set<EntityKey> {
    set id | id in ForestAssetIds(elements) + BackgroundAssetIds(background) :: AssetEntity(id)
  }

  function BoundPlaceholderReads(elements: seq<Element>, placeholderId: Id): set<EntityKey>
    decreases elements
  {
    if elements == [] then {}
    else
      var head := elements[0];
      (if BoundTo(head, placeholderId) then {ElementEntity(head.Id())} else {}) +
      (if head.Group? then BoundPlaceholderReads(head.children, placeholderId) else {}) +
      BoundPlaceholderReads(elements[1..], placeholderId)
  }

  function BoundPlaceholderWrites(elements: seq<Element>, slideId: Id, placeholderId: Id): set<EntityKey>
    decreases elements
  {
    if elements == [] then {}
    else
      var head := elements[0];
      (if BoundTo(head, placeholderId) then ElementTreeWrites(head, slideId) else {}) +
      (if head.Group? then BoundPlaceholderWrites(head.children, slideId, placeholderId) else {}) +
      BoundPlaceholderWrites(elements[1..], slideId, placeholderId)
  }

  predicate BoundTo(element: Element, placeholderId: Id) {
    element.base.placeholderBinding.Some? &&
    element.base.placeholderBinding.value.placeholderId == placeholderId
  }

  function ExistingTreeWrites(document: Option<DeckDocument>, slideId: Id, ids: seq<Id>): set<EntityKey> {
    if document.None? || FindSlide(document.value.slides, slideId).None? || ids == [] then {}
    else
      var element := FindElement(FindSlide(document.value.slides, slideId).value.elements, ids[0]);
      (if element.Some? then ElementTreeWrites(element.value, slideId) else {}) +
      ExistingTreeWrites(document, slideId, ids[1..])
  }

  function LayoutIdsOfMaster(layouts: seq<Layout>, masterId: Id): set<Id> {
    set layout | layout in layouts && layout.masterId == masterId :: layout.id
  }

  /** The whole design surface of a document, which enforcing a theme rewrites. */
  function DesignSurfaceWrites(document: DeckDocument): set<EntityKey> {
    (set master | master in document.masters :: MasterEntity(master.id)) +
    (set master, id | master in document.masters && id in ForestIds(master.elements) :: ElementEntity(id)) +
    (set layout | layout in document.layouts :: LayoutEntity(layout.id)) +
    (set layout, id | layout in document.layouts && id in ForestIds(layout.elements) :: ElementEntity(id)) +
    SlidesTreeWrites(document.slides, (slide: Slide) => true)
  }

  // ----- Footprints -----

  /** The reads and writes one command adds. */
  function CommandFootprint(command: Command, document: Option<DeckDocument>): CommandAccess {
    match command
    case DeckRename(_) => CommandAccess({}, {DeckName})
    case DeckSetPage(_, _) => CommandAccess({}, {DeckPage})
    case DeckSetExportOptions(_) => CommandAccess({}, {DeckExportSettings})
    case ThemeCreate(theme) =>
      CommandAccess({ThemeCollection}, {ThemeCollection, ThemeEntity(theme.id)})
    case ThemeUpdate(themeId, replacement) =>
      CommandAccess({ThemeEntity(themeId)}, {ThemeEntity(themeId), ThemeEntity(replacement.id)})
    case ThemeEnforceDeck(themeId) =>
      CommandAccess(
        {ThemeEntity(themeId), MasterCollection, LayoutCollection, DeckSlideOrder},
        {DeckDefaultBackground, ThemeReferences} +
        if document.None? then {MasterCollection, LayoutCollection, DeckSlideOrder}
        else DesignSurfaceWrites(document.value))
    case ThemeDelete(themeId, replacementId) =>
      CommandAccess(
        {ThemeCollection, ThemeEntity(themeId), ThemeReferences} +
        (if replacementId.Some? then {ThemeEntity(replacementId.value)} else {}),
        {ThemeCollection, ThemeEntity(themeId), ThemeReferences} +
        if document.None? then {MasterCollection}
        else set master | master in document.value.masters && master.themeId == themeId :: MasterEntity(master.id))
    case MasterCreate(master) =>
      CommandAccess(
        {MasterCollection, ThemeEntity(master.themeId)} + AssetReferenceReads(master.elements, master.background),
        {MasterCollection, MasterEntity(master.id), ThemeReferences, AssetReferences} +
        ForestEntityWrites(master.elements))
    case MasterUpdate(masterId, replacement) =>
      CommandAccess(
        {MasterEntity(masterId), ThemeEntity(replacement.themeId)} +
        AssetReferenceReads(replacement.elements, replacement.background),
        {MasterEntity(masterId), MasterEntity(replacement.id), ThemeReferences, AssetReferences} +
        ForestEntityWrites(replacement.elements) +
        if document.None? then {}
        else
          var affected := LayoutIdsOfMaster(document.value.layouts, masterId);
          SlidesTreeWrites(document.value.slides, (slide: Slide) => slide.layoutId in affected))
    case MasterDelete(masterId, replacementId) =>
      CommandAccess(
        {MasterCollection, MasterEntity(masterId), MasterReferences} +
        (if replacementId.Some? then {MasterEntity(replacementId.value)} else {}),
        {MasterCollection, MasterEntity(masterId), MasterReferences, ThemeReferences, AssetReferences} +
        if document.None? then {LayoutCollection}
        else
          var affected := LayoutIdsOfMaster(document.value.layouts, masterId);
          (set id | id in affected :: LayoutEntity(id)) +
          SlidesTreeWrites(document.value.slides, (slide: Slide) => slide.layoutId in affected))
    case LayoutCreate(layout) =>
      CommandAccess(
        {LayoutCollection, MasterEntity(layout.masterId)} + AssetReferenceReads(layout.elements, layout.background),
        {LayoutCollection, LayoutEntity(layout.id), MasterReferences, AssetReferences} +
        ForestEntityWrites(layout.elements))
    case LayoutUpdate(layoutId, replacement) =>
      CommandAccess(
        {LayoutEntity(layoutId), MasterEntity(replacement.masterId)} +
        AssetReferenceReads(replacement.elements, replacement.background),
        {LayoutEntity(layoutId), LayoutEntity(replacement.id), MasterReferences, AssetReferences} +
        ForestEntityWrites(replacement.elements) +
        if document.None? then {}
        else SlidesTreeWrites(document.value.slides, (slide: Slide) => slide.layoutId == layoutId))
    case LayoutDelete(layoutId, replacementId) =>
      CommandAccess(
        {LayoutCollection, LayoutEntity(layoutId), LayoutReferences} +
        (if replacementId.Some? then {LayoutEntity(replacementId.value)} else {}),
        {LayoutCollection, LayoutEntity(layoutId), LayoutReferences, MasterReferences, AssetReferences} +
        if document.None? then {DeckSlideOrder}
        else set slide | slide in document.value.slides && slide.layoutId == layoutId :: SlideEntity(slide.id))
    case SlideCreate(slide) =>
      CommandAccess(
        {DeckSlideOrder, LayoutEntity(slide.layoutId)} + AssetReferenceReads(slide.elements, slide.background),
        {DeckSlideOrder, LayoutReferences, AssetReferences} + SlideTreeWrites(slide))
    case SlideDelete(slideId) =>
      CommandAccess(
        {DeckSlideOrder, SlideEntity(slideId)},
        {DeckSlideOrder, SlideEntity(slideId), LayoutReferences, AssetReferences} +
        if document.None? || FindSlide(document.value.slides, slideId).None? then {}
        else ForestWrites(FindSlide(document.value.slides, slideId).value.elements, slideId))
    case SlideReorder(slideId, _) =>
      CommandAccess({DeckSlideOrder, SlideEntity(slideId)}, {DeckSlideOrder})
    case SlideDuplicate(slideId, duplicate) =>
      CommandAccess(
        {DeckSlideOrder, SlideEntity(slideId), LayoutEntity(duplicate.layoutId)} +
        AssetReferenceReads(duplicate.elements, duplicate.background),
        {DeckSlideOrder, LayoutReferences, AssetReferences} + SlideTreeWrites(duplicate))
    case SlideUpdate(slideId, _, background) =>
      CommandAccess(
        {SlideEntity(slideId)} +
        (if background.Replace? then
           set id | id in BackgroundAssetIds(Some(background.value)) :: AssetEntity(id)
         else {}),
        {SlideEntity(slideId)} + if background.Keep? then {} else {AssetReferences})
    case SlideSetLayout(slideId, layoutId) =>
      CommandAccess({SlideEntity(slideId), LayoutEntity(layoutId)}, {SlideEntity(slideId), LayoutReferences})
    case SlideResetPlaceholder(slideId, placeholderId) =>
      var slide := if document.None? then None else FindSlide(document.value.slides, slideId);
      CommandAccess(
        {SlideEntity(slideId)} +
        (if slide.None? then {LayoutCollection, MasterCollection}
         else
           var layout := FindLayout(document.value.layouts, slide.value.layoutId);
           {LayoutEntity(slide.value.layoutId)} +
           (if layout.Some? then {MasterEntity(layout.value.masterId)} else {}) +
           BoundPlaceholderReads(slide.value.elements, placeholderId)),
        {SlideEntity(slideId)} +
        if slide.None? then {} else BoundPlaceholderWrites(slide.value.elements, slideId, placeholderId))
    case SlideSetHidden(slideId, _) => CommandAccess({SlideEntity(slideId)}, {SlideEntity(slideId)})
    case ElementInsert(slideId, containerId, element) =>
      var assets := ForestAssetIds([element]);
      CommandAccess(
        ContainerReads(slideId, containerId) + {ElementCollection(slideId, containerId)} +
        (set id | id in assets :: AssetEntity(id)),
        {ElementCollection(slideId, containerId)} + (if assets != {} then {AssetReferences} else {}) +
        ElementTreeWrites(element, slideId))
    case ElementUpdate(slideId, containerId, elementId, replacement) =>
      CommandAccess(
        ContainerReads(slideId, containerId) + {ElementEntity(elementId)} +
        (set id | id in ForestAssetIds([replacement]) :: AssetEntity(id)),
        {ElementEntity(elementId), AssetReferences} + ExistingTreeWrites(document, slideId, [elementId]) +
        ElementTreeWrites(replacement, slideId))
    case ElementDelete(slideId, containerId, ids) =>
      CommandAccess(
        ContainerReads(slideId, containerId) + {ElementCollection(slideId, containerId)} + ElementKeys(ids),
        {ElementCollection(slideId, containerId), AssetReferences} + ElementKeys(ids) +
        ExistingTreeWrites(document, slideId, ids))
    case ElementTransform(slideId, containerId, transforms) =>
      var keys := ElementKeys(TransformTargets(transforms));
      CommandAccess(ContainerReads(slideId, containerId) + keys, keys)
    case ElementAlign(slideId, containerId, ids, relativeToContainer) =>
      ArrangeFootprint(slideId, containerId, ids, relativeToContainer)
    case ElementDistribute(slideId, containerId, ids, relativeToContainer) =>
      ArrangeFootprint(slideId, containerId, ids, relativeToContainer)
    case ElementGroup(slideId, containerId, ids, groupId) =>
      CommandAccess(
        ContainerReads(slideId, containerId) + {ElementCollection(slideId, containerId)} + ElementKeys(ids),
        {ElementCollection(slideId, containerId), ElementEntity(groupId), ElementCollection(slideId, Some(groupId))} +
        ElementKeys(ids))
    case ElementUngroup(slideId, containerId, groupId) =>
      CommandAccess(
        ContainerReads(slideId, containerId) + {ElementCollection(slideId, containerId), ElementEntity(groupId)},
        {ElementCollection(slideId, containerId), ElementEntity(groupId), ElementCollection(slideId, Some(groupId))})
    case ElementUpdateStyle(slideId, containerId, id, _) => TargetFootprint(slideId, containerId, id)
    case ElementSetLocked(slideId, containerId, id, _) => TargetFootprint(slideId, containerId, id)
    case ElementSetVisible(slideId, containerId, id, _) => TargetFootprint(slideId, containerId, id)
    case ElementReorder(slideId, containerId, id, _) =>
      CommandAccess(
        ContainerReads(slideId, containerId) + {ElementCollection(slideId, containerId), ElementEntity(id)},
        {ElementCollection(slideId, containerId), ElementEntity(id)})
    case TextReplaceContent(slideId, containerId, id, _) => TargetFootprint(slideId, containerId, id)
    case TableInsertRow(slideId, containerId, id, _, _, _) => TargetFootprint(slideId, containerId, id)
    case TableDeleteRow(slideId, containerId, id, _) => TargetFootprint(slideId, containerId, id)
    case TableInsertColumn(slideId, containerId, id, _, _, _) => TargetFootprint(slideId, containerId, id)
    case TableDeleteColumn(slideId, containerId, id, _) => TargetFootprint(slideId, containerId, id)
    case TableUpdateCell(slideId, containerId, id, _, _, _) => TargetFootprint(slideId, containerId, id)
    case TableUpdateStyle(slideId, containerId, id, _, _) => TargetFootprint(slideId, containerId, id)
    case TablePasteTsv(slideId, containerId, id, _, _, _) => TargetFootprint(slideId, containerId, id)
    case AssetRegister(asset) => CommandAccess({AssetCollection}, {AssetCollection, AssetEntity(asset.id)})
    case AssetRemove(assetId) =>
      CommandAccess({AssetCollection, AssetEntity(assetId), AssetReferences}, {AssetCollection, AssetEntity(assetId)})
    case ConnectorUpdateEndpoint(slideId, containerId, connectorId, _, endpoint) =>
      CommandAccess(
        ContainerReads(slideId, containerId) + {ElementEntity(connectorId)} +
        (if endpoint.binding.elementId.Some? then {ElementEntity(endpoint.binding.elementId.value)} else {}),
        {ElementEntity(connectorId)})
  }

  /** Commands that change one element in place. */
  function TargetFootprint(slideId: Id, containerId: Option<Id>, elementId: Id): CommandAccess {
    CommandAccess(ContainerReads(slideId, containerId) + {ElementEntity(elementId)}, {ElementEntity(elementId)})
  }

  function ArrangeFootprint(
    slideId: Id, containerId: Option<Id>, ids: seq<Id>, relativeToContainer: bool): CommandAccess
  {
    CommandAccess(
      ContainerReads(slideId, containerId) + ElementKeys(ids) +
      (if relativeToContainer && containerId.None? then {DeckPage} else {}),
      ElementKeys(ids))
  }

  /** The footprint of a batch is the union of its commands' footprints. */
  function BatchFootprint(commands: seq<Command>, document: Option<DeckDocument>): CommandAccess {
    if commands == [] then CommandAccess({}, {})
    else
      var last := CommandFootprint(commands[|commands| - 1], document);
      var rest := BatchFootprint(commands[..|commands| - 1], document);
      CommandAccess(rest.readSet + last.readSet, rest.writeSet + last.writeSet)
  }

  method AnalyzeCommandAccess(commands: seq<Command>, document: Option<DeckDocument>)
    returns (access: CommandAccess)
    ensures access == BatchFootprint(commands, document)
  {
    var readSet, writeSet := {}, {};
    for n := 0 to |commands|
      invariant CommandAccess(readSet, writeSet) == BatchFootprint(commands[..n], document)
    {
      assert commands[..n + 1][..n] == commands[..n];
      var footprint := CommandFootprint(commands[n], document);
      readSet := readSet + footprint.readSet;
      writeSet := writeSet + footprint.writeSet;
    }
    assert commands[..|commands|] == commands;
    access := CommandAccess(readSet, writeSet);
  }

  lemma {:induction false} BatchContains(
    commands: seq<Command>, document: Option<DeckDocument>, i: nat)
    requires i < |commands|
    ensures CommandFootprint(commands[i], document).readSet <= BatchFootprint(commands, document).readSet
    ensures CommandFootprint(commands[i], document).writeSet <= BatchFootprint(commands, document).writeSet
  {
    if i < |commands| - 1 {
      BatchContains(commands[..|commands| - 1], document, i);
    }
  }

  /** A key every command writes whatever document it is analysed against. */
  function AnchorKey(command: Command): EntityKey
    requires CommandSchema(command)
  {
    match command
    case DeckRename(_) => DeckName
    case DeckSetPage(_, _) => DeckPage
    case DeckSetExportOptions(_) => DeckExportSettings
    case ThemeCreate(_) => ThemeCollection
    case ThemeUpdate(themeId, _) => ThemeEntity(themeId)
    case ThemeEnforceDeck(_) => DeckDefaultBackground
    case ThemeDelete(_, _) => ThemeCollection
    case MasterCreate(_) => MasterCollection
    case MasterUpdate(masterId, _) => MasterEntity(masterId)
    case MasterDelete(_, _) => MasterCollection
    case LayoutCreate(_) => LayoutCollection
    case LayoutUpdate(layoutId, _) => LayoutEntity(layoutId)
    case LayoutDelete(_, _) => LayoutCollection
    case SlideCreate(_) => DeckSlideOrder
    case SlideDelete(_) => DeckSlideOrder
    case SlideReorder(_, _) => DeckSlideOrder
    case SlideDuplicate(_, _) => DeckSlideOrder
    case SlideUpdate(slideId, _, _) => SlideEntity(slideId)
    case SlideSetLayout(slideId, _) => SlideEntity(slideId)
    case SlideResetPlaceholder(slideId, _) => SlideEntity(slideId)
    case SlideSetHidden(slideId, _) => SlideEntity(slideId)
    case ElementInsert(slideId, containerId, _) => ElementCollection(slideId, containerId)
    case ElementUpdate(_, _, id, _) => ElementEntity(id)
    case ElementDelete(slideId, containerId, _) => ElementCollection(slideId, containerId)
    case ElementTransform(_, _, transforms) => ElementEntity(transforms[0].elementId)
    case ElementAlign(_, _, ids, _) => ElementEntity(ids[0])
    case ElementDistribute(_, _, ids, _) => ElementEntity(ids[0])
    case ElementGroup(slideId, containerId, _, _) => ElementCollection(slideId, containerId)
    case ElementUngroup(slideId, containerId, _) => ElementCollection(slideId, containerId)
    case ElementUpdateStyle(_, _, id, _) => ElementEntity(id)
    case ElementSetLocked(_, _, id, _) => ElementEntity(id)
    case ElementSetVisible(_, _, id, _) => ElementEntity(id)
    case ElementReorder(slideId, containerId, _, _) => ElementCollection(slideId, containerId)
    case TextReplaceContent(_, _, id, _) => ElementEntity(id)
    case TableInsertRow(_, _, id, _, _, _) => ElementEntity(id)
    case TableDeleteRow(_, _, id, _) => ElementEntity(id)
    case TableInsertColumn(_, _, id, _, _, _) => ElementEntity(id)
    case TableDeleteColumn(_, _, id, _) => ElementEntity(id)
    case TableUpdateCell(_, _, id, _, _, _) => ElementEntity(id)
    case TableUpdateStyle(_, _, id, _, _) => ElementEntity(id)
    case TablePasteTsv(_, _, id, _, _, _) => ElementEntity(id)
    case AssetRegister(_) => AssetCollection
    case AssetRemove(_) => AssetCollection
    case ConnectorUpdateEndpoint(_, _, id, _, _) => ElementEntity(id)
  }

  predicate IsDesignCommand(command: Command) {
    command.DeckRename? || command.DeckSetPage? || command.DeckSetExportOptions? ||
    command.ThemeCreate? || command.ThemeUpdate? || command.ThemeEnforceDeck? || command.ThemeDelete? ||
    command.MasterCreate? || command.MasterUpdate? || command.MasterDelete? ||
    command.LayoutCreate? || command.LayoutUpdate? || command.LayoutDelete? ||
    command.AssetRegister? || command.AssetRemove?
  }

  predicate IsStructuralCommand(command: Command) {
    command.SlideCreate? || command.SlideDelete? || command.SlideReorder? || command.SlideDuplicate? ||
    command.SlideUpdate? || command.SlideSetLayout? || command.SlideResetPlaceholder? || command.SlideSetHidden? ||
    command.ElementInsert? || command.ElementUpdate? || command.ElementDelete? ||
    command.ElementGroup? || command.ElementUngroup?
  }

  lemma DesignAnchorWritten(command: Command, document: Option<DeckDocument>)
    requires IsDesignCommand(command)
    ensures AnchorKey(command) in CommandFootprint(command, document).writeSet
  {
    match command
    case _ =>
  }

  lemma StructuralAnchorWritten(command: Command, document: Option<DeckDocument>)
    requires IsStructuralCommand(command) && CommandSchema(command)
    ensures AnchorKey(command) in CommandFootprint(command, document).writeSet
  {
    match command
    case _ =>
  }

  /** A schema-valid command writes its anchor key against every document, and with none at hand. */
  lemma AnchorKeyWritten(command: Command, document: Option<DeckDocument>)
    requires CommandSchema(command)
    ensures AnchorKey(command) in CommandFootprint(command, document).writeSet
  {
    if IsDesignCommand(command) {
      DesignAnchorWritten(command, document);
    } else if IsStructuralCommand(command) {
      StructuralAnchorWritten(command, document);
    } else if command.ElementTransform? {
      assert command.transforms[0].elementId == TransformTargets(command.transforms)[0];
    }
  }

  /** Every non-empty batch has a write key that no document can take away. */
  lemma BatchHasStableWriteKey(commands: seq<Command>) returns (key: EntityKey)
    requires commands != []
    requires forall i | 0 <= i < |commands| :: CommandSchema(commands[i])
    ensures forall document: Option<DeckDocument> :: key in BatchFootprint(commands, document).writeSet
  {
    key := AnchorKey(commands[0]);
    forall document: Option<DeckDocument>
      ensures key in BatchFootprint(commands, document).writeSet
    {
      AnchorKeyWritten(commands[0], document);
      BatchContains(commands, document, 0);
    }
  }

  /** What a tree footprint means: every element of the tree, and the child list of every group. */
  lemma {:induction false} ForestWritesAreItsIds(elements: seq<Element>, slideId: Id)
    ensures forall id :: ElementEntity(id) in ForestWrites(elements, slideId) <==> id in ForestIds(elements)
    decreases elements
  {
    if elements != [] {
      ForestWritesAreItsIds(elements[1..], slideId);
      if elements[0].Group? {
        ForestWritesAreItsIds(elements[0].children, slideId);
      }
    }
  }
}
