/** Conflict keys as the host stores and compares them: as text. */
module AccessKeys {
  import opened Wrappers
  import opened DeckModel
  import opened Access

  /** The characters of a UUID. */
  predicate UuidText(id: Id) {
    forall c | c in id :: '0' <= c <= '9' || 'a' <= c <= 'f' || 'A' <= c <= 'F' || c == '-'
  }

  predicate KeyIds(key: EntityKey) {
    match key
    case SlideEntity(id) => UuidText(id)
    case ElementEntity(id) => UuidText(id)
    case ThemeEntity(id) => UuidText(id)
    case MasterEntity(id) => UuidText(id)
    case LayoutEntity(id) => UuidText(id)
    case AssetEntity(id) => UuidText(id)
    case ElementCollection(slideId, containerId) =>
      UuidText(slideId) && (containerId.Some? ==> UuidText(containerId.value))
    case _ => true
  }

  /** What stands before the first colon. */
  function Scope(key: EntityKey): string {
    match key
    case SlideEntity(_) => "slide"
    case ElementEntity(_) => "element"
    case ThemeEntity(_) => "theme"
    case MasterEntity(_) => "master"
    case LayoutEntity(_) => "layout"
    case AssetEntity(_) => "asset"
    case ElementCollection(_, _) => "elements"
    case ThemeReferences => "references"
    case MasterReferences => "references"
    case LayoutReferences => "references"
    case AssetReferences => "references"
    case _ => "deck"
  }

  function CollectionText(slideId: Id, containerId: Option<Id>): string {
    slideId + ":" + if containerId.Some? then containerId.value else "root"
  }

  /** What stands behind it. */
  function Subject(key: EntityKey): string {
    match key
    case DeckName => "name"
    case DeckSlideOrder => "slide-order"
    case DeckPage => "page"
    case DeckExportSettings => "export-settings"
    case DeckDefaultBackground => "default-background"
    case ThemeCollection => "themes"
    case MasterCollection => "masters"
    case LayoutCollection => "layouts"
    case AssetCollection => "assets"
    case ThemeReferences => "themes"
    case MasterReferences => "masters"
    case LayoutReferences => "layouts"
    case AssetReferences => "assets"
    case SlideEntity(id) => id
    case ElementEntity(id) => id
    case ThemeEntity(id) => id
    case MasterEntity(id) => id
    case LayoutEntity(id) => id
    case AssetEntity(id) => id
    case ElementCollection(slideId, containerId) => CollectionText(slideId, containerId)
  }

  function KeyText(key: EntityKey): string {
    Scope(key) + ":" + Subject(key)
  }

  predicate NoColon(text: string) {
    ':' !in text
  }

  lemma ColonEnds(left: string, x: string, right: string, y: string)
    requires NoColon(right) && left + ":" + x == right + ":" + y
    ensures |right| <= |left|
  {
    var text := left + ":" + x;
    assert text[|left|] == ':';
    assert forall i | 0 <= i < |right| :: text[i] == right[i] && right[i] in right;
  }

  /** Text splits at its first colon in one way. */
  lemma SplitsAtColon(left: string, x: string, right: string, y: string)
    requires NoColon(left) && NoColon(right) && left + ":" + x == right + ":" + y
    ensures left == right && x == y
  {
    ColonEnds(left, x, right, y);
    ColonEnds(right, y, left, x);
    assert left == (left + ":" + x)[..|left|] && right == (right + ":" + y)[..|right|];
    assert x == (left + ":" + x)[|left| + 1..] && y == (right + ":" + y)[|right| + 1..];
  }

  lemma ScopesHaveNoColon(key: EntityKey)
    ensures NoColon(Scope(key))
  {
  }

  lemma CollectionsTellApart(slideId: Id, containerId: Option<Id>, otherSlideId: Id, otherContainerId: Option<Id>)
    requires KeyIds(ElementCollection(slideId, containerId))
    requires KeyIds(ElementCollection(otherSlideId, otherContainerId))
    requires CollectionText(slideId, containerId) == CollectionText(otherSlideId, otherContainerId)
    ensures slideId == otherSlideId && containerId == otherContainerId
  {
    SplitsAtColon(
      slideId, if containerId.Some? then containerId.value else "root",
      otherSlideId, if otherContainerId.Some? then otherContainerId.value else "root");
    assert "root"[0] == 'r' && 'r' in "root" && !UuidText("root");
  }

  lemma ScopeTellsKind(left: EntityKey, right: EntityKey)
    requires Scope(left) == Scope(right)
    ensures left.SlideEntity? <==> right.SlideEntity?
    ensures left.ElementEntity? <==> right.ElementEntity?
    ensures left.ThemeEntity? <==> right.ThemeEntity?
    ensures left.MasterEntity? <==> right.MasterEntity?
    ensures left.LayoutEntity? <==> right.LayoutEntity?
    ensures left.AssetEntity? <==> right.AssetEntity?
    ensures left.ElementCollection? <==> right.ElementCollection?
    ensures Scope(left) == "references" <==>
      right.ThemeReferences? || right.MasterReferences? || right.LayoutReferences? || right.AssetReferences?
  {
  }

  /** Keys that name UUIDs are told apart by their text: no element passes for the root of a slide. */
  lemma KeyTextsTellApart(left: EntityKey, right: EntityKey)
    requires KeyIds(left) && KeyIds(right) && KeyText(left) == KeyText(right)
    ensures left == right
  {
    ScopesHaveNoColon(left);
    ScopesHaveNoColon(right);
    SplitsAtColon(Scope(left), Subject(left), Scope(right), Subject(right));
    ScopeTellsKind(left, right);
    if left.ElementCollection? {
      CollectionsTellApart(left.ownerSlideId, left.containerId, right.ownerSlideId, right.containerId);
    }
  }
}
