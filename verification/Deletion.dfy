/** Deleting elements, and what it does to the connectors that were bound to them. */
module Deletion {
  import opened Wrappers
  import opened DeckModel
  import opened Commands
  import opened ConnectorGeometry

  // ----- The command -----

  function Selected(elements: seq<Element>, ids: set<Id>): seq<Element> {
    if elements == [] then []
    else
      var rest := Selected(elements[1..], ids);
      if elements[0].Id() in ids then [elements[0]] + rest else rest
  }

  function IdSet(elements: seq<Element>): set<Id>
    decreases elements, 0
  {
    if elements == [] then {} else IdSetOf(elements[0]) + IdSet(elements[1..])
  }

  function IdSetOf(element: Element): set<Id>
    decreases element, 1
  {
    {element.Id()} + (if element.Group? then IdSet(element.children) else {})
  }

  /** The direct children that stay. */
  function Without(elements: seq<Element>, deleted: set<Id>): seq<Element> {
    if elements == [] then []
    else
      var rest := Without(elements[1..], deleted);
      if elements[0].Id() in deleted then rest else [elements[0]] + rest
  }

  predicate AnyLocked(elements: seq<Element>) {
    exists element | element in elements :: element.base.locked
  }

  /** The forest that is left, the identifiers removed so far, and whether the container was met. */
  datatype Removal = Removal(found: bool, elements: seq<Element>, deleted: set<Id>)

  function RemoveHere(elements: seq<Element>, ids: set<Id>, deleted: set<Id>): Result<Removal, CommandError> {
    var selected := Selected(elements, ids);
    if |selected| != |ids| then Err(NotFound)
    else if AnyLocked(selected) then Err(Locked)
    else
      var removed := deleted + IdSet(selected);
      Ok(Removal(true, Without(elements, removed), removed))
  }

  function RemoveInElement(element: Element, containerId: Id, ids: set<Id>, deleted: set<Id>)
    : Result<(bool, Element, set<Id>), CommandError>
    decreases element, 1
  {
    if !element.Group? then Ok((false, element, deleted))
    else if element.Id() == containerId then
      if element.base.locked then Err(Locked)
      else
        var removal := RemoveHere(element.children, ids, deleted);
        if removal.Err? then Err(removal.error)
        else Ok((true, element.(children := removal.value.elements), removal.value.deleted))
    else
      var removal := RemoveIn(element.children, containerId, ids, deleted);
      if removal.Err? then Err(removal.error)
      else Ok((removal.value.found, element.(children := removal.value.elements), removal.value.deleted))
  }

  function RemoveIn(elements: seq<Element>, containerId: Id, ids: set<Id>, deleted: set<Id>)
    : Result<Removal, CommandError>
    decreases elements, 0
  {
    if elements == [] then Ok(Removal(false, [], deleted))
    else
      var head := RemoveInElement(elements[0], containerId, ids, deleted);
      if head.Err? then Err(head.error)
      else
        var rest := RemoveIn(elements[1..], containerId, ids, head.value.2);
        if rest.Err? then Err(rest.error)
        else Ok(Removal(head.value.0 || rest.value.found, [head.value.1] + rest.value.elements, rest.value.deleted))
  }

  function RemoveSelection(elements: seq<Element>, containerId: Option<Id>, ids: set<Id>): Result<Removal, CommandError> {
    if containerId.None? then RemoveHere(elements, ids, {})
    else
      var removal := RemoveIn(elements, containerId.value, ids, {});
      if removal.Err? then removal else if !removal.value.found then Err(NotFound) else removal
  }

  predicate BoundTo(endpoint: Endpoint, deleted: set<Id>) {
    endpoint.binding.elementId.Some? && endpoint.binding.elementId.value in deleted
  }

  function ReleasedEndpoint(endpoint: Endpoint, deleted: set<Id>, effective: Option<Point>): Endpoint {
    if BoundTo(endpoint, deleted)
    then Endpoint(if effective.Some? then effective.value else endpoint.point, Binding(None, None))
    else endpoint
  }

  function ReleasedConnector(connector: Element, deleted: set<Id>, geometries: Index<Geometry>): Element
    requires connector.Connector?
  {
    var geometry := Lookup(geometries, connector.Id());
    var start := if geometry.Some? then Some(geometry.value.startInContainer) else None;
    var end := if geometry.Some? then Some(geometry.value.endInContainer) else None;
    connector.(
      stamped := true, start := ReleasedEndpoint(connector.start, deleted, start),
      end := ReleasedEndpoint(connector.end, deleted, end))
  }

  function Released(elements: seq<Element>, deleted: set<Id>, geometries: Index<Geometry>): seq<Element>
    decreases elements, 0
  {
    if elements == [] then []
    else [ReleasedElement(elements[0], deleted, geometries)] + Released(elements[1..], deleted, geometries)
  }

  function ReleasedElement(element: Element, deleted: set<Id>, geometries: Index<Geometry>): Element
    decreases element, 1
  {
    if element.Group? then element.(children := Released(element.children, deleted, geometries))
    else if element.Connector? then ReleasedConnector(element, deleted, geometries)
    else element
  }

  /** `element.delete` on the elements of a slide: what is left, and which identifiers went. */
  function DeleteSelection(elements: seq<Element>, containerId: Option<Id>, ids: set<Id>)
    : Result<(seq<Element>, set<Id>), CommandError>
  {
    var geometries := ResolveConnectorGeometries(elements);
    var removal := RemoveSelection(elements, containerId, ids);
    if removal.Err? then Err(removal.error)
    else Ok((Released(removal.value.elements, removal.value.deleted, geometries), removal.value.deleted))
  }

  // ----- Pruning: the plain meaning of a removal -----

  function Pruned(elements: seq<Element>, deleted: set<Id>): seq<Element>
    decreases elements
  {
    if elements == [] then []
    else
      var rest := Pruned(elements[1..], deleted);
      if elements[0].Id() in deleted then rest
      else if elements[0].Group? then
        [elements[0].(children := Pruned(elements[0].children, deleted))] + rest
      else [elements[0]] + rest
  }

  /** Whole subtrees: with an element, everything inside it is deleted too. */
  ghost predicate Whole(elements: seq<Element>, deleted: set<Id>)
    decreases elements
  {
    elements == [] ||
      (&& (elements[0].Id() in deleted ==> IdSetOf(elements[0]) <= deleted)
       && (elements[0].Group? ==> Whole(elements[0].children, deleted))
       && Whole(elements[1..], deleted))
  }

  ghost predicate Unique(elements: seq<Element>)
    decreases elements
  {
    elements == [] ||
      (&& IdSetOf(elements[0]) !! IdSet(elements[1..])
       && (elements[0].Group? ==> elements[0].Id() !in IdSet(elements[0].children) && Unique(elements[0].children))
       && Unique(elements[1..]))
  }

  lemma {:induction false} PruningNothing(elements: seq<Element>, deleted: set<Id>)
    requires IdSet(elements) !! deleted
    ensures Pruned(elements, deleted) == elements && Whole(elements, deleted)
    decreases elements
  {
    if elements != [] {
      if elements[0].Group? {
        PruningNothing(elements[0].children, deleted);
      }
      PruningNothing(elements[1..], deleted);
    }
  }

  lemma {:induction false} AllInsideIsWhole(elements: seq<Element>, deleted: set<Id>)
    requires IdSet(elements) <= deleted
    ensures Whole(elements, deleted)
    decreases elements
  {
    if elements != [] {
      if elements[0].Group? {
        AllInsideIsWhole(elements[0].children, deleted);
      }
      AllInsideIsWhole(elements[1..], deleted);
    }
  }

  /** Each tree of the list is removed as a whole or not touched at all. */
  ghost predicate AllOrNothing(elements: seq<Element>, deleted: set<Id>) {
    elements == [] ||
      (&& (IdSetOf(elements[0]) <= deleted || IdSetOf(elements[0]) !! deleted)
       && AllOrNothing(elements[1..], deleted))
  }

  lemma {:induction false} WithoutIsPruned(elements: seq<Element>, deleted: set<Id>)
    requires AllOrNothing(elements, deleted)
    ensures Without(elements, deleted) == Pruned(elements, deleted) && Whole(elements, deleted)
    decreases |elements|
  {
    if elements != [] {
      WithoutIsPruned(elements[1..], deleted);
      if elements[0].Group? {
        if elements[0].Id() in deleted {
          AllInsideIsWhole(elements[0].children, deleted);
        } else {
          PruningNothing(elements[0].children, deleted);
        }
      }
    }
  }

  lemma {:induction false} SelectionIsInside(elements: seq<Element>, ids: set<Id>)
    ensures IdSet(Selected(elements, ids)) <= IdSet(elements)
    decreases |elements|
  {
    if elements != [] {
      SelectionIsInside(elements[1..], ids);
      if elements[0].Id() in ids {
        assert ([elements[0]] + Selected(elements[1..], ids))[1..] == Selected(elements[1..], ids);
      }
    }
  }

  lemma {:induction false} SelectionIsAllOrNothing(elements: seq<Element>, ids: set<Id>, deleted: set<Id>)
    requires Unique(elements) && deleted * IdSet(elements) == IdSet(Selected(elements, ids))
    ensures AllOrNothing(elements, deleted)
    decreases |elements|
  {
    if elements != [] {
      var head, rest := elements[0], elements[1..];
      SelectionIsInside(rest, ids);
      if head.Id() in ids {
        assert Selected(elements, ids)[1..] == Selected(rest, ids);
        assert IdSet(Selected(elements, ids)) == IdSetOf(head) + IdSet(Selected(rest, ids));
      }
      assert deleted * IdSet(rest) == IdSet(Selected(rest, ids));
      SelectionIsAllOrNothing(rest, ids, deleted);
    }
  }

  /** What one removal step must give: pruning by some new identifiers of this forest. */
  ghost predicate Prunes(before: seq<Element>, after: seq<Element>, deleted: set<Id>, all: set<Id>) {
    && deleted <= all && all - deleted <= IdSet(before)
    && after == Pruned(before, all) && Whole(before, all)
  }

  lemma RemovalHerePrunes(elements: seq<Element>, ids: set<Id>, deleted: set<Id>)
    requires Unique(elements) && IdSet(elements) !! deleted && RemoveHere(elements, ids, deleted).Ok?
    ensures var removal := RemoveHere(elements, ids, deleted).value;
      Prunes(elements, removal.elements, deleted, removal.deleted)
  {
    var removed := deleted + IdSet(Selected(elements, ids));
    SelectionIsInside(elements, ids);
    assert removed * IdSet(elements) == IdSet(Selected(elements, ids));
    SelectionIsAllOrNothing(elements, ids, removed);
    WithoutIsPruned(elements, removed);
  }

  lemma {:induction false} PruningLooksInside(elements: seq<Element>, left: set<Id>, right: set<Id>)
    requires left * IdSet(elements) == right * IdSet(elements)
    ensures Pruned(elements, left) == Pruned(elements, right)
    ensures Whole(elements, left) <==> Whole(elements, right)
    decreases elements
  {
    if elements != [] {
      var head, rest := elements[0], elements[1..];
      SameInside(left, right, IdSetOf(head), IdSet(rest));
      SamePart(left, right, IdSetOf(head), head.Id());
      PruningLooksInside(rest, left, right);
      if head.Group? {
        SameInside(left, right, {head.Id()}, IdSet(head.children));
        PruningLooksInside(head.children, left, right);
      }
    }
  }

  lemma SameInside(left: set<Id>, right: set<Id>, first: set<Id>, second: set<Id>)
    requires left * (first + second) == right * (first + second)
    ensures left * first == right * first && left * second == right * second
  {
    forall id
      ensures id in left * first <==> id in right * first
      ensures id in left * second <==> id in right * second
    {
      assert id in left * (first + second) <==> id in right * (first + second);
    }
  }

  lemma SamePart(left: set<Id>, right: set<Id>, part: set<Id>, id: Id)
    requires left * part == right * part && id in part
    ensures id in left <==> id in right
    ensures part <= left <==> part <= right
  {
    assert id in left * part <==> id in right * part;
    forall other | other in part
      ensures other in left <==> other in right
    {
      assert other in left * part <==> other in right * part;
    }
  }

  /** The pruned form of a single tree that itself stays. */
  ghost predicate PrunesElement(before: Element, after: Element, deleted: set<Id>, all: set<Id>) {
    Prunes([before], [after], deleted, all)
  }

  lemma {:induction false} RemovalInElementPrunes(element: Element, containerId: Id, ids: set<Id>, deleted: set<Id>)
    requires Unique([element]) && IdSetOf(element) !! deleted
    requires RemoveInElement(element, containerId, ids, deleted).Ok?
    ensures var removal := RemoveInElement(element, containerId, ids, deleted).value;
      PrunesElement(element, removal.1, deleted, removal.2)
    decreases element, 1
  {
    if element.Group? {
      if element.Id() == containerId {
        RemovalHerePrunes(element.children, ids, deleted);
      } else {
        RemovalInPrunes(element.children, containerId, ids, deleted);
      }
    } else {
      PruningNothing([element], deleted);
    }
  }

  lemma PrunedCons(head: Element, rest: seq<Element>, deleted: set<Id>)
    ensures Pruned([head] + rest, deleted) == Pruned([head], deleted) + Pruned(rest, deleted)
    ensures Whole([head] + rest, deleted) <==> Whole([head], deleted) && Whole(rest, deleted)
    ensures IdSet([head] + rest) == IdSet([head]) + IdSet(rest) && IdSet([head]) == IdSetOf(head)
  {
    assert ([head] + rest)[1..] == rest && [head][1..] == [];
  }

  lemma PrunesCompose(
    head: Element, after: Element, rest: seq<Element>, left: seq<Element>,
    deleted: set<Id>, between: set<Id>, all: set<Id>)
    requires PrunesElement(head, after, deleted, between) && Prunes(rest, left, between, all)
    requires IdSetOf(head) !! IdSet(rest)
    ensures Prunes([head] + rest, [after] + left, deleted, all)
  {
    hide Pruned, Whole, IdSet, IdSetOf;
    PrunedCons(head, rest, all);
    PruningLooksInside([head], between, all);
  }

  lemma {:induction false} RemovalInPrunes(elements: seq<Element>, containerId: Id, ids: set<Id>, deleted: set<Id>)
    requires Unique(elements) && IdSet(elements) !! deleted && RemoveIn(elements, containerId, ids, deleted).Ok?
    ensures var removal := RemoveIn(elements, containerId, ids, deleted).value;
      Prunes(elements, removal.elements, deleted, removal.deleted)
    decreases elements, 0
  {
    if elements == [] {
    } else {
      var head, rest := elements[0], elements[1..];
      assert elements == [head] + rest;
      assert [head][1..] == [];
      RemovalInElementPrunes(head, containerId, ids, deleted);
      var first := RemoveInElement(head, containerId, ids, deleted).value;
      assert IdSet([head]) == IdSetOf(head);
      RemovalInPrunes(rest, containerId, ids, first.2);
      var second := RemoveIn(rest, containerId, ids, first.2).value;
      PrunesCompose(head, first.1, rest, second.elements, deleted, first.2, second.deleted);
    }
  }

  /** Removing a selection from one container is pruning: exactly the deleted identifiers are gone. */
  lemma RemovalPrunes(elements: seq<Element>, containerId: Option<Id>, ids: set<Id>)
    requires Unique(elements) && RemoveSelection(elements, containerId, ids).Ok?
    ensures var removal := RemoveSelection(elements, containerId, ids).value;
      Prunes(elements, removal.elements, {}, removal.deleted)
  {
    if containerId.None? {
      RemovalHerePrunes(elements, ids, {});
    } else {
      RemovalInPrunes(elements, containerId.value, ids, {});
    }
  }

  // ----- Indexes without the deleted keys -----

  function Excluding<T>(index: Index<T>, deleted: set<Id>): Index<T> {
    if index == [] then []
    else
      var before := Excluding(index[..|index| - 1], deleted);
      if index[|index| - 1].0 in deleted then before else before + [index[|index| - 1]]
  }

  lemma {:induction false} ExcludingConcat<T>(left: Index<T>, right: Index<T>, deleted: set<Id>)
    ensures Excluding(left + right, deleted) == Excluding(left, deleted) + Excluding(right, deleted)
    decreases |right|
  {
    if right == [] {
      assert left + right == left;
    } else {
      var whole := left + right;
      assert whole[..|whole| - 1] == left + right[..|right| - 1];
      ExcludingConcat(left, right[..|right| - 1], deleted);
    }
  }

  lemma {:induction false} LookupExcluding<T>(index: Index<T>, deleted: set<Id>, id: Id)
    ensures Lookup(Excluding(index, deleted), id) == if id in deleted then None else Lookup(index, id)
    decreases |index|
  {
    if index != [] {
      var before := index[..|index| - 1];
      LookupExcluding(before, deleted, id);
      if index[|index| - 1].0 !in deleted {
        var kept := Excluding(before, deleted) + [index[|index| - 1]];
        assert kept[..|kept| - 1] == Excluding(before, deleted);
      }
    }
  }

  lemma {:induction false} ExcludingAll<T>(index: Index<T>, deleted: set<Id>)
    requires forall entry | entry in index :: entry.0 in deleted
    ensures Excluding(index, deleted) == []
    decreases |index|
  {
    if index != [] {
      assert index[|index| - 1] in index;
      forall entry | entry in index[..|index| - 1]
        ensures entry.0 in deleted
      {
        assert entry in index;
      }
      ExcludingAll(index[..|index| - 1], deleted);
    }
  }

  lemma {:induction false} ExcludedIsSmaller<T>(index: Index<T>, deleted: set<Id>)
    ensures forall entry | entry in Excluding(index, deleted) :: entry in index && entry.0 !in deleted
    decreases |index|
  {
    if index != [] {
      ExcludedIsSmaller(index[..|index| - 1], deleted);
      assert index == index[..|index| - 1] + [index[|index| - 1]];
    }
  }

  lemma ExcludingOne<T>(entry: (Id, T), deleted: set<Id>)
    ensures Excluding([entry], deleted) == if entry.0 in deleted then [] else [entry]
  {
    assert [entry][..0] == [];
  }

  lemma {:induction false} AnchorKeys(elements: seq<Element>, t: Transform)
    ensures forall entry | entry in AnchorIndex(elements, t) :: entry.0 in IdSet(elements)
    decreases elements
  {
    hide AnchorPointsFor, ChildTransform;
    if elements != [] {
      if elements[0].Group? {
        AnchorKeys(elements[0].children, ChildTransform(elements[0], t));
      }
      AnchorKeys(elements[1..], t);
    }
  }

  lemma {:induction false} GeometryKeys(elements: seq<Element>, anchors: Index<AnchorPoints>, t: Transform)
    ensures forall entry | entry in Geometries(elements, anchors, t) :: entry.0 in IdSet(elements)
    decreases elements
  {
    hide GeometryOf, ChildTransform;
    if elements != [] {
      if elements[0].Group? {
        GeometryKeys(elements[0].children, anchors, ChildTransform(elements[0], t));
      }
      GeometryKeys(elements[1..], anchors, t);
    }
  }

  lemma PrunedChildTransform(group: Element, children: seq<Element>, t: Transform)
    requires group.Group?
    ensures ChildTransform(group.(children := children), t) == ChildTransform(group, t)
  {
    hide Compose, FrameTransform, Scale;
  }

  lemma AnchorsIgnoreChildren(element: Element, other: Element, t: Transform)
    requires element.base == other.base
    ensures AnchorPointsFor(element, t) == AnchorPointsFor(other, t)
  {
    hide Compose, FrameTransform, Apply;
  }

  /** Pruning takes the deleted keys out of the anchor index and leaves all other anchors where they were. */
  lemma {:induction false} PrunedAnchors(elements: seq<Element>, deleted: set<Id>, t: Transform)
    requires Whole(elements, deleted)
    ensures AnchorIndex(Pruned(elements, deleted), t) == Excluding(AnchorIndex(elements, t), deleted)
    decreases elements
  {
    hide AnchorPointsFor, ChildTransform;
    if elements != [] {
      var head, rest := elements[0], elements[1..];
      var own := [(head.Id(), AnchorPointsFor(head, t))];
      var child := if head.Group? then ChildTransform(head, t) else t;
      var nested := if head.Group? then AnchorIndex(head.children, child) else [];
      PrunedAnchors(rest, deleted, t);
      ExcludingOne((head.Id(), AnchorPointsFor(head, t)), deleted);
      ExcludingConcat(own, nested, deleted);
      ExcludingConcat(own + nested, AnchorIndex(rest, t), deleted);
      if head.Id() in deleted {
        if head.Group? {
          AnchorKeys(head.children, child);
        }
        ExcludingAll(nested, deleted);
      } else {
        var kept := if head.Group? then head.(children := Pruned(head.children, deleted)) else head;
        assert Pruned(elements, deleted)[1..] == Pruned(rest, deleted);
        AnchorsIgnoreChildren(head, kept, t);
        if head.Group? {
          PrunedAnchors(head.children, deleted, child);
          PrunedChildTransform(head, Pruned(head.children, deleted), t);
        }
      }
    }
  }

  lemma {:induction false} PrunedGeometries(
    elements: seq<Element>, deleted: set<Id>, anchors: Index<AnchorPoints>, t: Transform)
    requires Whole(elements, deleted)
    ensures Geometries(Pruned(elements, deleted), anchors, t)
      == Excluding(Geometries(elements, anchors, t), deleted)
    decreases elements
  {
    hide GeometryOf, ChildTransform;
    if elements != [] {
      var head, rest := elements[0], elements[1..];
      var own := if head.Connector? then [(head.Id(), GeometryOf(head, anchors, t))] else [];
      var child := if head.Group? then ChildTransform(head, t) else t;
      var nested := if head.Group? then Geometries(head.children, anchors, child) else [];
      PrunedGeometries(rest, deleted, anchors, t);
      if head.Connector? {
        ExcludingOne((head.Id(), GeometryOf(head, anchors, t)), deleted);
      }
      ExcludingConcat(own, nested, deleted);
      ExcludingConcat(own + nested, Geometries(rest, anchors, t), deleted);
      if head.Id() in deleted {
        if head.Group? {
          GeometryKeys(head.children, anchors, child);
        }
        ExcludingAll(nested, deleted);
      } else {
        assert Pruned(elements, deleted)[1..] == Pruned(rest, deleted);
        if head.Group? {
          PrunedGeometries(head.children, deleted, anchors, child);
          PrunedChildTransform(head, Pruned(head.children, deleted), t);
        }
      }
    }
  }

  // ----- Releasing -----

  lemma {:induction false} ReleasedAnchors(
    elements: seq<Element>, deleted: set<Id>, geometries: Index<Geometry>, t: Transform)
    ensures AnchorIndex(Released(elements, deleted, geometries), t) == AnchorIndex(elements, t)
    decreases elements
  {
    hide AnchorPointsFor, ChildTransform;
    if elements != [] {
      var head := elements[0];
      var released := ReleasedElement(head, deleted, geometries);
      AnchorsIgnoreChildren(head, released, t);
      if head.Group? {
        ReleasedAnchors(head.children, deleted, geometries, ChildTransform(head, t));
        PrunedChildTransform(head, Released(head.children, deleted, geometries), t);
      }
      ReleasedAnchors(elements[1..], deleted, geometries, t);
      assert Released(elements, deleted, geometries)[1..] == Released(elements[1..], deleted, geometries);
    }
  }

  /** The index after the deletion: nothing for deleted identifiers, everything else as before. */
  ghost predicate ForgetsOnly(after: Index<AnchorPoints>, before: Index<AnchorPoints>, deleted: set<Id>) {
    forall id {:trigger Lookup(after, id)} ::
      Lookup(after, id) == if id in deleted then None else Lookup(before, id)
  }

  /** A released endpoint stands where the binding held it; every other endpoint resolves as before. */
  lemma ReleasedEndpointStays(
    before: Index<AnchorPoints>, after: Index<AnchorPoints>, inverse: Option<Transform>, endpoint: Endpoint,
    deleted: set<Id>)
    requires ForgetsOnly(after, before, deleted)
    ensures var point := ResolveEndpoint(before, inverse, endpoint);
      ResolveEndpoint(after, inverse, ReleasedEndpoint(endpoint, deleted, Some(point))) == point
  {
    hide NormalizedPoint, Apply, AnchorPoint;
    if BoundTo(endpoint, deleted) {
      ResolvedPointsAreNormal(before, inverse, endpoint);
    }
  }

  lemma ResolvedPointsAreNormal(anchors: Index<AnchorPoints>, inverse: Option<Transform>, endpoint: Endpoint)
    ensures NormalizedPoint(ResolveEndpoint(anchors, inverse, endpoint)) == ResolveEndpoint(anchors, inverse, endpoint)
  {
    hide NormalizedPoint, Apply, AnchorPoint, Lookup;
    NormalizationIsIdempotent(endpoint.point);
    var target :=
      if endpoint.binding.elementId.Some? then Lookup(anchors, endpoint.binding.elementId.value) else None;
    if target.Some? && inverse.Some? {
      NormalizationIsIdempotent(Apply(inverse.value, AnchorPoint(target.value, endpoint.binding.anchor)));
    }
  }

  lemma ReleasedConnectorStays(
    connector: Element, before: Index<AnchorPoints>, after: Index<AnchorPoints>, t: Transform, deleted: set<Id>,
    geometries: Index<Geometry>)
    requires connector.Connector? && ForgetsOnly(after, before, deleted)
    requires Lookup(geometries, connector.Id()) == Some(GeometryOf(connector, before, t))
    ensures GeometryOf(ReleasedConnector(connector, deleted, geometries), after, t) == GeometryOf(connector, before, t)
  {
    hide ResolveEndpoint, ForgetsOnly, Inverse, ReleasedEndpoint;
    ReleasedEndpointStays(before, after, Inverse(t), connector.start, deleted);
    ReleasedEndpointStays(before, after, Inverse(t), connector.end, deleted);
  }

  ghost predicate Holds(geometries: Index<Geometry>, part: Index<Geometry>) {
    forall entry | entry in part :: Lookup(geometries, entry.0) == Some(entry.1)
  }

  lemma HoldsParts(geometries: Index<Geometry>, left: Index<Geometry>, right: Index<Geometry>)
    requires Holds(geometries, left + right)
    ensures Holds(geometries, left) && Holds(geometries, right)
  {
    forall entry | entry in left
      ensures Lookup(geometries, entry.0) == Some(entry.1)
    {
      assert entry in left + right;
    }
    forall entry | entry in right
      ensures Lookup(geometries, entry.0) == Some(entry.1)
    {
      assert entry in left + right;
    }
  }

  lemma {:induction false} ReleasedGeometries(
    elements: seq<Element>, before: Index<AnchorPoints>, after: Index<AnchorPoints>, t: Transform, deleted: set<Id>,
    geometries: Index<Geometry>)
    requires ForgetsOnly(after, before, deleted) && Holds(geometries, Geometries(elements, before, t))
    ensures Geometries(Released(elements, deleted, geometries), after, t) == Geometries(elements, before, t)
    decreases elements
  {
    hide GeometryOf, ChildTransform, ForgetsOnly, Holds, ReleasedConnector;
    if elements != [] {
      var head, rest := elements[0], elements[1..];
      var own := if head.Connector? then [(head.Id(), GeometryOf(head, before, t))] else [];
      var nested := if head.Group? then Geometries(head.children, before, ChildTransform(head, t)) else [];
      HoldsParts(geometries, own + nested, Geometries(rest, before, t));
      HoldsParts(geometries, own, nested);
      ReleasedGeometries(rest, before, after, t, deleted, geometries);
      assert Released(elements, deleted, geometries)[1..] == Released(rest, deleted, geometries);
      if head.Connector? {
        HoldsOne(geometries, head.Id(), GeometryOf(head, before, t));
        ReleasedConnectorStays(head, before, after, t, deleted, geometries);
        ReleasedKeepsKind(head, deleted, geometries);
      }
      if head.Group? {
        ReleasedGeometries(head.children, before, after, ChildTransform(head, t), deleted, geometries);
        PrunedChildTransform(head, Released(head.children, deleted, geometries), t);
      }
    }
  }

  lemma HoldsOne(geometries: Index<Geometry>, id: Id, geometry: Geometry)
    requires Holds(geometries, [(id, geometry)])
    ensures Lookup(geometries, id) == Some(geometry)
  {
    assert (id, geometry) in [(id, geometry)];
  }

  lemma ReleasedKeepsKind(connector: Element, deleted: set<Id>, geometries: Index<Geometry>)
    requires connector.Connector?
    ensures ReleasedConnector(connector, deleted, geometries).Connector?
    ensures ReleasedConnector(connector, deleted, geometries).Id() == connector.Id()
  {
  }

  // ----- Unique identifiers make every entry its own -----

  ghost predicate OwnKeys<T>(index: Index<T>) {
    forall i, j | 0 <= i < j < |index| :: index[i].0 != index[j].0
  }

  lemma {:induction false} OwnKeysAreFound<T>(index: Index<T>)
    requires OwnKeys(index)
    ensures forall entry | entry in index :: Lookup(index, entry.0) == Some(entry.1)
    decreases |index|
  {
    if index != [] {
      var before, last := index[..|index| - 1], index[|index| - 1];
      OwnKeysAreFound(before);
      forall entry | entry in index
        ensures Lookup(index, entry.0) == Some(entry.1)
      {
        if entry != last {
          var i :| 0 <= i < |index| && index[i] == entry;
          assert before[i] == entry && entry in before;
        }
      }
    }
  }

  lemma OwnKeysConcat<T>(left: Index<T>, right: Index<T>, first: set<Id>, second: set<Id>)
    requires OwnKeys(left) && OwnKeys(right) && first !! second
    requires (forall entry | entry in left :: entry.0 in first) && (forall entry | entry in right :: entry.0 in second)
    ensures OwnKeys(left + right)
    ensures forall entry | entry in left + right :: entry.0 in first + second
  {
    var whole := left + right;
    forall i, j | 0 <= i < j < |whole|
      ensures whole[i].0 != whole[j].0
    {
      if i < |left| <= j {
        assert whole[i] in left && whole[j] == right[j - |left|] && whole[j] in right;
      }
    }
  }

  lemma {:induction false} UniqueGeometries(elements: seq<Element>, anchors: Index<AnchorPoints>, t: Transform)
    requires Unique(elements)
    ensures OwnKeys(Geometries(elements, anchors, t))
    decreases elements
  {
    hide GeometryOf, ChildTransform, OwnKeys;
    if elements == [] {
      NoKeys<Geometry>();
    } else {
      var head, rest := elements[0], elements[1..];
      var own := if head.Connector? then [(head.Id(), GeometryOf(head, anchors, t))] else [];
      var nested := if head.Group? then Geometries(head.children, anchors, ChildTransform(head, t)) else [];
      OneKey(own);
      NoKeys<Geometry>();
      if head.Group? {
        UniqueGeometries(head.children, anchors, ChildTransform(head, t));
        GeometryKeys(head.children, anchors, ChildTransform(head, t));
      }
      OwnKeysConcat(own, nested, {head.Id()}, if head.Group? then IdSet(head.children) else {});
      UniqueGeometries(rest, anchors, t);
      GeometryKeys(rest, anchors, t);
      OwnKeysConcat(own + nested, Geometries(rest, anchors, t), IdSetOf(head), IdSet(rest));
    }
  }

  lemma NoKeys<T>()
    ensures OwnKeys<T>([])
  {
  }

  lemma OneKey<T>(index: Index<T>)
    requires |index| <= 1
    ensures OwnKeys(index)
  {
  }

  // ----- The theorem -----

  /** No binding of a surviving connector names a deleted element. */
  predicate NoneBoundTo(elements: seq<Element>, deleted: set<Id>)
    decreases elements
  {
    elements == [] ||
      (&& (elements[0].Connector? ==> !BoundTo(elements[0].start, deleted) && !BoundTo(elements[0].end, deleted))
       && (elements[0].Group? ==> NoneBoundTo(elements[0].children, deleted))
       && NoneBoundTo(elements[1..], deleted))
  }

  lemma {:induction false} ReleasedNoneBound(elements: seq<Element>, deleted: set<Id>, geometries: Index<Geometry>)
    ensures NoneBoundTo(Released(elements, deleted, geometries), deleted)
    decreases elements
  {
    hide Lookup;
    if elements != [] {
      if elements[0].Group? {
        ReleasedNoneBound(elements[0].children, deleted, geometries);
      }
      ReleasedNoneBound(elements[1..], deleted, geometries);
      assert Released(elements, deleted, geometries)[1..] == Released(elements[1..], deleted, geometries);
    }
  }

  lemma ExcludedStillHolds(geometries: Index<Geometry>, deleted: set<Id>)
    requires OwnKeys(geometries)
    ensures Holds(geometries, Excluding(geometries, deleted))
  {
    OwnKeysAreFound(geometries);
    ExcludedIsSmaller(geometries, deleted);
  }

  lemma ExcludingForgetsOnly(anchors: Index<AnchorPoints>, deleted: set<Id>)
    ensures ForgetsOnly(Excluding(anchors, deleted), anchors, deleted)
  {
    forall id
      ensures Lookup(Excluding(anchors, deleted), id) == if id in deleted then None else Lookup(anchors, id)
    {
      LookupExcluding(anchors, deleted, id);
    }
  }

  // ----- What is deleted -----

  /** The elements of a container: the slide's own, or the children of the group of that identifier. */
  function ContainerOf(elements: seq<Element>, containerId: Option<Id>): Option<seq<Element>> {
    if containerId.None? then Some(elements)
    else
      var found := FindElement(elements, containerId.value);
      if found.Some? && found.value.Group? then Some(found.value.children) else None
  }

  lemma {:induction false} AbsentIsNotFound(elements: seq<Element>, id: Id)
    requires id !in IdSet(elements)
    ensures FindElement(elements, id).None?
    decreases elements
  {
    if elements != [] {
      if elements[0].Group? {
        AbsentIsNotFound(elements[0].children, id);
      }
      AbsentIsNotFound(elements[1..], id);
    }
  }

  lemma {:induction false} AbsentContainerIsNotMet(
    elements: seq<Element>, containerId: Id, ids: set<Id>, deleted: set<Id>)
    requires containerId !in IdSet(elements) && RemoveIn(elements, containerId, ids, deleted).Ok?
    ensures !RemoveIn(elements, containerId, ids, deleted).value.found
    ensures RemoveIn(elements, containerId, ids, deleted).value.deleted == deleted
    decreases elements
  {
    if elements != [] {
      if elements[0].Group? {
        AbsentContainerIsNotMet(elements[0].children, containerId, ids, deleted);
      }
      AbsentContainerIsNotMet(elements[1..], containerId, ids, deleted);
    }
  }

  /** In a forest with unique identifiers the container is met once, and its selection is what goes. */
  lemma {:induction false} MetContainerIsEmptied(elements: seq<Element>, containerId: Id, ids: set<Id>, deleted: set<Id>)
    requires Unique(elements) && RemoveIn(elements, containerId, ids, deleted).Ok?
    ensures var removal := RemoveIn(elements, containerId, ids, deleted).value;
      if removal.found then
        var container := ContainerOf(elements, Some(containerId));
        && container.Some? && |Selected(container.value, ids)| == |ids| && Unique(container.value)
        && removal.deleted == deleted + IdSet(Selected(container.value, ids))
      else removal.deleted == deleted
    decreases elements
  {
    hide RemoveHere, Selected;
    if elements != [] {
      var head, rest := elements[0], elements[1..];
      var first := RemoveInElement(head, containerId, ids, deleted).value;
      if head.Id() == containerId {
        RemovedHere(head, ids, deleted);
        AbsentContainerIsNotMet(rest, containerId, ids, first.2);
      } else if head.Group? {
        MetContainerIsEmptied(head.children, containerId, ids, deleted);
        if containerId in IdSet(head.children) {
          AbsentContainerIsNotMet(rest, containerId, ids, first.2);
        } else {
          AbsentContainerIsNotMet(head.children, containerId, ids, deleted);
          AbsentIsNotFound(head.children, containerId);
          MetContainerIsEmptied(rest, containerId, ids, first.2);
        }
      } else {
        MetContainerIsEmptied(rest, containerId, ids, first.2);
      }
    }
  }

  lemma RemovedHere(element: Element, ids: set<Id>, deleted: set<Id>)
    requires RemoveInElement(element, element.Id(), ids, deleted).Ok?
    ensures var removal := RemoveInElement(element, element.Id(), ids, deleted).value;
      if element.Group? then
        removal.0 && |Selected(element.children, ids)| == |ids| &&
        removal.2 == deleted + IdSet(Selected(element.children, ids))
      else !removal.0 && removal.2 == deleted
  {
  }

  function OwnIds(elements: seq<Element>): set<Id> {
    if elements == [] then {} else {elements[0].Id()} + OwnIds(elements[1..])
  }

  lemma {:induction false} OwnIdsAreInside(elements: seq<Element>)
    ensures OwnIds(elements) <= IdSet(elements)
  {
    if elements != [] {
      OwnIdsAreInside(elements[1..]);
    }
  }

  lemma {:induction false} SelectionIsNamed(elements: seq<Element>, ids: set<Id>)
    requires Unique(elements)
    ensures OwnIds(Selected(elements, ids)) <= ids && |OwnIds(Selected(elements, ids))| == |Selected(elements, ids)|
    decreases |elements|
  {
    hide OwnIds;
    if elements != [] {
      var rest := Selected(elements[1..], ids);
      SelectionIsNamed(elements[1..], ids);
      if elements[0].Id() in ids {
        OwnIdsAreInside(rest);
        SelectionIsInside(elements[1..], ids);
        OneMoreId(elements[0], rest);
      }
    } else {
      NoIds();
    }
  }

  lemma NoIds()
    ensures OwnIds([]) == {}
  {
  }

  lemma OneMoreId(element: Element, elements: seq<Element>)
    requires element.Id() !in OwnIds(elements)
    ensures OwnIds([element] + elements) == {element.Id()} + OwnIds(elements)
    ensures |OwnIds([element] + elements)| == |OwnIds(elements)| + 1
  {
    assert ([element] + elements)[1..] == elements;
  }

  lemma FullSubset<T>(part: set<T>, whole: set<T>)
    requires part <= whole && |part| == |whole|
    ensures part == whole
  {
    assert |whole - part| == |whole| - |part|;
  }

  /** Exactly the selected elements of the container go, with everything inside them. */
  lemma RemovalTakesSelection(elements: seq<Element>, containerId: Option<Id>, ids: set<Id>)
    requires Unique(elements) && RemoveSelection(elements, containerId, ids).Ok?
    ensures var container := ContainerOf(elements, containerId);
      && container.Some?
      && RemoveSelection(elements, containerId, ids).value.deleted == IdSet(Selected(container.value, ids))
      && OwnIds(Selected(container.value, ids)) == ids <= IdSet(Selected(container.value, ids))
  {
    if containerId.Some? {
      MetContainerIsEmptied(elements, containerId.value, ids, {});
    }
    var container := ContainerOf(elements, containerId).value;
    SelectionIsNamed(container, ids);
    FullSubset(OwnIds(Selected(container, ids)), ids);
    OwnIdsAreInside(Selected(container, ids));
  }

  /**
   Deleting any selection from a slide with unique identifiers, at any nesting: exactly the subtrees of the
   selected elements of the container are gone, no surviving binding names one of them, and the resolved
   geometry of every surviving connector, in its container and in the document, is what it was.
   */
  lemma DeletionKeepsConnectors(elements: seq<Element>, containerId: Option<Id>, ids: set<Id>)
    requires Unique(elements) && DeleteSelection(elements, containerId, ids).Ok?
    ensures var (after, deleted) := DeleteSelection(elements, containerId, ids).value;
      && ContainerOf(elements, containerId).Some? && ids <= deleted
      && deleted == IdSet(Selected(ContainerOf(elements, containerId).value, ids))
      && after == Released(Pruned(elements, deleted), deleted, ResolveConnectorGeometries(elements))
      && NoneBoundTo(after, deleted)
      && ResolveConnectorGeometries(after) == Excluding(ResolveConnectorGeometries(elements), deleted)
  {
    hide AnchorIndex, Geometries, Released, Pruned, Excluding, Holds, OwnKeys, ForgetsOnly, NoneBoundTo, Unique;
    hide RemoveSelection, Selected, IdSet;
    RemovalPrunes(elements, containerId, ids);
    RemovalTakesSelection(elements, containerId, ids);
    var removal := RemoveSelection(elements, containerId, ids).value;
    var deleted, pruned := removal.deleted, removal.elements;
    var before := AnchorIndex(elements, IDENTITY);
    var geometries := ResolveConnectorGeometries(elements);
    PrunedAnchors(elements, deleted, IDENTITY);
    PrunedGeometries(elements, deleted, before, IDENTITY);
    UniqueGeometries(elements, before, IDENTITY);
    ExcludedStillHolds(geometries, deleted);
    ExcludingForgetsOnly(before, deleted);
    ReleasedAnchors(pruned, deleted, geometries, IDENTITY);
    ReleasedGeometries(pruned, before, Excluding(before, deleted), IDENTITY, deleted, geometries);
    ReleasedNoneBound(pruned, deleted, geometries);
  }
}
