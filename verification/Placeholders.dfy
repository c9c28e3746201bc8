/** Placeholder bindings of a slide, and what happens to them when its layout or master changes. */
module Placeholders {
  import opened Wrappers
  import opened DeckModel

  /** What an element can be bound to, in the order the slide offers it. */
  datatype Slot = Slot(id: Id, role: PlaceholderRole, accepts: seq<ElementKind>)

  function Find(slots: seq<Slot>, id: Id): (slot: Option<Slot>)
    ensures slot.Some? ==> slot.value in slots && slot.value.id == id
    ensures slot.None? ==> forall other | other in slots :: other.id != id
  {
    if slots == [] then None
    else
      assert slots == [slots[0]] + slots[1..];
      if slots[0].id == id then Some(slots[0]) else Find(slots[1..], id)
  }

  /** An identifier that comes again keeps its place and takes the later placeholder. */
  function Put(slots: seq<Slot>, slot: Slot): seq<Slot> {
    if slots == [] then [slot]
    else if slots[0].id == slot.id then [slot] + slots[1..]
    else [slots[0]] + Put(slots[1..], slot)
  }

  function Collect(elements: seq<Element>, slots: seq<Slot>): seq<Slot>
    decreases elements
  {
    if elements == [] then slots
    else
      var head := elements[0];
      var own := if head.Placeholder? then Put(slots, Slot(head.Id(), head.role, head.accepts)) else slots;
      var nested := if head.Group? then Collect(head.children, own) else own;
      Collect(elements[1..], nested)
  }

  /** The placeholders of a slide with this layout: the master's, then the layout's. */
  function SlotsFor(document: DeckDocument, layoutId: Id): seq<Slot> {
    var layout := FindLayout(document.layouts, layoutId);
    if layout.None? then []
    else
      var master := FindMaster(document.masters, layout.value.masterId);
      var inherited := if master.Some? then Collect(master.value.elements, []) else [];
      Collect(layout.value.elements, inherited)
  }

  predicate Unambiguous(slots: seq<Slot>) {
    forall i, j | 0 <= i < j < |slots| :: slots[i].id != slots[j].id
  }

  lemma {:induction false} PutKeepsUnambiguous(slots: seq<Slot>, slot: Slot)
    requires Unambiguous(slots)
    ensures Unambiguous(Put(slots, slot))
    ensures forall other | other in Put(slots, slot) :: other == slot || other in slots
  {
    if slots != [] && slots[0].id != slot.id {
      PutKeepsUnambiguous(slots[1..], slot);
      var rest := Put(slots[1..], slot);
      forall j | 0 <= j < |rest|
        ensures rest[j].id != slots[0].id
      {
        assert rest[j] in rest;
        if rest[j] != slot {
          var k :| 0 <= k < |slots[1..]| && slots[1..][k] == rest[j];
          assert slots[k + 1] == rest[j];
        }
      }
    }
  }

  lemma {:induction false} CollectKeepsUnambiguous(elements: seq<Element>, slots: seq<Slot>)
    requires Unambiguous(slots)
    ensures Unambiguous(Collect(elements, slots))
    decreases elements
  {
    hide Put, Unambiguous;
    if elements != [] {
      var head := elements[0];
      var own := if head.Placeholder? then Put(slots, Slot(head.Id(), head.role, head.accepts)) else slots;
      if head.Placeholder? {
        PutKeepsUnambiguous(slots, Slot(head.Id(), head.role, head.accepts));
      }
      var nested := if head.Group? then Collect(head.children, own) else own;
      if head.Group? {
        CollectKeepsUnambiguous(head.children, own);
      }
      CollectKeepsUnambiguous(elements[1..], nested);
    }
  }

  predicate Accepts(slot: Slot, element: Element) {
    !element.Connector? && !element.Group? && !element.Placeholder? && element.Kind() in slot.accepts
  }

  predicate AcceptedBy(slots: seq<Slot>, id: Id, element: Element) {
    Find(slots, id).Some? && Accepts(Find(slots, id).value, element)
  }

  // ----- What the validator demands -----

  function OwnBinding(element: Element): seq<Id> {
    if element.base.placeholderBinding.Some? then [element.base.placeholderBinding.value.placeholderId] else []
  }

  /** The bound placeholder identifiers of a tree, in visiting order. */
  function Bound(elements: seq<Element>): seq<Id>
    decreases elements, 0
  {
    if elements == [] then [] else BoundIn(elements[0]) + Bound(elements[1..])
  }

  function BoundIn(element: Element): seq<Id>
    decreases element, 1
  {
    OwnBinding(element) + (if element.Group? then Bound(element.children) else [])
  }

  /** Every binding exists and accepts its element. */
  predicate AllAccepted(elements: seq<Element>, slots: seq<Slot>)
    decreases elements, 0
  {
    elements == [] || (AcceptedIn(elements[0], slots) && AllAccepted(elements[1..], slots))
  }

  predicate AcceptedIn(element: Element, slots: seq<Slot>)
    decreases element, 1
  {
    && (element.base.placeholderBinding.Some? ==>
         AcceptedBy(slots, element.base.placeholderBinding.value.placeholderId, element))
    && (element.Group? ==> AllAccepted(element.children, slots))
  }

  ghost predicate ValidBindings(elements: seq<Element>, slots: seq<Slot>) {
    AllAccepted(elements, slots) && Distinct(Bound(elements))
  }

  /** The validator's walk with its set of bound identifiers. */
  datatype Walk = Walk(clean: bool, bound: set<Id>)

  function Validate(elements: seq<Element>, slots: seq<Slot>, bound: set<Id>): Walk
    decreases elements, 0
  {
    if elements == [] then Walk(true, bound)
    else
      var head := ValidateElement(elements[0], slots, bound);
      var rest := Validate(elements[1..], slots, head.bound);
      Walk(head.clean && rest.clean, rest.bound)
  }

  function ValidateElement(element: Element, slots: seq<Slot>, bound: set<Id>): Walk
    decreases element, 1
  {
    var own :=
      if element.base.placeholderBinding.None? then Walk(true, bound)
      else
        var id := element.base.placeholderBinding.value.placeholderId;
        Walk(AcceptedBy(slots, id, element) && id !in bound, bound + {id});
    if element.Group? then
      var nested := Validate(element.children, slots, own.bound);
      Walk(own.clean && nested.clean, nested.bound)
    else own
  }

  ghost function Ids(bound: seq<Id>): set<Id> { set id | id in bound }

  lemma DistinctConcat(left: seq<Id>, right: seq<Id>)
    ensures Distinct(left + right) <==> Distinct(left) && Distinct(right) && Ids(left) !! Ids(right)
    ensures Ids(left + right) == Ids(left) + Ids(right)
  {
    var whole := left + right;
    if Distinct(whole) {
      DistinctParts(left, right);
    }
    if Distinct(left) && Distinct(right) && Ids(left) !! Ids(right) {
      forall i, j | 0 <= i < j < |whole|
        ensures whole[i] != whole[j]
      {
        if i < |left| <= j {
          assert whole[i] in Ids(left) && whole[j] == right[j - |left|] && whole[j] in Ids(right);
        }
      }
    }
  }

  lemma DistinctParts(left: seq<Id>, right: seq<Id>)
    requires Distinct(left + right)
    ensures Distinct(left) && Distinct(right) && Ids(left) !! Ids(right)
  {
    var whole := left + right;
    forall i, j | 0 <= i < j < |right|
      ensures right[i] != right[j]
    {
      assert whole[|left| + i] == right[i] && whole[|left| + j] == right[j];
    }
    forall i, j | 0 <= i < j < |left|
      ensures left[i] != left[j]
    {
      assert whole[i] == left[i] && whole[j] == left[j];
    }
    forall id | id in Ids(left)
      ensures id !in Ids(right)
    {
      var i :| 0 <= i < |left| && left[i] == id;
      forall j | 0 <= j < |right|
        ensures right[j] != id
      {
        assert whole[i] == id && whole[|left| + j] == right[j];
      }
    }
  }

  /** The walk over a piece of the tree: clean exactly when it is valid and new to what was bound before. */
  ghost predicate WalkIsExact(walk: Walk, ids: seq<Id>, accepted: bool, bound: set<Id>) {
    && walk.bound == bound + Ids(ids)
    && (walk.clean <==> accepted && Distinct(ids) && Ids(ids) !! bound)
  }

  lemma WalksCompose(first: Walk, second: Walk, left: seq<Id>, right: seq<Id>, a: bool, b: bool, bound: set<Id>)
    requires WalkIsExact(first, left, a, bound) && WalkIsExact(second, right, b, first.bound)
    ensures WalkIsExact(Walk(first.clean && second.clean, second.bound), left + right, a && b, bound)
  {
    hide Distinct;
    DistinctConcat(left, right);
  }

  lemma {:induction false} ValidationIsExact(elements: seq<Element>, slots: seq<Slot>, bound: set<Id>)
    ensures WalkIsExact(
      Validate(elements, slots, bound), Bound(elements), AllAccepted(elements, slots), bound)
    decreases elements, 0
  {
    hide WalkIsExact;
    if elements == [] {
      EmptyWalk(bound);
    } else {
      ElementValidationIsExact(elements[0], slots, bound);
      var head := ValidateElement(elements[0], slots, bound);
      ValidationIsExact(elements[1..], slots, head.bound);
      WalksCompose(
        head, Validate(elements[1..], slots, head.bound), BoundIn(elements[0]), Bound(elements[1..]),
        AcceptedIn(elements[0], slots), AllAccepted(elements[1..], slots), bound);
    }
  }

  lemma EmptyWalk(bound: set<Id>)
    ensures WalkIsExact(Walk(true, bound), [], true, bound)
  {
  }

  lemma OneBinding(id: Id, accepted: bool, bound: set<Id>)
    ensures WalkIsExact(Walk(accepted && id !in bound, bound + {id}), [id], accepted, bound)
  {
  }

  lemma {:induction false} ElementValidationIsExact(element: Element, slots: seq<Slot>, bound: set<Id>)
    ensures WalkIsExact(
      ValidateElement(element, slots, bound), BoundIn(element), AcceptedIn(element, slots), bound)
    decreases element, 1
  {
    hide WalkIsExact, AcceptedBy;
    var own :=
      if element.base.placeholderBinding.None? then Walk(true, bound)
      else
        var id := element.base.placeholderBinding.value.placeholderId;
        Walk(AcceptedBy(slots, id, element) && id !in bound, bound + {id});
    var accepted := element.base.placeholderBinding.Some? ==>
      AcceptedBy(slots, element.base.placeholderBinding.value.placeholderId, element);
    if element.base.placeholderBinding.None? {
      EmptyWalk(bound);
    } else {
      OneBinding(element.base.placeholderBinding.value.placeholderId, accepted, bound);
    }
    if element.Group? {
      ValidationIsExact(element.children, slots, own.bound);
      WalksCompose(
        own, Validate(element.children, slots, own.bound), OwnBinding(element), Bound(element.children),
        accepted, AllAccepted(element.children, slots), bound);
    } else {
      assert BoundIn(element) == OwnBinding(element);
    }
  }

  /** The validator raises no binding issue exactly when all bindings are accepted and pairwise distinct. */
  lemma ValidatorIsExact(elements: seq<Element>, slots: seq<Slot>)
    ensures Validate(elements, slots, {}).clean <==> ValidBindings(elements, slots)
  {
    ValidationIsExact(elements, slots, {});
  }

  // ----- Remapping -----

  function BindingId(element: Element): Id
    requires element.base.placeholderBinding.Some?
  {
    element.base.placeholderBinding.value.placeholderId
  }

  predicate Retained(element: Element, target: seq<Slot>) {
    element.base.placeholderBinding.Some? && AcceptedBy(target, BindingId(element), element)
  }

  /** The bindings that both layouts can serve, reserved before anything is remapped. */
  function Reserved(elements: seq<Element>, target: seq<Slot>): set<Id>
    decreases elements, 0
  {
    if elements == [] then {} else ReservedIn(elements[0], target) + Reserved(elements[1..], target)
  }

  function ReservedIn(element: Element, target: seq<Slot>): set<Id>
    decreases element, 1
  {
    if element.Group? then Reserved(element.children, target)
    else if Retained(element, target) then {BindingId(element)}
    else {}
  }

  /** The first free slot of the same role that takes the element. */
  function Replacement(target: seq<Slot>, role: PlaceholderRole, used: set<Id>, element: Element): (slot: Option<Slot>)
    ensures slot.Some? ==>
      slot.value in target && slot.value.role == role && slot.value.id !in used && Accepts(slot.value, element)
  {
    if target == [] then None
    else
      assert target == [target[0]] + target[1..];
      if target[0].role == role && target[0].id !in used && Accepts(target[0], element) then Some(target[0])
      else Replacement(target[1..], role, used, element)
  }

  function Rebound(element: Element, binding: Option<PlaceholderBinding>): Element {
    element.(base := element.base.(placeholderBinding := binding))
  }

  /** One element that is not a group. */
  function RemapLeaf(element: Element, source: seq<Slot>, target: seq<Slot>, used: set<Id>): (Element, set<Id>) {
    if element.base.placeholderBinding.None? || Retained(element, target) then (element, used)
    else
      var from := Find(source, BindingId(element));
      var to := if from.None? then None else Replacement(target, from.value.role, used, element);
      if to.None? then (Rebound(element, None), used)
      else
        var binding := element.base.placeholderBinding.value.(placeholderId := to.value.id);
        (Rebound(element, Some(binding)), used + {to.value.id})
  }

  function RemapElement(element: Element, source: seq<Slot>, target: seq<Slot>, used: set<Id>): (Element, set<Id>)
    decreases element, 1
  {
    if element.Group? then
      var children := RemapForest(element.children, source, target, used);
      (element.(children := children.0), children.1)
    else RemapLeaf(element, source, target, used)
  }

  function RemapForest(elements: seq<Element>, source: seq<Slot>, target: seq<Slot>, used: set<Id>)
    : (seq<Element>, set<Id>)
    decreases elements, 0
  {
    if elements == [] then ([], used)
    else
      var head := RemapElement(elements[0], source, target, used);
      var rest := RemapForest(elements[1..], source, target, head.1);
      ([head.0] + rest.0, rest.1)
  }

  /** `remapPlaceholderBindings`: the elements of the slide under another layout of the target document. */
  function RemapPlaceholderBindings(
    sourceDocument: DeckDocument, targetDocument: DeckDocument, slide: Slide, layoutId: Id): seq<Element>
  {
    var target := SlotsFor(targetDocument, layoutId);
    RemapForest(slide.elements, SlotsFor(sourceDocument, slide.layoutId), target, Reserved(slide.elements, target)).0
  }

  /** Groups carry no binding of their own. */
  predicate GroupsUnbound(elements: seq<Element>)
    decreases elements
  {
    elements == [] ||
      (&& (elements[0].Group? ==> elements[0].base.placeholderBinding.None? && GroupsUnbound(elements[0].children))
       && GroupsUnbound(elements[1..]))
  }

  lemma {:induction false} AcceptedGroupsAreUnbound(elements: seq<Element>, slots: seq<Slot>)
    requires AllAccepted(elements, slots)
    ensures GroupsUnbound(elements)
    decreases elements
  {
    if elements != [] {
      if elements[0].Group? {
        AcceptedGroupsAreUnbound(elements[0].children, slots);
      }
      AcceptedGroupsAreUnbound(elements[1..], slots);
    }
  }

  /** What remapping a piece of the tree may add: its reserved bindings, and slots nobody used before. */
  ghost predicate Remapped(ids: seq<Id>, reserved: set<Id>, used: set<Id>, after: set<Id>) {
    used <= after && Distinct(ids) && Ids(ids) <= reserved + (after - used)
  }

  lemma RemapsCompose(
    left: seq<Id>, right: seq<Id>, first: set<Id>, second: set<Id>, used: set<Id>, between: set<Id>, after: set<Id>)
    requires Remapped(left, first, used, between) && Remapped(right, second, between, after)
    requires first + second <= used && first !! second
    ensures Remapped(left + right, first + second, used, after)
  {
    hide Distinct;
    DistinctConcat(left, right);
  }

  lemma {:induction false} ReservedAreBound(elements: seq<Element>, target: seq<Slot>)
    ensures Reserved(elements, target) <= Ids(Bound(elements))
    decreases elements, 0
  {
    if elements != [] {
      ReservedInAreBound(elements[0], target);
      ReservedAreBound(elements[1..], target);
      DistinctConcat(BoundIn(elements[0]), Bound(elements[1..]));
    }
  }

  lemma {:induction false} ReservedInAreBound(element: Element, target: seq<Slot>)
    ensures ReservedIn(element, target) <= Ids(BoundIn(element))
    decreases element, 1
  {
    if element.Group? {
      ReservedAreBound(element.children, target);
      DistinctConcat(OwnBinding(element), Bound(element.children));
    } else if Retained(element, target) {
      assert BoundIn(element) == [BindingId(element)];
      assert BindingId(element) in Ids([BindingId(element)]);
    }
  }

  lemma LeafRemaps(element: Element, source: seq<Slot>, target: seq<Slot>, used: set<Id>)
    requires !element.Group? && Unambiguous(target)
    requires ReservedIn(element, target) <= used
    ensures var remapped := RemapLeaf(element, source, target, used);
      && !remapped.0.Group?
      && AcceptedIn(remapped.0, target)
      && Remapped(BoundIn(remapped.0), ReservedIn(element, target), used, remapped.1)
  {
    if element.base.placeholderBinding.Some? && !Retained(element, target) {
      var from := Find(source, BindingId(element));
      if from.Some? {
        var to := Replacement(target, from.value.role, used, element);
        if to.Some? {
        }
      }
    }
  }

  lemma {:induction false} ForestRemaps(elements: seq<Element>, source: seq<Slot>, target: seq<Slot>, used: set<Id>)
    requires Unambiguous(target) && GroupsUnbound(elements) && Distinct(Bound(elements))
    requires Reserved(elements, target) <= used
    ensures var remapped := RemapForest(elements, source, target, used);
      && AllAccepted(remapped.0, target)
      && Remapped(Bound(remapped.0), Reserved(elements, target), used, remapped.1)
    decreases elements, 0
  {
    hide Remapped, Distinct, RemapLeaf, Retained, AcceptedBy, Unambiguous;
    if elements == [] {
      NothingRemapped(used);
    } else {
      var head, rest := elements[0], elements[1..];
      DistinctConcat(BoundIn(head), Bound(rest));
      ReservedAreBound(rest, target);
      ReservedInAreBound(head, target);
      assert elements == [head] + rest;
      ElementRemaps(head, source, target, used);
      var first := RemapElement(head, source, target, used);
      UsedGrows(BoundIn(first.0), ReservedIn(head, target), used, first.1);
      ForestRemaps(rest, source, target, first.1);
      var second := RemapForest(rest, source, target, first.1);
      RemapsCompose(
        BoundIn(first.0), Bound(second.0), ReservedIn(head, target), Reserved(rest, target), used, first.1, second.1);
      assert ([first.0] + second.0)[1..] == second.0;
    }
  }

  lemma UsedGrows(ids: seq<Id>, reserved: set<Id>, used: set<Id>, after: set<Id>)
    requires Remapped(ids, reserved, used, after)
    ensures used <= after
  {
  }

  lemma NothingRemapped(used: set<Id>)
    ensures Remapped([], {}, used, used)
  {
  }

  lemma {:induction false} ElementRemaps(element: Element, source: seq<Slot>, target: seq<Slot>, used: set<Id>)
    requires Unambiguous(target) && GroupsUnbound([element]) && Distinct(BoundIn(element))
    requires ReservedIn(element, target) <= used
    ensures var remapped := RemapElement(element, source, target, used);
      && AcceptedIn(remapped.0, target)
      && Remapped(BoundIn(remapped.0), ReservedIn(element, target), used, remapped.1)
    decreases element, 1
  {
    hide Remapped, Distinct, RemapLeaf, Retained, AcceptedBy, Unambiguous;
    if element.Group? {
      assert BoundIn(element) == Bound(element.children);
      ForestRemaps(element.children, source, target, used);
      var remapped := RemapElement(element, source, target, used).0;
      assert BoundIn(remapped) == Bound(remapped.children);
    } else {
      LeafRemaps(element, source, target, used);
    }
  }

  // ----- What stays -----

  /** Only bindings changed: an acceptable one not at all, another one at most to a new slot or to none. */
  ghost predicate OnlyRebinds(before: seq<Element>, after: seq<Element>, target: seq<Slot>)
    decreases before, 0
  {
    && |before| == |after|
    && (before != [] ==> RebindsElement(before[0], after[0], target) && OnlyRebinds(before[1..], after[1..], target))
  }

  ghost predicate RebindsElement(before: Element, after: Element, target: seq<Slot>)
    decreases before, 1
  {
    if before.Group? then
      after.Group? && after == before.(children := after.children) && OnlyRebinds(before.children, after.children, target)
    else
      && after == Rebound(before, after.base.placeholderBinding)
      && (before.base.placeholderBinding.None? || Retained(before, target) ==> after == before)
      && (after.base.placeholderBinding.Some? ==>
           && before.base.placeholderBinding.Some?
           && after.base.placeholderBinding.value.overrides == before.base.placeholderBinding.value.overrides)
  }

  lemma {:induction false} RemapOnlyRebinds(elements: seq<Element>, source: seq<Slot>, target: seq<Slot>, used: set<Id>)
    ensures OnlyRebinds(elements, RemapForest(elements, source, target, used).0, target)
    decreases elements, 0
  {
    hide RemapLeaf, Retained;
    if elements != [] {
      var head, rest := elements[0], elements[1..];
      ElementOnlyRebinds(head, source, target, used);
      var first := RemapElement(head, source, target, used);
      RemapOnlyRebinds(rest, source, target, first.1);
      assert ([first.0] + RemapForest(rest, source, target, first.1).0)[1..]
        == RemapForest(rest, source, target, first.1).0;
    }
  }

  lemma {:induction false} ElementOnlyRebinds(element: Element, source: seq<Slot>, target: seq<Slot>, used: set<Id>)
    ensures RebindsElement(element, RemapElement(element, source, target, used).0, target)
    decreases element, 1
  {
    if element.Group? {
      RemapOnlyRebinds(element.children, source, target, used);
    }
  }

  lemma EmptySlotsAreUnambiguous()
    ensures Unambiguous([])
  {
  }

  lemma SlotsAreUnambiguous(document: DeckDocument, layoutId: Id)
    ensures Unambiguous(SlotsFor(document, layoutId))
  {
    hide Unambiguous, Collect;
    EmptySlotsAreUnambiguous();
    var layout := FindLayout(document.layouts, layoutId);
    if layout.Some? {
      var master := FindMaster(document.masters, layout.value.masterId);
      var inherited := if master.Some? then Collect(master.value.elements, []) else [];
      if master.Some? {
        CollectKeepsUnambiguous(master.value.elements, []);
      }
      CollectKeepsUnambiguous(layout.value.elements, inherited);
    }
  }

  /**
   From a slide whose bindings are valid, remapping to any layout of any target document gives valid
   bindings there, and leaves every element alone whose binding the target still accepts.
   */
  lemma RemappingKeepsBindingsValid(
    sourceDocument: DeckDocument, targetDocument: DeckDocument, slide: Slide, layoutId: Id)
    requires ValidBindings(slide.elements, SlotsFor(sourceDocument, slide.layoutId))
    ensures var remapped := RemapPlaceholderBindings(sourceDocument, targetDocument, slide, layoutId);
      && ValidBindings(remapped, SlotsFor(targetDocument, layoutId))
      && OnlyRebinds(slide.elements, remapped, SlotsFor(targetDocument, layoutId))
  {
    hide Distinct, SlotsFor, RemapForest, Reserved, OnlyRebinds;
    var source, target := SlotsFor(sourceDocument, slide.layoutId), SlotsFor(targetDocument, layoutId);
    SlotsAreUnambiguous(targetDocument, layoutId);
    AcceptedGroupsAreUnbound(slide.elements, source);
    ForestRemaps(slide.elements, source, target, Reserved(slide.elements, target));
    RemapOnlyRebinds(slide.elements, source, target, Reserved(slide.elements, target));
  }
}
