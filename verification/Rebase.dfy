/** Rebasing: what an accepted stale batch of in-place commands does to the document. */
module Rebase {
  import opened Wrappers
  import opened DeckModel
  import opened Commands
  import opened Access
  import opened LocalEdits

  // ----- Documents that agree on some entities -----

  /** An element without its children: the value the element's own key stands for. */
  function Shell(element: Element): Element {
    if element.Group? then element.(children := []) else element
  }

  /** Same tree of identifiers and kinds, and equal shells wherever the key is in `keys`. */
  ghost predicate ElementsAgree(left: Element, right: Element, keys: iset<EntityKey>)
    decreases left, 1
  {
    && left.Id() == right.Id() && left.Kind() == right.Kind()
    && (ElementEntity(left.Id()) in keys ==> Shell(left) == Shell(right))
    && (left.Group? ==> ForestsAgree(left.children, right.children, keys))
  }

  ghost predicate ForestsAgree(left: seq<Element>, right: seq<Element>, keys: iset<EntityKey>)
    decreases left, 0
  {
    && |left| == |right|
    && (left != [] ==> ElementsAgree(left[0], right[0], keys) && ForestsAgree(left[1..], right[1..], keys))
  }

  function SlideShell(slide: Slide): Slide {
    slide.(elements := [])
  }

  ghost predicate SlidesAgree(left: seq<Slide>, right: seq<Slide>, keys: iset<EntityKey>)
    decreases |left|
  {
    && |left| == |right|
    && (left != [] ==>
         && left[0].id == right[0].id
         && (SlideEntity(left[0].id) in keys ==> SlideShell(left[0]) == SlideShell(right[0]))
         && ForestsAgree(left[0].elements, right[0].elements, keys)
         && SlidesAgree(left[1..], right[1..], keys))
  }

  ghost predicate DocumentsAgree(left: DeckDocument, right: DeckDocument, keys: iset<EntityKey>) {
    && (DeckName in keys ==> left.name == right.name)
    && SlidesAgree(left.slides, right.slides, keys)
  }

  /** Everything a document holds besides its name, its slides and the time stamp. */
  function Surroundings(document: DeckDocument): DeckDocument {
    document.(name := "", slides := [], modifiedAt := "")
  }

  ghost function Outside(keys: set<EntityKey>): iset<EntityKey> {
    iset key: EntityKey | key !in keys
  }

  /** `after` differs from `before` at most in the entities of `written` and the time stamp. */
  ghost predicate ChangedOnly(before: DeckDocument, after: DeckDocument, written: set<EntityKey>) {
    DocumentsAgree(before, after, Outside(written)) && Surroundings(before) == Surroundings(after)
  }

  // ----- Agreement as a relation -----

  lemma {:induction false} ForestAgreesWithItself(elements: seq<Element>, keys: iset<EntityKey>)
    ensures ForestsAgree(elements, elements, keys)
    decreases elements
  {
    if elements != [] {
      if elements[0].Group? {
        ForestAgreesWithItself(elements[0].children, keys);
      }
      ForestAgreesWithItself(elements[1..], keys);
    }
  }

  lemma {:induction false} ForestAgreementNarrows(
    left: seq<Element>, right: seq<Element>, keys: iset<EntityKey>, fewer: iset<EntityKey>)
    requires ForestsAgree(left, right, keys) && fewer <= keys
    ensures ForestsAgree(left, right, fewer)
    decreases left
  {
    if left != [] {
      if left[0].Group? {
        ForestAgreementNarrows(left[0].children, right[0].children, keys, fewer);
      }
      ForestAgreementNarrows(left[1..], right[1..], keys, fewer);
    }
  }

  lemma {:induction false} ForestAgreementChains(
    first: seq<Element>, second: seq<Element>, third: seq<Element>, keys: iset<EntityKey>)
    requires ForestsAgree(first, second, keys) && ForestsAgree(second, third, keys)
    ensures ForestsAgree(first, third, keys)
    decreases first
  {
    if first != [] {
      if first[0].Group? {
        ForestAgreementChains(first[0].children, second[0].children, third[0].children, keys);
      }
      ForestAgreementChains(first[1..], second[1..], third[1..], keys);
    }
  }

  lemma {:induction false} SlidesAgreeWithThemselves(slides: seq<Slide>, keys: iset<EntityKey>)
    ensures SlidesAgree(slides, slides, keys)
    decreases |slides|
  {
    if slides != [] {
      ForestAgreesWithItself(slides[0].elements, keys);
      SlidesAgreeWithThemselves(slides[1..], keys);
    }
  }

  lemma {:induction false} SlidesAgreementNarrows(
    left: seq<Slide>, right: seq<Slide>, keys: iset<EntityKey>, fewer: iset<EntityKey>)
    requires SlidesAgree(left, right, keys) && fewer <= keys
    ensures SlidesAgree(left, right, fewer)
    decreases |left|
  {
    if left != [] {
      ForestAgreementNarrows(left[0].elements, right[0].elements, keys, fewer);
      SlidesAgreementNarrows(left[1..], right[1..], keys, fewer);
    }
  }

  lemma {:induction false} SlidesAgreementChains(
    first: seq<Slide>, second: seq<Slide>, third: seq<Slide>, keys: iset<EntityKey>)
    requires SlidesAgree(first, second, keys) && SlidesAgree(second, third, keys)
    ensures SlidesAgree(first, third, keys)
    decreases |first|
  {
    if first != [] {
      ForestAgreementChains(first[0].elements, second[0].elements, third[0].elements, keys);
      SlidesAgreementChains(first[1..], second[1..], third[1..], keys);
    }
  }

  lemma ChangesCompose(
    first: DeckDocument, second: DeckDocument, third: DeckDocument, early: set<EntityKey>, late: set<EntityKey>)
    requires ChangedOnly(first, second, early) && ChangedOnly(second, third, late)
    ensures ChangedOnly(first, third, early + late)
  {
    var keys := Outside(early + late);
    SlidesAgreementNarrows(first.slides, second.slides, Outside(early), keys);
    SlidesAgreementNarrows(second.slides, third.slides, Outside(late), keys);
    SlidesAgreementChains(first.slides, second.slides, third.slides, keys);
  }

  // ----- One edit of one element -----

  lemma EditKeepsIdentity(element: Element, command: Command)
    ensures var edited := EditElement(element, command);
      edited.Ok? ==> edited.value.Id() == element.Id() && edited.value.Kind() == element.Kind()
  {
    hide EditTable, FrameFor, Deduplicated;
  }

  lemma GroupEditKeepsChildren(element: Element, command: Command)
    requires element.Group?
    ensures var edited, shell := EditElement(element, command), EditElement(Shell(element), command);
      if edited.Ok? then
        edited.value.Group? && edited.value.children == element.children && shell == Ok(Shell(edited.value))
      else shell == edited
  {
  }

  /** An in-place edit works on the shell and leaves identity, kind and children alone. */
  lemma EditActsOnShell(element: Element, command: Command)
    ensures var edited, shell := EditElement(element, command), EditElement(Shell(element), command);
      if edited.Ok? then
        && shell == Ok(Shell(edited.value))
        && edited.value.Id() == element.Id() && edited.value.Kind() == element.Kind()
        && (element.Group? ==> edited.value.children == element.children)
      else shell == edited
  {
    EditKeepsIdentity(element, command);
    if element.Group? {
      GroupEditKeepsChildren(element, command);
    }
  }

  lemma EqualShellsEditAlike(left: Element, right: Element, command: Command)
    requires Shell(left) == Shell(right)
    ensures var x, y := EditElement(left, command), EditElement(right, command);
      if x.Ok? then y.Ok? && Shell(x.value) == Shell(y.value) else y == x
  {
    EditActsOnShell(left, command);
    EditActsOnShell(right, command);
  }

  // ----- Edits of trees that agree -----

  ghost predicate ForestResultsAgree(
    left: Result<seq<Element>, CommandError>, right: Result<seq<Element>, CommandError>, keys: iset<EntityKey>)
  {
    if left.Ok? then right.Ok? && ForestsAgree(left.value, right.value, keys) else right == left
  }

  ghost predicate Within(ids: set<Id>, keys: iset<EntityKey>) {
    forall id | id in ids :: ElementEntity(id) in keys
  }

  lemma ElementStepAgrees(left: Element, right: Element, ids: set<Id>, command: Command, keys: iset<EntityKey>)
    requires ElementsAgree(left, right, keys) && Within(ids, keys) && left.Id() in ids
    ensures var x, y := EditElement(left, command), EditElement(right, command);
      if x.Ok? then y.Ok? && ElementsAgree(x.value, y.value, keys) else y == x
  {
    EqualShellsEditAlike(left, right, command);
    EditActsOnShell(left, command);
    EditActsOnShell(right, command);
  }

  lemma {:induction false} EditEachAgrees(
    left: seq<Element>, right: seq<Element>, ids: set<Id>, command: Command, keys: iset<EntityKey>)
    requires ForestsAgree(left, right, keys) && Within(ids, keys)
    ensures ForestResultsAgree(EditEach(left, ids, command), EditEach(right, ids, command), keys)
    decreases |left|
  {
    if left != [] {
      if left[0].Id() in ids {
        ElementStepAgrees(left[0], right[0], ids, command, keys);
      }
      EditEachAgrees(left[1..], right[1..], ids, command, keys);
    }
  }

  lemma {:induction false} SelectionsAgree(
    left: seq<Element>, right: seq<Element>, ids: set<Id>, keys: iset<EntityKey>)
    requires ForestsAgree(left, right, keys) && Within(ids, keys)
    ensures SelectedCount(left, ids) == SelectedCount(right, ids)
    ensures SelectionLocked(left, ids) <==> SelectionLocked(right, ids)
    decreases |left|
  {
    if left != [] {
      SelectionsAgree(left[1..], right[1..], ids, keys);
      LockedSplits(left, ids);
      LockedSplits(right, ids);
      assert left[0].Id() in ids ==> Shell(left[0]).base == Shell(right[0]).base;
    }
  }

  lemma LockedSplits(elements: seq<Element>, ids: set<Id>)
    requires elements != []
    ensures SelectionLocked(elements, ids) <==>
      (elements[0].Id() in ids && elements[0].base.locked) || SelectionLocked(elements[1..], ids)
  {
    if SelectionLocked(elements[1..], ids) {
      var i :| 0 <= i < |elements[1..]| && elements[1..][i].Id() in ids && elements[1..][i].base.locked;
      assert elements[i + 1] == elements[1..][i];
    }
    if SelectionLocked(elements, ids) {
      var i :| 0 <= i < |elements| && elements[i].Id() in ids && elements[i].base.locked;
      assert i > 0 ==> elements[1..][i - 1] == elements[i];
    }
  }

  lemma EditContainerAgrees(
    left: seq<Element>, right: seq<Element>, ids: set<Id>, command: Command, keys: iset<EntityKey>)
    requires ForestsAgree(left, right, keys) && Within(ids, keys)
    ensures ForestResultsAgree(EditContainer(left, ids, command), EditContainer(right, ids, command), keys)
  {
    SelectionsAgree(left, right, ids, keys);
    EditEachAgrees(left, right, ids, command, keys);
  }

  ghost predicate VisitsAgree(
    left: Result<(bool, seq<Element>), CommandError>, right: Result<(bool, seq<Element>), CommandError>,
    keys: iset<EntityKey>)
  {
    if left.Ok? then
      right.Ok? && left.value.0 == right.value.0 && ForestsAgree(left.value.1, right.value.1, keys)
    else right == left
  }

  lemma RechilderedShells(left: Element, right: Element, x: seq<Element>, y: seq<Element>, keys: iset<EntityKey>)
    requires left.Group? && right.Group? && ElementsAgree(left, right, keys) && ForestsAgree(x, y, keys)
    ensures ElementsAgree(left.(children := x), right.(children := y), keys)
  {
    assert Shell(left.(children := x)) == Shell(left) && Shell(right.(children := y)) == Shell(right);
  }

  ghost predicate ElementVisitsAgree(
    left: Result<(bool, Element), CommandError>, right: Result<(bool, Element), CommandError>, keys: iset<EntityKey>)
  {
    if left.Ok? then
      right.Ok? && left.value.0 == right.value.0 && ElementsAgree(left.value.1, right.value.1, keys)
    else right == left
  }

  lemma ContainerAgrees(
    left: Element, right: Element, ids: set<Id>, command: Command, keys: iset<EntityKey>)
    requires left.Group? && ElementsAgree(left, right, keys)
    requires Within(ids, keys) && ElementEntity(left.Id()) in keys
    ensures ElementVisitsAgree(
      VisitElement(left, left.Id(), ids, command), VisitElement(right, left.Id(), ids, command), keys)
  {
    assert Shell(left).base == Shell(right).base;
    EditContainerAgrees(left.children, right.children, ids, command, keys);
    var x, y := EditContainer(left.children, ids, command), EditContainer(right.children, ids, command);
    if x.Ok? {
      RechilderedShells(left, right, x.value, y.value, keys);
    }
  }

  lemma {:induction false} VisitElementAgrees(
    left: Element, right: Element, containerId: Id, ids: set<Id>, command: Command, keys: iset<EntityKey>)
    requires ElementsAgree(left, right, keys) && Within(ids, keys) && ElementEntity(containerId) in keys
    ensures ElementVisitsAgree(
      VisitElement(left, containerId, ids, command), VisitElement(right, containerId, ids, command), keys)
    decreases left, 1
  {
    hide EditContainer, EditElement, Shell;
    if left.Group? {
      if left.Id() == containerId {
        ContainerAgrees(left, right, ids, command, keys);
      } else {
        VisitContainerAgrees(left.children, right.children, containerId, ids, command, keys);
        var x := VisitContainer(left.children, containerId, ids, command);
        var y := VisitContainer(right.children, containerId, ids, command);
        if x.Ok? { RechilderedShells(left, right, x.value.1, y.value.1, keys); }
      }
    }
  }

  lemma {:induction false} VisitContainerAgrees(
    left: seq<Element>, right: seq<Element>, containerId: Id, ids: set<Id>, command: Command, keys: iset<EntityKey>)
    requires ForestsAgree(left, right, keys) && Within(ids, keys) && ElementEntity(containerId) in keys
    ensures VisitsAgree(
      VisitContainer(left, containerId, ids, command), VisitContainer(right, containerId, ids, command), keys)
    decreases left, 0
  {
    if left != [] {
      VisitElementAgrees(left[0], right[0], containerId, ids, command, keys);
      VisitContainerAgrees(left[1..], right[1..], containerId, ids, command, keys);
    }
  }

  lemma EditTreeAgrees(
    left: seq<Element>, right: seq<Element>, containerId: Option<Id>, ids: set<Id>, command: Command,
    keys: iset<EntityKey>)
    requires ForestsAgree(left, right, keys) && Within(ids, keys)
    requires containerId.Some? ==> ElementEntity(containerId.value) in keys
    ensures ForestResultsAgree(
      EditTree(left, containerId, ids, command), EditTree(right, containerId, ids, command), keys)
  {
    if containerId.None? {
      EditContainerAgrees(left, right, ids, command, keys);
    } else {
      VisitContainerAgrees(left, right, containerId.value, ids, command, keys);
    }
  }

  // ----- Nothing else changes -----

  lemma {:induction false} EditEachFrames(elements: seq<Element>, ids: set<Id>, command: Command, keys: iset<EntityKey>)
    requires forall id | id in ids :: ElementEntity(id) !in keys
    ensures var edited := EditEach(elements, ids, command);
      edited.Ok? ==> ForestsAgree(elements, edited.value, keys)
    decreases |elements|
  {
    if elements != [] {
      EditEachFrames(elements[1..], ids, command, keys);
      EditActsOnShell(elements[0], command);
      if elements[0].Group? {
        ForestAgreesWithItself(elements[0].children, keys);
      }
    }
  }

  lemma RechilderedFrame(element: Element, children: seq<Element>, keys: iset<EntityKey>)
    requires element.Group? && ForestsAgree(element.children, children, keys)
    ensures ElementsAgree(element, element.(children := children), keys)
  {
  }

  lemma {:induction false} VisitElementFrames(
    element: Element, containerId: Id, ids: set<Id>, command: Command, keys: iset<EntityKey>)
    requires forall id | id in ids :: ElementEntity(id) !in keys
    ensures var visited := VisitElement(element, containerId, ids, command);
      visited.Ok? ==> ElementsAgree(element, visited.value.1, keys)
    decreases element, 1
  {
    if element.Group? {
      if element.Id() == containerId {
        EditEachFrames(element.children, ids, command, keys);
        var edited := EditContainer(element.children, ids, command);
        if edited.Ok? { RechilderedFrame(element, edited.value, keys); }
      } else {
        VisitContainerFrames(element.children, containerId, ids, command, keys);
        var visited := VisitContainer(element.children, containerId, ids, command);
        if visited.Ok? { RechilderedFrame(element, visited.value.1, keys); }
      }
    }
  }

  lemma {:induction false} VisitContainerFrames(
    elements: seq<Element>, containerId: Id, ids: set<Id>, command: Command, keys: iset<EntityKey>)
    requires forall id | id in ids :: ElementEntity(id) !in keys
    ensures var visited := VisitContainer(elements, containerId, ids, command);
      visited.Ok? ==> ForestsAgree(elements, visited.value.1, keys)
    decreases elements, 0
  {
    if elements != [] {
      VisitElementFrames(elements[0], containerId, ids, command, keys);
      VisitContainerFrames(elements[1..], containerId, ids, command, keys);
    }
  }

  lemma EditTreeFrames(
    elements: seq<Element>, containerId: Option<Id>, ids: set<Id>, command: Command, keys: iset<EntityKey>)
    requires forall id | id in ids :: ElementEntity(id) !in keys
    ensures var edited := EditTree(elements, containerId, ids, command);
      edited.Ok? ==> ForestsAgree(elements, edited.value, keys)
  {
    if containerId.None? {
      EditEachFrames(elements, ids, command, keys);
    } else {
      VisitContainerFrames(elements, containerId.value, ids, command, keys);
    }
  }

  // ----- Commands -----

  /** The entities an in-place command writes and the ones it depends on. */
  function LocalWrites(command: Command): set<EntityKey>
    requires IsLocal(command)
  {
    if command.DeckRename? then {DeckName}
    else if TargetOf(command).Some? then set id | id in TargetOf(command).value.ids :: ElementEntity(id)
    else {SlideEntity(LocalSlideId(command))}
  }

  function LocalTouched(command: Command): set<EntityKey>
    requires IsLocal(command)
  {
    if command.DeckRename? then {DeckName}
    else if TargetOf(command).Some? then
      {SlideEntity(LocalSlideId(command))} + LocalWrites(command) +
      if TargetOf(command).value.containerId.Some? then {ElementEntity(TargetOf(command).value.containerId.value)} else {}
    else {SlideEntity(LocalSlideId(command))}
  }

  ghost function Inside(keys: set<EntityKey>): iset<EntityKey> {
    iset key: EntityKey | key in keys
  }

  ghost predicate Covers(keys: iset<EntityKey>, touched: set<EntityKey>) {
    forall key | key in touched :: key in keys
  }

  ghost predicate SlideResultsAgree(
    left: Result<Slide, CommandError>, right: Result<Slide, CommandError>, keys: iset<EntityKey>)
  {
    if left.Ok? then
      && right.Ok? && left.value.id == right.value.id
      && (SlideEntity(left.value.id) in keys ==> SlideShell(left.value) == SlideShell(right.value))
      && ForestsAgree(left.value.elements, right.value.elements, keys)
    else right == left
  }

  lemma EditSlideAgrees(left: Slide, right: Slide, command: Command, keys: iset<EntityKey>)
    requires IsLocal(command) && !command.DeckRename? && Covers(keys, LocalTouched(command))
    requires left.id == right.id == LocalSlideId(command)
    requires SlideShell(left) == SlideShell(right) && ForestsAgree(left.elements, right.elements, keys)
    ensures SlideResultsAgree(EditSlide(left, command), EditSlide(right, command), keys)
  {
    if TargetOf(command).Some? {
      var target := TargetOf(command).value;
      assert Within(target.ids, keys) by {
        forall id | id in target.ids ensures ElementEntity(id) in keys {
          assert ElementEntity(id) in LocalWrites(command);
          assert ElementEntity(id) in LocalTouched(command);
        }
      }
      EditTreeAgrees(left.elements, right.elements, target.containerId, target.ids, command, keys);
    }
  }

  ghost predicate ReplacementsAgree(
    left: Result<(bool, seq<Slide>), CommandError>, right: Result<(bool, seq<Slide>), CommandError>,
    keys: iset<EntityKey>)
  {
    if left.Ok? then
      right.Ok? && left.value.0 == right.value.0 && SlidesAgree(left.value.1, right.value.1, keys)
    else right == left
  }

  lemma {:induction false} ReplaceSlideAgrees(
    left: seq<Slide>, right: seq<Slide>, command: Command, keys: iset<EntityKey>)
    requires IsLocal(command) && !command.DeckRename? && Covers(keys, LocalTouched(command))
    requires SlidesAgree(left, right, keys)
    ensures ReplacementsAgree(
      ReplaceSlide(left, LocalSlideId(command), command), ReplaceSlide(right, LocalSlideId(command), command), keys)
    decreases |left|
  {
    if left != [] {
      ReplaceSlideAgrees(left[1..], right[1..], command, keys);
      if left[0].id == LocalSlideId(command) {
        assert SlideEntity(left[0].id) in LocalTouched(command);
        EditSlideAgrees(left[0], right[0], command, keys);
      }
    }
  }

  /** Both refused with the same error, or both done with agreeing documents. */
  ghost predicate OutcomesAgree(
    left: Result<DeckDocument, CommandError>, right: Result<DeckDocument, CommandError>, keys: iset<EntityKey>)
  {
    if left.Ok? then right.Ok? && DocumentsAgree(left.value, right.value, keys) else right == left
  }

  /** Documents that agree on all a command touches take it the same way. */
  lemma CommandAgrees(left: DeckDocument, right: DeckDocument, command: Command, keys: iset<EntityKey>)
    requires IsLocal(command) && Covers(keys, LocalTouched(command)) && DocumentsAgree(left, right, keys)
    ensures OutcomesAgree(Execute(left, command), Execute(right, command), keys)
  {
    if !command.DeckRename? {
      ReplaceSlideAgrees(left.slides, right.slides, command, keys);
    }
  }

  lemma EditSlideFrames(slide: Slide, command: Command)
    requires IsLocal(command) && !command.DeckRename? && slide.id == LocalSlideId(command)
    ensures var keys := Outside(LocalWrites(command));
      SlideResultsAgree(
        Ok(slide), if EditSlide(slide, command).Ok? then EditSlide(slide, command) else Ok(slide), keys)
  {
    var keys := Outside(LocalWrites(command));
    ForestAgreesWithItself(slide.elements, keys);
    if TargetOf(command).Some? {
      var target := TargetOf(command).value;
      EditTreeFrames(slide.elements, target.containerId, target.ids, command, keys);
    }
  }

  lemma {:induction false} ReplaceSlideFrames(slides: seq<Slide>, command: Command)
    requires IsLocal(command) && !command.DeckRename?
    ensures var replaced := ReplaceSlide(slides, LocalSlideId(command), command);
      replaced.Ok? ==> SlidesAgree(slides, replaced.value.1, Outside(LocalWrites(command)))
    decreases |slides|
  {
    if slides != [] {
      ReplaceSlideFrames(slides[1..], command);
      if slides[0].id == LocalSlideId(command) {
        EditSlideFrames(slides[0], command);
      } else {
        ForestAgreesWithItself(slides[0].elements, Outside(LocalWrites(command)));
      }
    }
  }

  /** A command changes only what it writes. */
  lemma CommandFrames(document: DeckDocument, command: Command)
    requires IsLocal(command) && Execute(document, command).Ok?
    ensures ChangedOnly(document, Execute(document, command).value, LocalWrites(command))
  {
    if command.DeckRename? {
      SlidesAgreeWithThemselves(document.slides, Outside(LocalWrites(command)));
    } else {
      ReplaceSlideFrames(document.slides, command);
    }
  }

  // ----- Batches -----

  function BatchWrites(commands: seq<Command>): set<EntityKey>
    requires AllLocal(commands)
  {
    if commands == [] then {} else LocalWrites(commands[0]) + BatchWrites(commands[1..])
  }

  function BatchTouched(commands: seq<Command>): set<EntityKey>
    requires AllLocal(commands)
  {
    if commands == [] then {} else LocalTouched(commands[0]) + BatchTouched(commands[1..])
  }

  lemma {:induction false} BatchAgrees(
    left: DeckDocument, right: DeckDocument, commands: seq<Command>, keys: iset<EntityKey>)
    requires AllLocal(commands) && Covers(keys, BatchTouched(commands)) && DocumentsAgree(left, right, keys)
    ensures OutcomesAgree(ExecuteAll(left, commands), ExecuteAll(right, commands), keys)
    decreases |commands|
  {
    if commands != [] {
      CommandAgrees(left, right, commands[0], keys);
      if Execute(left, commands[0]).Ok? {
        BatchAgrees(Execute(left, commands[0]).value, Execute(right, commands[0]).value, commands[1..], keys);
      }
    }
  }

  lemma {:induction false} BatchFrames(document: DeckDocument, commands: seq<Command>)
    requires AllLocal(commands) && ExecuteAll(document, commands).Ok?
    ensures ChangedOnly(document, ExecuteAll(document, commands).value, BatchWrites(commands))
    decreases |commands|
  {
    if commands == [] {
      SlidesAgreeWithThemselves(document.slides, Outside({}));
    } else {
      var next := Execute(document, commands[0]).value;
      CommandFrames(document, commands[0]);
      BatchFrames(next, commands[1..]);
      ChangesCompose(
        document, next, ExecuteAll(document, commands).value, LocalWrites(commands[0]), BatchWrites(commands[1..]));
    }
  }

  /**
   When nothing a batch touches changed since its base, it succeeds now exactly when it would have
   at its base, leaves the same values in what it writes, and changes nothing else.
   */
  lemma StaleBatchIsStable(
    base: DeckDocument, current: DeckDocument, changed: set<EntityKey>, commands: seq<Command>)
    requires AllLocal(commands) && ChangedOnly(base, current, changed)
    requires changed !! BatchTouched(commands)
    ensures var early, late := ExecuteAll(base, commands), ExecuteAll(current, commands);
      && OutcomesAgree(early, late, Inside(BatchTouched(commands)))
      && (late.Ok? ==> ChangedOnly(current, late.value, BatchWrites(commands)))
  {
    var keys := Inside(BatchTouched(commands));
    SlidesAgreementNarrows(base.slides, current.slides, Outside(changed), keys);
    BatchAgrees(base, current, commands, keys);
    if ExecuteAll(current, commands).Ok? {
      BatchFrames(current, commands);
    }
  }
}
