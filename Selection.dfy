/** The viewer's selection state (`selectedTable`, `isHighlightMode`) and
    the highlight it draws on the tagged diagram elements
    (MermaidViewer.tsx). */
module Selection {
  import opened Wrappers
  import opened Text
  import opened Pattern
  import opened Analyzer
  import opened Highlight

  /** The selection after a click on `name` (lines 199-209): clicking the
      selected entity clears the selection, any other click moves it there
      directly. */
  function Toggle(selected: Option<string>, name: string): (next: Option<string>)
    ensures next == None <==> selected == Some(name)
    ensures next != None ==> next == Some(name)
  {
    if selected == Some(name) then None else Some(name)
  }

  /** Two clicks on the same entity, starting from no selection, return to
      no selection. */
  lemma ToggleTwiceFromNothing(name: string)
    ensures Toggle(Toggle(None, name), name) == None
  {
  }

  /** Clicking another entity switches the selection without passing
      through none. */
  lemma ToggleSwitches(a: string, b: string)
    requires a != b
    ensures Toggle(Some(a), b) == Some(b)
  {
  }

  /** The dropdown's `onChange` (lines 421-428): the empty value clears, any
      other value acts as a click on it. */
  function DropdownNext(selected: Option<string>, value: string): (next: Option<string>)
    ensures value == "" ==> next == None
    ensures value != "" ==> next == Toggle(selected, value)
  {
    if value == "" then None else Toggle(selected, value)
  }

  /** What an element tagged `name` shows once the handlers have run: nothing
      without a selection, otherwise the class of `name` against the
      selection. An element with an empty tag is skipped (line 236), so it
      keeps the plain look it was rendered with. */
  function ShadeFor(selected: Option<string>, rels: seq<Relationship>, name: string): Shade {
    if selected.None? || name == "" then Neutral
    else Classify(name, selected.value, Linked(rels, selected.value))
  }

  /** The component's state that the handlers read and write. `tagged` lists
      the `data-entity` name of each tagged element of the rendered diagram,
      in document order, and `shades` how each of them is drawn. */
  class Viewer {
    var selectedTable: Option<string>
    var isHighlightMode: bool
    var relationships: seq<Relationship>
    var entities: seq<string>
    var tagged: seq<string>
    var shades: seq<Shade>

    /** The highlight mode is on exactly when something is selected, there is
        one shade per tagged element, and an element with an empty tag is
        never highlighted. */
    ghost predicate Valid()
      reads this
    {
      (isHighlightMode <==> selectedTable.Some?) &&
      |shades| == |tagged| &&
      forall k :: 0 <= k < |tagged| && tagged[k] == "" ==> shades[k] == Neutral
    }

    /** Every tagged element is drawn as the current selection says. */
    ghost predicate Shown()
      reads this
    {
      |shades| == |tagged| &&
      forall k :: 0 <= k < |tagged| ==> shades[k] == ShadeFor(selectedTable, relationships, tagged[k])
    }

    /** The initial state (lines 25-28): nothing selected, nothing parsed. */
    constructor ()
      ensures Valid() && Shown()
      ensures selectedTable == None && !isHighlightMode
      ensures relationships == [] && entities == [] && tagged == []
    {
      selectedTable := None;
      isHighlightMode := false;
      relationships := [];
      entities := [];
      tagged := [];
      shades := [];
    }

    /** A finished render (lines 124-126, 137): the parsed lists are stored
        and the new diagram's tagged elements carry no highlight. A blank
        script never gets this far (lines 118 and 312), so the lists of the
        last non-blank script stay. */
    method Rendered(script: string, newTagged: seq<string>)
      requires Valid() && Trim(script) != ""
      modifies this
      ensures Valid()
      ensures relationships == RelationshipsOf(Lines(script))
      ensures entities == EntitiesOf(Lines(script))
      ensures tagged == newTagged && |shades| == |tagged|
      ensures forall k :: 0 <= k < |shades| ==> shades[k] == Neutral
      ensures selectedTable == old(selectedTable) && isHighlightMode == old(isHighlightMode)
    {
      relationships, entities := ParseRelationships(script);
      tagged := newTagged;
      shades := seq(|newTagged|, _ => Neutral);
    }

    /** `highlightConnectedEntities` (lines 212-251): every element with a
        non-empty tag is classed against the selection; others keep their
        look. */
    method HighlightConnectedEntities(selectedEntity: string)
      requires |shades| == |tagged|
      modifies this
      ensures unchanged(`selectedTable) && unchanged(`isHighlightMode)
      ensures unchanged(`relationships) && unchanged(`entities) && unchanged(`tagged)
      ensures |shades| == |tagged|
      ensures forall k :: 0 <= k < |tagged| ==>
                shades[k] == if tagged[k] == "" then old(shades)[k]
                             else Classify(tagged[k], selectedEntity, Linked(relationships, selectedEntity))
    {
      var connectedEntities := ConnectedEntitySet(relationships, selectedEntity);
      var k := 0;
      while k < |tagged|
        invariant 0 <= k <= |tagged| && |shades| == |tagged| == |old(shades)|
        invariant forall m :: 0 <= m < k ==>
                    shades[m] == if tagged[m] == "" then old(shades)[m]
                                 else Classify(tagged[m], selectedEntity, connectedEntities)
        invariant forall m :: k <= m < |tagged| ==> shades[m] == old(shades)[m]
        invariant unchanged(`selectedTable) && unchanged(`isHighlightMode)
        invariant unchanged(`relationships) && unchanged(`entities) && unchanged(`tagged)
      {
        var entityName := tagged[k];
        if entityName != "" {
          shades := shades[k := Classify(entityName, selectedEntity, connectedEntities)];
        }
        k := k + 1;
      }
    }

    /** `resetHighlighting` (lines 277-291): every tagged element loses its
        highlight. */
    method ResetHighlighting()
      requires |shades| == |tagged|
      modifies this
      ensures |shades| == |tagged|
      ensures forall k :: 0 <= k < |shades| ==> shades[k] == Neutral
      ensures unchanged(`selectedTable) && unchanged(`isHighlightMode)
      ensures unchanged(`relationships) && unchanged(`entities) && unchanged(`tagged)
    {
      var k := 0;
      while k < |shades|
        invariant 0 <= k <= |shades| && |shades| == |tagged|
        invariant forall m :: 0 <= m < k ==> shades[m] == Neutral
        invariant unchanged(`selectedTable) && unchanged(`isHighlightMode)
        invariant unchanged(`relationships) && unchanged(`entities) && unchanged(`tagged)
      {
        shades := shades[k := Neutral];
        k := k + 1;
      }
    }

    /** `handleEntityClick` (lines 199-209). */
    method HandleEntityClick(entityName: string)
      requires Valid()
      modifies this
      ensures Valid() && Shown()
      ensures selectedTable == Toggle(old(selectedTable), entityName)
      ensures unchanged(`relationships) && unchanged(`entities) && unchanged(`tagged)
    {
      if selectedTable == Some(entityName) {
        selectedTable := None;
        isHighlightMode := false;
        ResetHighlighting();
      } else {
        selectedTable := Some(entityName);
        isHighlightMode := true;
        HighlightConnectedEntities(entityName);
      }
    }

    /** `handleClearSelection` (lines 317-321). */
    method HandleClearSelection()
      requires Valid()
      modifies this
      ensures Valid() && Shown()
      ensures selectedTable == None && !isHighlightMode
      ensures unchanged(`relationships) && unchanged(`entities) && unchanged(`tagged)
    {
      selectedTable := None;
      isHighlightMode := false;
      ResetHighlighting();
    }

    /** The dropdown's `onChange` (lines 421-428). */
    method SelectFromDropdown(value: string)
      requires Valid()
      modifies this
      ensures Valid() && Shown()
      ensures selectedTable == DropdownNext(old(selectedTable), value)
      ensures unchanged(`relationships) && unchanged(`entities) && unchanged(`tagged)
    {
      if value == "" {
        HandleClearSelection();
      } else {
        HandleEntityClick(value);
      }
    }
  }
}
