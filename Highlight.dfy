/** The highlight classification of `highlightConnectedEntities` and the
    relationship list `getSelectedTableRelationships` (MermaidViewer.tsx). */
module Highlight {
  import opened Wrappers
  import opened Text
  import opened Pattern
  import opened Analyzer
  import opened Scope

  /** How a tagged diagram element is drawn: the focus in green, a neighbour
      in blue, anything else faded; `Neutral` is no highlight at all. */
  datatype Shade = Focused | Connected | Dimmed | Neutral

  /** The set the `forEach` of lines 222-229 has built after `rels`. */
  function Linked(rels: seq<Relationship>, focus: string): set<string> {
    if rels == [] then {focus}
    else
      var r := rels[|rels| - 1];
      Linked(rels[..|rels| - 1], focus)
      + (if r.from == focus then {r.to} else {})
      + (if r.to == focus then {r.from} else {})
  }

  /** `connectedEntities` in `highlightConnectedEntities` (lines 219-229). */
  method ConnectedEntitySet(relationships: seq<Relationship>, selectedEntity: string)
    returns (connectedEntities: set<string>)
    ensures connectedEntities == Linked(relationships, selectedEntity)
  {
    connectedEntities := {selectedEntity};
    for i := 0 to |relationships|
      invariant connectedEntities == Linked(relationships[..i], selectedEntity)
    {
      assert relationships[..i + 1][..i] == relationships[..i];
      var rel := relationships[i];
      if rel.from == selectedEntity {
        connectedEntities := connectedEntities + {rel.to};
      }
      if rel.to == selectedEntity {
        connectedEntities := connectedEntities + {rel.from};
      }
    }
    assert relationships[..|relationships|] == relationships;
  }

  /** The set holds the focus and exactly its one-hop neighbours. */
  lemma {:induction false} LinkedMembers(rels: seq<Relationship>, focus: string, x: string)
    ensures x in Linked(rels, focus) <==> x == focus || Adjacent(rels, focus, x)
  {
    if rels != [] {
      var init, r := rels[..|rels| - 1], rels[|rels| - 1];
      assert rels == init + [r];
      LinkedMembers(init, focus, x);
      if Adjacent(init, focus, x) {
        var q :| q in init && ((q.from == focus && q.to == x) || (q.to == focus && q.from == x));
        assert q in rels;
      }
      if Adjacent(rels, focus, x) {
        var q :| q in rels && ((q.from == focus && q.to == x) || (q.to == focus && q.from == x));
        if q != r {
          assert q in init;
        }
      }
    }
  }

  /** The highlight and the reduced script agree on what is in view: the set
      the highlight builds over all relationships is the scope built from
      the touching ones. */
  lemma LinkedIsScope(rels: seq<Relationship>, focus: string)
    ensures Linked(rels, focus) == ScopeOf(rels, focus)
  {
    forall x ensures x in Linked(rels, focus) <==> x in ScopeOf(rels, focus) {
      LinkedMembers(rels, focus, x);
      ScopeIsOneHop(rels, focus, x);
    }
  }

  /** The branch of lines 236-251 taken for an element tagged `name`. */
  function Classify(name: string, selectedEntity: string, connected: set<string>): Shade {
    if name == selectedEntity then Focused
    else if name in connected then Connected
    else Dimmed
  }

  /** Classified against the set built from the relationships, each entity
      falls in exactly one class: focused exactly when it is the selection,
      connected exactly when it is a one-hop neighbour of it, dimmed
      otherwise; a highlight never leaves an entity neutral. */
  lemma ClassifyPartition(rels: seq<Relationship>, focus: string, name: string)
    ensures Classify(name, focus, Linked(rels, focus)) == Focused <==> name == focus
    ensures Classify(name, focus, Linked(rels, focus)) == Connected <==>
            name != focus && Adjacent(rels, focus, name)
    ensures Classify(name, focus, Linked(rels, focus)) == Dimmed <==>
            name != focus && !Adjacent(rels, focus, name)
    ensures Classify(name, focus, Linked(rels, focus)) != Neutral
  {
    LinkedMembers(rels, focus, name);
  }

  /** An entity mentioned only by relationships that do not touch the focus
      is dimmed, however close it is to a neighbour. */
  lemma TwoHopsDimmed(rels: seq<Relationship>, focus: string, name: string)
    requires name != focus
    requires forall r :: r in rels && (r.from == name || r.to == name) ==> !Touches(r, focus)
    ensures Classify(name, focus, Linked(rels, focus)) == Dimmed
  {
    LinkedMembers(rels, focus, name);
  }

  /** `getSelectedTableRelationships` (lines 305-308). */
  function SelectedRelationships(rels: seq<Relationship>, selectedTable: Option<string>): seq<Relationship> {
    if NoFocus(selectedTable) then [] else Touching(rels, selectedTable.value)
  }

  /** The list holds each relationship touching a (non-empty) selection, as
      often as the script has it, and nothing else. */
  lemma SelectedRelationshipsCounts(rels: seq<Relationship>, selectedTable: Option<string>, r: Relationship)
    ensures multiset(SelectedRelationships(rels, selectedTable))[r] ==
            if !NoFocus(selectedTable) && Touches(r, selectedTable.value) then multiset(rels)[r] else 0
  {
    if !NoFocus(selectedTable) {
      TouchingCounts(rels, selectedTable.value, r);
    }
  }

  /** The entity shown beside a relationship in the list (line 470). */
  function OtherEnd(r: Relationship, selectedTable: string): string {
    if r.from == selectedTable then r.to else r.from
  }

  /** Every entity the list shows is highlighted, as a neighbour or as the
      focus itself (a relationship from the focus to itself). */
  lemma ListedAreHighlighted(rels: seq<Relationship>, focus: string, r: Relationship)
    requires r in SelectedRelationships(rels, Some(focus))
    ensures Classify(OtherEnd(r, focus), focus, Linked(rels, focus)) in {Focused, Connected}
  {
    SelectedRelationshipsCounts(rels, Some(focus), r);
    LinkedMembers(rels, focus, OtherEnd(r, focus));
    assert r in rels;
  }

  /** The list beside the diagram holds exactly the relationships the reduced
      script draws, when no copied block holds a `"`. */
  lemma ListMatchesReducedDiagram(script: string, focus: string)
    requires focus != "" && Trim(script) != ""
    requires forall d :: d in ScanLines(Lines(script), ScopeOf(RelationshipsOf(Lines(script)), focus)).defs ==> '"' !in d
    ensures RelationshipsOf(Lines(FilteredScript(script, Some(focus)))) ==
            SelectedRelationships(RelationshipsOf(Lines(script)), Some(focus))
  {
    ReducedRelationshipsRoundTrip(script, focus);
  }
}
