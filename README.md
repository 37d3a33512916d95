# ER diagram focus engine, modelled in Dafny

This project models the analysis and focus engine of the ER diagram viewer
(`src/components/MermaidViewer.tsx`). The viewer takes a Mermaid
`erDiagram` script and does five things:

- it lists the entities and relationships the script declares
  (`parseRelationships`);
- when a table is selected, it reduces the script to that table, the
  tables it is directly related to, their definition blocks and the
  relationships that touch it (`getFilteredScript`);
- it keeps a selection that clicks and a dropdown toggle;
- it classes every tagged element of the drawn diagram as focused,
  connected or dimmed, and it resets that highlight;
- it lists the relationships of the selected table, and it names the
  exported SVG file.

Modules, one per concern:

- `Text`: JavaScript's string operations on `seq<char>`. These are `trim`
  (ASCII whitespace), `split('\n')` and `join('\n')`, `split(' ')[0]`,
  `includes`, `endsWith`, `toLowerCase` (ASCII letters) and `toString`
  for non-negative integers.
- `Pattern`: the relationship regular expression of line 59. It is a
  maximal-munch scanner, `MatchAt`. It is proved equal to the regex read
  as "the line splits into these pieces" (`SplitsAt`). Trying start
  positions left to right (`MatchLine`) is proved to give the leftmost
  match.
- `Analyzer`: `parseRelationships`. There is one function per loop
  (`EntitiesOf`, `RelationshipsOf`) and a method with both loops, proved
  equal to them.
- `Scope`: `getFilteredScript`. This covers the touching filter, the
  connected set, the strict filter, the block-copying loop as a state
  machine (`ScanLine`/`ScanLines`), the regenerated relationship lines and
  the final join.
- `Highlight`: the neighbour set and classification of
  `highlightConnectedEntities`, `getSelectedTableRelationships`, and the
  other end of each listed relationship.
- `Selection`: a `Viewer` class with the component state the handlers
  change. `selectedTable`, `isHighlightMode` and the parsed lists are
  fields. The drawn diagram is a sequence of `data-entity` tags with one
  `Shade` each.
- `Export`: the file name `er-diagram-<focus>-<YYYYMMDD-HHmmss>.svg`,
  with `padStart(2, '0')` on each date and time field (`Pad`).
- `Fixture`: the example script the editor's "Load Example" button loads
  (`src/components/MermaidEditor.tsx`, lines 14-73, loaded by
  `handleLoadDefault` at lines 78-79), and what the engine makes of it.
  The editor itself starts empty.

What the code does, as proved:

- A focus that is the empty string counts as no focus. `!selectedTable`
  is true for `""`, so both the filter and the relationship list treat it
  as no selection.
- The strict filter of line 85 removes nothing (`StrictFilterKeepsAll`).
  It filters relationships that already touch the focus, and both ends of
  each of those are in the connected set.
- The reduced script draws exactly the relationships that touch the focus
  (`ReducedRelationshipsRoundTrip`). A relationship between two neighbours
  of the focus is not drawn. The comment at line 84 describes a filter
  that keeps every relationship with both ends in the connected set. Line
  85 applies that filter to `filteredRelationships` (line 77), which holds
  only the relationships touching the focus, and not to
  `allRelationships`. So an edge between two neighbours never reaches
  the output. In the sample, with `User` in focus, `Post ||--o{ Comment`
  is left out although both ends are in view (`Fixture.FocusOnUser`).
  This model follows the code as written.
- The neighbour set the highlight builds is the same set as the scope of
  the reduced script (`LinkedIsScope`). So the highlight's "connected"
  means exactly a one-hop neighbour, and the list beside the diagram
  shows exactly what the reduced diagram draws.
- A relationship line with the connector `o|--o{` passes the test of
  line 48: it holds `{` and neither `||` nor `}|`. So the entity list
  records its left-hand entity as declared (`RelationshipLineDeclares`).
  No other connector does this. The block scanner of line 93 needs a
  trailing `{`, so it does not confuse the two.

## Model

| member | source | states |
|---|---|---|
| Text.TrimSpec | src/components/MermaidViewer.tsx:47 | `trim` removes a whitespace prefix and a whitespace suffix, and what is left neither starts nor ends with whitespace |
| Text.TrimIdempotent | src/components/MermaidViewer.tsx:47 | trimming twice is trimming once |
| Text.TrimPadded | src/components/MermaidViewer.tsx:47 | whitespace padding around an unpadded text trims back to that text |
| Text.Lines | src/components/MermaidViewer.tsx:43 | `split('\n')` gives at least one piece and no piece holds a line feed |
| Text.JoinLines | src/components/MermaidViewer.tsx:43 | joining the pieces of `split('\n')` with `'\n'` gives back the script |
| Text.LinesJoin | src/components/MermaidViewer.tsx:108-112 | splitting a `join('\n')` of line-feed-free parts gives back the parts |
| Text.LinesAppend | src/components/MermaidViewer.tsx:108-112 | the lines of `a + "\n" + b` are the lines of `a` followed by the lines of `b` |
| Text.FirstToken | src/components/MermaidViewer.tsx:49 | `split(' ')[0]` is the prefix up to the first space, or the whole text when there is none |
| Text.FirstTokenIs | src/components/MermaidViewer.tsx:49 | any space-free prefix followed by a space or the end is what `split(' ')[0]` returns |
| Text.ContainsAt | src/components/MermaidViewer.tsx:48 | `includes(pat)` holds exactly when `pat` occurs at some position |
| Text.ToLower | src/components/MermaidViewer.tsx:352 | `toLowerCase` keeps the length, maps each capital to its small letter and keeps every other character |
| Text.Decimal | src/components/MermaidViewer.tsx:350 | `toString` of a non-negative integer is a non-empty string of digits |
| Text.DecimalRoundTrip | src/components/MermaidViewer.tsx:350 | the digits `toString` writes read back as the number |
| Text.Trim | src/components/MermaidViewer.tsx:47 | `String.prototype.trim` on ASCII whitespace; `Text.TrimSpec` states that it removes exactly a whitespace prefix and suffix |
| Text.Contains | src/components/MermaidViewer.tsx:48 | `includes`; `Text.ContainsAt` states that it holds exactly when the pattern occurs at some position |
| Text.EndsWith | src/components/MermaidViewer.tsx:93 | `endsWith` for one character: the text is non-empty and its last character is that one |
| Text.Join | src/components/MermaidViewer.tsx:108-112 | `join` with a one-character separator; `Text.LinesJoin` and `Text.JoinLines` state that it inverts `split('\n')` |
| Pattern.RunEnd | src/components/MermaidViewer.tsx:59 | a run of one character class ends where the class stops matching, and every character before that is in the class |
| Pattern.MatchAtIff | src/components/MermaidViewer.tsx:59 | the scanner returns `r` at position `p` exactly when the regex matches at `p` with captures `r` |
| Pattern.MatchLineLeftmost | src/components/MermaidViewer.tsx:59-60 | `match` returns `r` exactly when `r` is captured at the leftmost position where the regex matches |
| Pattern.MatchLineNone | src/components/MermaidViewer.tsx:59-60 | `match` finds nothing exactly when the regex matches at no position |
| Pattern.MatchLineSound | src/components/MermaidViewer.tsx:59-63 | a captured relationship has word ends, one of the seven connectors and a non-empty label without `"`; the line holds two `"` with something between them |
| Pattern.NoQuoteNoMatch | src/components/MermaidViewer.tsx:59 | a line without `"` matches nothing |
| Pattern.EmptyLabelNoMatch | src/components/MermaidViewer.tsx:59 | a line whose only quotes are a closing `""` matches nothing: the label needs a character |
| Pattern.FormatRoundTrip | src/components/MermaidViewer.tsx:111 | a relationship line written as line 111 writes it is matched back into the same relationship |
| Pattern.FormatIsTrimmedLine | src/components/MermaidViewer.tsx:111 | a written relationship line has no surrounding whitespace and no line feed |
| Pattern.Relationship | src/components/MermaidViewer.tsx:16-21 | the `ERRelationship` record: `from`, `to`, `label` (here `caption`) and `type` (here `kind`), the four captured groups of line 63; `Pattern.MatchLineSound` states their shape |
| Pattern.MatchAt | src/components/MermaidViewer.tsx:59 | the regex tried at one start position, each piece taken as far as it goes; `Pattern.MatchAtIff` states that it agrees with the regex |
| Pattern.MatchLine | src/components/MermaidViewer.tsx:59-60 | `trimmed.match(relationshipPattern)` reduced to its captures; `Pattern.MatchLineLeftmost` and `Pattern.MatchLineNone` state that it returns the leftmost match or none |
| Pattern.SearchFrom | src/components/MermaidViewer.tsx:59-60 | the start positions `match` tries, left to right from `p`; `Pattern.MatchLineLeftmost` states that the first hit is the leftmost regex match |
| Pattern.Format | src/components/MermaidViewer.tsx:111 | the template `${from} ${type} ${to} : "${label}"`; `Pattern.FormatRoundTrip` states that the line matches back to the relationship |
| Analyzer.ParseRelationships | src/components/MermaidViewer.tsx:40-69 | the two loops return the relationship and entity lists of the split script |
| Analyzer.EntitiesDistinct | src/components/MermaidViewer.tsx:50 | no entity name is listed twice |
| Analyzer.EntitiesDeclared | src/components/MermaidViewer.tsx:46-54 | a name is listed exactly when some line declares it |
| Analyzer.EntitiesGrow | src/components/MermaidViewer.tsx:46-54 | what the loop lists after a prefix of the lines stays, in place, at the front of the final list |
| Analyzer.EntitiesInFirstOccurrenceOrder | src/components/MermaidViewer.tsx:46-54 | a name first declared on a later line is listed after a name declared on an earlier one |
| Analyzer.RelationshipsAppend | src/components/MermaidViewer.tsx:57-66 | the relationships of two runs of lines are the relationships of each, in order |
| Analyzer.RelationshipsPerLine | src/components/MermaidViewer.tsx:57-66 | each line contributes its own match in place: before, the line's match, after |
| Analyzer.RelationshipsWellFormed | src/components/MermaidViewer.tsx:57-66 | every parsed relationship of a split script is well formed and has no line feed in its label |
| Analyzer.QuoteFreeLinesYieldNothing | src/components/MermaidViewer.tsx:57-66 | lines without `"` yield no relationships |
| Analyzer.RelationshipLineDeclares | src/components/MermaidViewer.tsx:48-50 | a written relationship line declares its left-hand entity when its connector is `o\|--o{`, and declares nothing otherwise |
| Analyzer.OtherLineOpensNothing | src/components/MermaidViewer.tsx:48 | a relationship line with any connector but `o\|--o{` fails the entity test of line 48 |
| Analyzer.OpensEntity | src/components/MermaidViewer.tsx:48 | the entity test of line 48: `{` present, `||` and `}|` absent; `Analyzer.RelationshipLineDeclares` and `Analyzer.OtherLineOpensNothing` state which relationship lines pass it |
| Analyzer.DeclaredName | src/components/MermaidViewer.tsx:47-50 | the entity a line declares; `Analyzer.EntitiesDeclared` and `Analyzer.RelationshipLineDeclares` state what it accepts |
| Analyzer.EntitiesOf | src/components/MermaidViewer.tsx:46-54 | the list the first loop builds; `Analyzer.EntitiesDistinct`, `Analyzer.EntitiesDeclared` and `Analyzer.EntitiesInFirstOccurrenceOrder` characterise it |
| Analyzer.RelationshipOfLine | src/components/MermaidViewer.tsx:58-65 | what one line adds in the second loop: its match, or nothing; `Analyzer.RelationshipsPerLine` states that each line contributes it in place |
| Analyzer.RelationshipsOf | src/components/MermaidViewer.tsx:57-66 | the list the second loop builds; `Analyzer.RelationshipsPerLine` and `Analyzer.RelationshipsWellFormed` characterise it |
| Scope.TouchingCounts | src/components/MermaidViewer.tsx:77 | the filter keeps each relationship with the focus at one end as often as the script has it, and drops every other |
| Scope.TouchingAppend | src/components/MermaidViewer.tsx:77 | the filter keeps the script's order |
| Scope.ConnectedEntities | src/components/MermaidViewer.tsx:79-83 | the connected set is the focus plus both ends of every touching relationship |
| Scope.ScopeIsOneHop | src/components/MermaidViewer.tsx:79-83 | an entity is in the connected set exactly when it is the focus or a one-hop neighbour of it, in either direction |
| Scope.StrictFilterKeepsAll | src/components/MermaidViewer.tsx:85 | the strict filter leaves the touching relationships unchanged |
| Scope.BothInKeeps | src/components/MermaidViewer.tsx:85 | the strict filter keeps every relationship whose ends are both in the set |
| Scope.EntityBlocks | src/components/MermaidViewer.tsx:87-106 | the block loop computes the definitions of the block state machine |
| Scope.ScanKeepsInvariant | src/components/MermaidViewer.tsx:91-106 | the loop keeps its invariant: an open block is buffered from its opening line, and every emitted definition is a whole block of a connected entity |
| Scope.BlocksAreWholeBlocks | src/components/MermaidViewer.tsx:91-106 | every copied definition is a whole block (opening line to lone `}`) of a connected entity, joined with line feeds |
| Scope.BlockAppendedAtClose | src/components/MermaidViewer.tsx:98-101 | a whole block of a connected entity is appended, joined with line feeds, exactly at its closing `}` line and as that line's only change |
| Scope.NoCloseNoDef | src/components/MermaidViewer.tsx:91-106 | a line that does not close a whole block of a connected entity adds no definition, so no block is copied twice or at any other line |
| Scope.BlocksAllEmitted | src/components/MermaidViewer.tsx:91-106 | every whole block of a connected entity is copied |
| Scope.ScanOpenBlock | src/components/MermaidViewer.tsx:93-97 | after an opening line and lines that neither open nor close, the loop holds that block's name and buffers its lines |
| Scope.DefsGrow | src/components/MermaidViewer.tsx:99-101 | copied definitions are only ever appended |
| Scope.UnclosedBlockDropped | src/components/MermaidViewer.tsx:98-104 | a block never closed by a lone `}` is not copied |
| Scope.FormatAllRoundTrip | src/components/MermaidViewer.tsx:111 | re-parsing the regenerated relationship lines gives back the relationships, in order |
| Scope.GetFilteredScript | src/components/MermaidViewer.tsx:72-114 | the method returns the filtered script: the script itself without a focus or for a blank script, otherwise the reduced script |
| Scope.FilteredNoOp | src/components/MermaidViewer.tsx:73 | without a focus (none or empty) or for a blank script, the script is returned unchanged |
| Scope.ReducedEmitsTouching | src/components/MermaidViewer.tsx:74-112 | the reduced script is the header, the copied blocks and the lines of the touching relationships |
| Scope.ReducedStartsWithHeader | src/components/MermaidViewer.tsx:108-112 | the first line of a reduced script is `erDiagram` |
| Scope.ReducedReparses | src/components/MermaidViewer.tsx:108-112 | re-parsing a reduced script gives what the header and blocks yield, followed by the touching relationships |
| Scope.ReducedRelationshipsRoundTrip | src/components/MermaidViewer.tsx:72-114 | when no copied block holds a `"`, the reduced script parses to exactly the relationships touching the focus |
| Scope.BlocksBeforeRelationships | src/components/MermaidViewer.tsx:91-106 | when the block lines hold no `"` and every line after them does, no copied block holds a `"` |
| Scope.ClosingLineUnquoted | src/components/MermaidViewer.tsx:98 | a line that closes a block holds no `"` |
| Scope.Touching | src/components/MermaidViewer.tsx:77 | the filter on line 77 (and line 307); `Scope.TouchingCounts` and `Scope.TouchingAppend` state what it keeps and in which order |
| Scope.ScopeOf | src/components/MermaidViewer.tsx:79-83 | `connectedEntities`; `Scope.ScopeIsOneHop` states that it is the focus and its one-hop neighbours |
| Scope.BothIn | src/components/MermaidViewer.tsx:85 | the both-ends filter; `Scope.BothInKeeps` and `Scope.StrictFilterKeepsAll` state what it keeps |
| Scope.OpensBlock | src/components/MermaidViewer.tsx:93 | the block-opening test: ends with `{`, and `||` and `}|` absent; `Scope.ScanOpenBlock` states what the loop holds after it |
| Scope.InBlock | src/components/MermaidViewer.tsx:96 | `currentEntity` is truthy: set and not the empty string; `Scope.ScanKeepsInvariant` states that then a block is open and buffered |
| Scope.ScanLine | src/components/MermaidViewer.tsx:92-105 | one pass of the block loop, branch by branch; `Scope.ScanKeepsInvariant` states the invariant it keeps |
| Scope.ScanLines | src/components/MermaidViewer.tsx:91-106 | the block loop's state after a run of lines; `Scope.BlockAppendedAtClose` and `Scope.NoCloseNoDef` state what each line adds to its definitions, and `Scope.BlocksAreWholeBlocks` and `Scope.BlocksAllEmitted` state that they are exactly the whole in-scope blocks, each once, in the order of their closing lines |
| Scope.FormatAll | src/components/MermaidViewer.tsx:111 | the `map` on line 111; `Scope.FormatAllRoundTrip` states that its lines parse back to the relationships |
| Scope.NoFocus | src/components/MermaidViewer.tsx:73 | `!selectedTable`, also at lines 306 and 352: no selection, or the empty string; `Scope.FilteredNoOp`, `Highlight.SelectedRelationshipsCounts` and `Export.FocusPartLowered` state that all three places treat `""` as no selection |
| Scope.Reduced | src/components/MermaidViewer.tsx:74-112 | the script built once a focus is set; `Scope.ReducedEmitsTouching` and `Scope.ReducedReparses` state what it holds |
| Scope.FilteredScript | src/components/MermaidViewer.tsx:72-114 | what `getFilteredScript` returns; `Scope.FilteredNoOp` and `Scope.ReducedRelationshipsRoundTrip` state both branches |
| Scope.Adjacent | src/components/MermaidViewer.tsx:79-83 | one-hop neighbour, in either direction; `Scope.ScopeIsOneHop` and `Highlight.LinkedMembers` state that both connected sets are the focus plus exactly these |
| Highlight.ConnectedEntitySet | src/components/MermaidViewer.tsx:219-229 | the loop builds the focus plus every entity at the other end of a relationship with the focus |
| Highlight.LinkedMembers | src/components/MermaidViewer.tsx:219-229 | that set holds exactly the focus and its one-hop neighbours |
| Highlight.LinkedIsScope | src/components/MermaidViewer.tsx:219-229 | the highlight's set equals the connected set of the reduced script |
| Highlight.ClassifyPartition | src/components/MermaidViewer.tsx:236-251 | an element is focused exactly when it is the selection, connected exactly when it is a one-hop neighbour of it, dimmed otherwise, and never left neutral |
| Highlight.TwoHopsDimmed | src/components/MermaidViewer.tsx:236-251 | an entity all of whose relationships miss the focus is dimmed |
| Highlight.SelectedRelationshipsCounts | src/components/MermaidViewer.tsx:305-308 | the list is empty without a focus; otherwise it holds each relationship touching the focus as often as the script has it, and nothing else |
| Highlight.ListedAreHighlighted | src/components/MermaidViewer.tsx:467-471 | every entity shown beside a listed relationship is highlighted as focused or connected |
| Highlight.ListMatchesReducedDiagram | src/components/MermaidViewer.tsx:305-308 | the list equals the relationships of the reduced diagram, when no copied block holds a `"` |
| Highlight.Linked | src/components/MermaidViewer.tsx:219-229 | the set the `forEach` builds; `Highlight.LinkedMembers` and `Highlight.LinkedIsScope` characterise it |
| Highlight.Classify | src/components/MermaidViewer.tsx:238-251 | the branch taken for one element; `Highlight.ClassifyPartition` states when each class is chosen |
| Highlight.SelectedRelationships | src/components/MermaidViewer.tsx:305-308 | `getSelectedTableRelationships`; `Highlight.SelectedRelationshipsCounts` states what it holds |
| Highlight.OtherEnd | src/components/MermaidViewer.tsx:470 | the entity shown beside a listed relationship; `Highlight.ListedAreHighlighted` states that it is always highlighted |
| Selection.Toggle | src/components/MermaidViewer.tsx:199-209 | a click clears the selection exactly when it hits the selected entity, and otherwise selects the clicked entity |
| Selection.ToggleTwiceFromNothing | src/components/MermaidViewer.tsx:199-209 | two clicks on one entity return to no selection |
| Selection.ToggleSwitches | src/components/MermaidViewer.tsx:204-207 | a click on another entity moves the selection there directly |
| Selection.DropdownNext | src/components/MermaidViewer.tsx:421-428 | the empty option clears the selection; any other option acts as a click on it |
| Selection.Viewer.constructor | src/components/MermaidViewer.tsx:25-28 | the component starts with nothing selected, highlight mode off and empty lists |
| Selection.Viewer.Rendered | src/components/MermaidViewer.tsx:124-137 | a render of a non-blank script (a blank one stops at line 118) stores the parsed lists of the script and draws every tagged element plain, keeping the selection |
| Selection.Viewer.HighlightConnectedEntities | src/components/MermaidViewer.tsx:212-251 | every element with a non-empty tag gets its class against the selection; an element with an empty tag keeps its look |
| Selection.Viewer.ResetHighlighting | src/components/MermaidViewer.tsx:277-292 | every tagged element loses its highlight, and nothing else changes |
| Selection.Viewer.HandleEntityClick | src/components/MermaidViewer.tsx:199-209 | the selection toggles, highlight mode follows it, and every element is drawn as the new selection says |
| Selection.Viewer.HandleClearSelection | src/components/MermaidViewer.tsx:317-321 | the selection is cleared, highlight mode is off and every element is plain |
| Selection.Viewer.SelectFromDropdown | src/components/MermaidViewer.tsx:421-428 | the selection moves as the dropdown rule says, and every element is drawn as the new selection says |
| Selection.ShadeFor | src/components/MermaidViewer.tsx:236-251 | how an element should look for a selection; `Selection.Viewer.HandleEntityClick` and the other handlers ensure every element looks so |
| Export.PadRoundTrip | src/components/MermaidViewer.tsx:350 | below 100, `pad` gives two digits that read back as the number |
| Export.DateStampRoundTrip | src/components/MermaidViewer.tsx:351 | for a four-digit year the stamp is 15 characters with `-` at index 8, and each field reads back from its place, the month as the calendar month |
| Export.ExportNameShape | src/components/MermaidViewer.tsx:353 | the name is `er-diagram-`, the focus part, `-`, the date stamp and `.svg`, each at its place |
| Export.FocusPartLowered | src/components/MermaidViewer.tsx:352 | the focus part is `all` without a selection; otherwise it has the selection's length, each capital `A`-`Z` becomes its small letter and every other character is kept at its place, so no capital is left |
| Export.AllTableLooksUnfocused | src/components/MermaidViewer.tsx:352 | a table named `ALL` exports under the same focus part as no selection |
| Export.Pad | src/components/MermaidViewer.tsx:350 | `pad`; `Export.PadRoundTrip` states that below 100 it gives two digits that read back as the number |
| Export.DateStamp | src/components/MermaidViewer.tsx:351 | `dateStr`; `Export.DateStampRoundTrip` states its width and that each field reads back |
| Export.FocusPart | src/components/MermaidViewer.tsx:352 | `focus`; `Export.FocusPartLowered` states that it is `all` or the lower-cased selection |
| Export.ExportName | src/components/MermaidViewer.tsx:353 | `filename`; `Export.ExportNameShape` states its layout |
| Fixture.RelsWellFormed | src/components/MermaidEditor.tsx:68-73 | the sample's six relationships are well formed |
| Fixture.SampleParses | src/components/MermaidEditor.tsx:14-73 | the sample splits into its lines and parses to its six relationships, in order |
| Fixture.FocusOnProfile | src/components/MermaidEditor.tsx:68 | focusing `Profile` draws only `User \|\|--o\| Profile` |
| Fixture.TouchingUser | src/components/MermaidEditor.tsx:68-70 | the relationships touching `User` are its three, and its scope is User, Profile, Post and Comment |
| Fixture.FocusOnUser | src/components/MermaidEditor.tsx:68-73 | focusing `User` draws its three relationships, and not `Post \|\|--o{ Comment` although both ends are in scope |
| Fixture.FocusReparses | src/components/MermaidEditor.tsx:14-73 | for any non-empty focus, the reduced sample parses to the sample's relationships touching it |
| Fixture.HighlightUser | src/components/MermaidEditor.tsx:68-73 | with `User` selected, User is focused, Profile, Post and Comment are connected, Category and PostCategory are dimmed |

## Left out

- Mermaid itself is not modelled: initialisation, `mermaid.render`, and
  the SVG it produces. The drawn diagram enters the model only as the
  sequence of `data-entity` tags its elements carry (`Viewer.Rendered`).
- `renderDiagram` is modelled only in its effect on the parsed lists and
  the shades. Its asynchrony, the toasts, `Date.now()` ids and the
  `onRenderComplete` callback are left out, because they are I/O and
  timing.
- `addClickHandlers` and the DOM work of the highlight are left out
  (attribute and style writes, colours, outlines). The model keeps one
  `Shade` per tagged element. One consequence: re-highlighting without a
  reset leaves attributes of the earlier highlight in place (for example
  an old stroke on a newly dimmed element), and the model does not
  capture that.
- The fallback pass over `rect` elements (lines 255-274 and 295-301) is
  left out. It reads label text from the SVG, which lies outside the
  model.
- The React effect of lines 311-315 is left out. It re-renders whenever
  `selectedTable` changes, which in the running component redraws the
  diagram after a click. The model treats a render as a separate step.
- The `containerRef.current` and missing-`svg` guards are left out. They
  depend on the DOM. The model assumes a mounted diagram.
- `handleExportImage` is modelled for its file name only. Serialising the
  SVG, the blob, the download link and the clock are left out: the date
  fields are parameters.
- Selection.Viewer.SelectFromDropdown: a browser fires `onChange` only
  when the chosen option differs from the shown one. The model takes any
  value, so choosing the selected table again toggles it off here.
- Text.Trim, Text.ToLower, Pattern.MatchAt: only ASCII whitespace and
  ASCII capitals are handled, both in `trim` and in the `\s` of the
  line-59 pattern. JavaScript's Unicode whitespace (such as U+00A0 and
  U+FEFF) and its Unicode case mapping are not modelled.
- Scope.ReducedRelationshipsRoundTrip, Highlight.ListMatchesReducedDiagram:
  proved only when no copied block holds a `"`. A block line with a quoted
  relationship-like text would add relationships when re-parsed.
- Analyzer.RelationshipLineDeclares: stated for labels without `|` or
  `}`. Such a character in the label can make line 48 reject the line.
- Export.DateStampRoundTrip: stated for four-digit years. Other years
  change the width of the stamp.
