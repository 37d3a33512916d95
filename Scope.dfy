/** `getFilteredScript` (MermaidViewer.tsx): the script reduced to the
    selected entity, the entities it is directly related to, their
    definition blocks copied verbatim, and regenerated relationship lines. */
module Scope {
  import opened Wrappers
  import opened Text
  import opened Pattern
  import opened Analyzer

  /** A relationship has the focus at one of its ends. */
  predicate Touches(r: Relationship, focus: string) {
    r.from == focus || r.to == focus
  }

  /** `rels.filter(rel => rel.from === focus || rel.to === focus)` (lines 77 and 307). */
  function Touching(rels: seq<Relationship>, focus: string): seq<Relationship> {
    if rels == [] then []
    else (if Touches(rels[0], focus) then [rels[0]] else []) + Touching(rels[1..], focus)
  }

  /** The filter keeps exactly the touching relationships, each as often as
      it occurs (duplicate lines stay duplicated). */
  lemma {:induction false} TouchingCounts(rels: seq<Relationship>, focus: string, r: Relationship)
    ensures multiset(Touching(rels, focus))[r] == if Touches(r, focus) then multiset(rels)[r] else 0
  {
    if rels != [] {
      TouchingCounts(rels[1..], focus, r);
      assert rels == [rels[0]] + rels[1..];
    }
  }

  /** The filter keeps the original order: it distributes over concatenation. */
  lemma {:induction false} TouchingAppend(a: seq<Relationship>, b: seq<Relationship>, focus: string)
    ensures Touching(a + b, focus) == Touching(a, focus) + Touching(b, focus)
  {
    if a != [] {
      assert (a + b)[1..] == a[1..] + b;
      TouchingAppend(a[1..], b, focus);
    } else {
      assert a + b == b;
    }
  }

  /** Every entity named at either end of some relationship. */
  function Endpoints(rels: seq<Relationship>): set<string> {
    if rels == [] then {} else {rels[0].from, rels[0].to} + Endpoints(rels[1..])
  }

  lemma {:induction false} EndpointsMember(rels: seq<Relationship>, x: string)
    ensures x in Endpoints(rels) <==> exists r :: r in rels && (r.from == x || r.to == x)
  {
    if rels != [] {
      EndpointsMember(rels[1..], x);
      assert rels == [rels[0]] + rels[1..];
    }
  }

  /** `connectedEntities` (lines 79-83): the focus and both ends of every
      relationship that touches it. */
  function ScopeOf(rels: seq<Relationship>, focus: string): set<string> {
    {focus} + Endpoints(Touching(rels, focus))
  }

  /** `x` is a one-hop neighbour of `focus`: some relationship runs from
      `focus` to `x`, or from `x` to `focus`. */
  predicate Adjacent(rels: seq<Relationship>, focus: string, x: string) {
    exists r :: r in rels && ((r.from == focus && r.to == x) || (r.to == focus && r.from == x))
  }

  /** The scope is the focus and its one-hop neighbours, in either direction. */
  lemma ScopeIsOneHop(rels: seq<Relationship>, focus: string, x: string)
    ensures x in ScopeOf(rels, focus) <==> x == focus || Adjacent(rels, focus, x)
  {
    EndpointsMember(Touching(rels, focus), x);
    if exists r :: r in Touching(rels, focus) && (r.from == x || r.to == x) {
      var r :| r in Touching(rels, focus) && (r.from == x || r.to == x);
      TouchingCounts(rels, focus, r);
      assert r in rels;
    }
    if Adjacent(rels, focus, x) {
      var r :| r in rels && ((r.from == focus && r.to == x) || (r.to == focus && r.from == x));
      TouchingCounts(rels, focus, r);
      assert r in Touching(rels, focus);
    }
  }

  /** Both ends of a relationship added at the back join the endpoints. */
  lemma {:induction false} EndpointsSnoc(rels: seq<Relationship>, r: Relationship)
    ensures Endpoints(rels + [r]) == Endpoints(rels) + {r.from, r.to}
  {
    if rels != [] {
      assert (rels + [r])[1..] == rels[1..] + [r];
      EndpointsSnoc(rels[1..], r);
    } else {
      assert rels + [r] == [r];
    }
  }

  /** The `forEach` of lines 79-83: start from the focus, add both ends of
      each relationship in turn. */
  method ConnectedEntities(direct: seq<Relationship>, focus: string) returns (connected: set<string>)
    ensures connected == {focus} + Endpoints(direct)
  {
    connected := {focus};
    for i := 0 to |direct|
      invariant connected == {focus} + Endpoints(direct[..i])
    {
      assert direct[..i + 1] == direct[..i] + [direct[i]];
      EndpointsSnoc(direct[..i], direct[i]);
      connected := connected + {direct[i].from, direct[i].to};
    }
    assert direct[..|direct|] == direct;
  }

  /** `rels.filter(rel => scope.has(rel.from) && scope.has(rel.to))` (line 85). */
  function BothIn(rels: seq<Relationship>, scope: set<string>): seq<Relationship> {
    if rels == [] then []
    else (if rels[0].from in scope && rels[0].to in scope then [rels[0]] else [])
         + BothIn(rels[1..], scope)
  }

  /** Line 85 changes nothing: it filters the touching relationships, and
      both ends of each of those are in the scope. */
  lemma StrictFilterKeepsAll(rels: seq<Relationship>, focus: string)
    ensures BothIn(Touching(rels, focus), ScopeOf(rels, focus)) == Touching(rels, focus)
  {
    var direct := Touching(rels, focus);
    forall r | r in direct ensures r.from in ScopeOf(rels, focus) && r.to in ScopeOf(rels, focus) {
      EndpointsMember(direct, r.from);
      EndpointsMember(direct, r.to);
    }
    BothInKeeps(direct, ScopeOf(rels, focus));
  }

  lemma {:induction false} BothInKeeps(rels: seq<Relationship>, scope: set<string>)
    requires forall r :: r in rels ==> r.from in scope && r.to in scope
    ensures BothIn(rels, scope) == rels
  {
    if rels != [] {
      assert rels[0] in rels;
      assert forall r :: r in rels[1..] ==> r in rels;
      BothInKeeps(rels[1..], scope);
    }
  }

  /** Line 93: a trimmed line opens a block when it ends with `{` and holds
      neither `||` nor `}|`. */
  predicate OpensBlock(t: string) {
    EndsWith(t, '{') && !Contains(t, "||") && !Contains(t, "}|")
  }

  /** The loop state of lines 89-106: `currentEntity`, `buffer`, `entityDefs`. */
  datatype BlockScan = BlockScan(current: Option<string>, buffer: seq<string>, defs: seq<string>)

  const Start := BlockScan(None, [], [])

  /** `currentEntity` is truthy: set, and not the empty string. */
  predicate InBlock(st: BlockScan) {
    st.current.Some? && st.current.value != ""
  }

  /** One iteration of the loop at lines 91-106. */
  function ScanLine(st: BlockScan, line: string, scope: set<string>): BlockScan {
    var t := Trim(line);
    if OpensBlock(t) then BlockScan(Some(FirstToken(t)), [line], st.defs)
    else if InBlock(st) then
      var buffer := st.buffer + [line];
      if t == "}" then
        BlockScan(None, [], if st.current.value in scope then st.defs + [Join(buffer, '\n')] else st.defs)
      else BlockScan(st.current, buffer, st.defs)
    else st
  }

  /** The loop state after it has seen `lines`. */
  function ScanLines(lines: seq<string>, scope: set<string>): BlockScan {
    if lines == [] then Start
    else ScanLine(ScanLines(lines[..|lines| - 1], scope), lines[|lines| - 1], scope)
  }

  /** Lines 87-106: the definition blocks of the entities in `scope`. */
  method EntityBlocks(lines: seq<string>, scope: set<string>) returns (entityDefs: seq<string>)
    ensures entityDefs == ScanLines(lines, scope).defs
  {
    entityDefs := [];
    var currentEntity: Option<string> := None;
    var buffer: seq<string> := [];
    for i := 0 to |lines|
      invariant ScanLines(lines[..i], scope) == BlockScan(currentEntity, buffer, entityDefs)
    {
      assert lines[..i + 1][..i] == lines[..i];
      var line := lines[i];
      var trimmed := Trim(line);
      if EndsWith(trimmed, '{') && !Contains(trimmed, "||") && !Contains(trimmed, "}|") {
        currentEntity := Some(FirstToken(trimmed));
        buffer := [line];
      } else if currentEntity.Some? && currentEntity.value != "" {
        buffer := buffer + [line];
        if trimmed == "}" {
          if currentEntity.value in scope {
            entityDefs := entityDefs + [Join(buffer, '\n')];
          }
          currentEntity := None;
          buffer := [];
        }
      }
    }
    assert lines[..|lines|] == lines;
  }

  /** Lines `lines[i..j+1]` form a block: `lines[i]` opens it, `lines[j]` is
      a lone `}`, and no line between them opens or closes a block. */
  ghost predicate BlockAt(lines: seq<string>, i: int, j: int) {
    0 <= i < j < |lines| && OpensBlock(Trim(lines[i])) && Trim(lines[j]) == "}" &&
    forall k :: i < k < j ==> !OpensBlock(Trim(lines[k])) && Trim(lines[k]) != "}"
  }

  /** The name a block is filed under (`trimmed.split(' ')[0]`). */
  function BlockName(lines: seq<string>, i: int): string
    requires 0 <= i < |lines|
  {
    FirstToken(Trim(lines[i]))
  }

  /** `def` is the block `lines[i..j+1]` of an entity in scope, joined. */
  ghost predicate EmitsBlock(lines: seq<string>, scope: set<string>, def: string, i: int, j: int) {
    BlockAt(lines, i, j) && BlockName(lines, i) in scope && def == Join(lines[i..j + 1], '\n')
  }

  /** Inside an open block the buffer holds the block's lines so far. */
  ghost predicate OpenSince(lines: seq<string>, st: BlockScan, i: int) {
    0 <= i < |lines| && OpensBlock(Trim(lines[i])) && st.current == Some(BlockName(lines, i)) &&
    st.buffer == lines[i..] &&
    forall k :: i < k < |lines| ==> !OpensBlock(Trim(lines[k])) && Trim(lines[k]) != "}"
  }

  /** What the loop keeps true: an open block is buffered from its opening
      line, and every emitted definition is a whole block of an in-scope
      entity. */
  ghost predicate ScanInvariant(lines: seq<string>, scope: set<string>, st: BlockScan) {
    (InBlock(st) ==> exists i :: OpenSince(lines, st, i)) &&
    (forall d :: d in st.defs ==> exists i, j :: EmitsBlock(lines, scope, d, i, j))
  }

  lemma EmitsBlockExtend(lines: seq<string>, line: string, scope: set<string>, d: string, i: int, j: int)
    requires EmitsBlock(lines, scope, d, i, j)
    ensures EmitsBlock(lines + [line], scope, d, i, j)
  {
    var ext := lines + [line];
    assert ext[i..j + 1] == lines[i..j + 1];
    assert forall k :: 0 <= k < |lines| ==> ext[k] == lines[k];
  }

  lemma {:induction false} ScanKeepsInvariant(lines: seq<string>, scope: set<string>)
    ensures ScanInvariant(lines, scope, ScanLines(lines, scope))
  {
    if lines != [] {
      var init := lines[..|lines| - 1];
      var line := lines[|lines| - 1];
      assert lines == init + [line];
      var st := ScanLines(init, scope);
      ScanKeepsInvariant(init, scope);
      var t := Trim(line);
      var st' := ScanLine(st, line, scope);
      forall d | d in st.defs ensures exists i, j :: EmitsBlock(lines, scope, d, i, j) {
        var i, j :| EmitsBlock(init, scope, d, i, j);
        EmitsBlockExtend(init, line, scope, d, i, j);
      }
      if OpensBlock(t) {
        assert lines[|lines| - 1..] == [line];
        assert OpenSince(lines, st', |lines| - 1);
      } else if InBlock(st) {
        var i :| OpenSince(init, st, i);
        assert lines[i..] == init[i..] + [line];
        assert forall k :: 0 <= k < |init| ==> lines[k] == init[k];
        if t == "}" {
          if st.current.value in scope {
            var j := |lines| - 1;
            assert lines[i..j + 1] == st.buffer + [line];
            assert BlockName(lines, i) == BlockName(init, i);
            assert BlockAt(lines, i, j);
            assert EmitsBlock(lines, scope, Join(st.buffer + [line], '\n'), i, j);
          }
        } else {
          assert OpenSince(lines, st', i);
        }
      }
    }
  }

  /** Every emitted definition is, verbatim, one whole block of an entity in
      the scope. */
  lemma BlocksAreWholeBlocks(lines: seq<string>, scope: set<string>, d: string)
    requires d in ScanLines(lines, scope).defs
    ensures exists i, j :: EmitsBlock(lines, scope, d, i, j)
  {
    ScanKeepsInvariant(lines, scope);
  }

  /** The definitions emitted so far stay, in order, at the front: blocks
      come out in script order. */
  lemma {:induction false} DefsGrow(lines: seq<string>, scope: set<string>, n: nat)
    requires n <= |lines|
    ensures ScanLines(lines[..n], scope).defs <= ScanLines(lines, scope).defs
    decreases |lines| - n
  {
    if n < |lines| {
      var init := lines[..|lines| - 1];
      assert init[..n] == lines[..n];
      DefsGrow(init, scope, n);
    } else {
      assert lines[..n] == lines;
    }
  }

  /** After a block's opening line and lines that neither open nor close a
      block, the loop holds that block in its buffer. */
  lemma {:induction false} ScanOpenBlock(lines: seq<string>, scope: set<string>, i: nat, n: nat)
    requires i < n <= |lines| && OpensBlock(Trim(lines[i]))
    requires forall k :: i < k < n ==> !OpensBlock(Trim(lines[k])) && Trim(lines[k]) != "}"
    ensures ScanLines(lines[..n], scope).current == Some(BlockName(lines, i))
    ensures ScanLines(lines[..n], scope).buffer == lines[i..n]
  {
    var pre := lines[..n];
    assert pre[..n - 1] == lines[..n - 1];
    if n - 1 > i {
      ScanOpenBlock(lines, scope, i, n - 1);
      var t := Trim(lines[n - 1]);
      assert !OpensBlock(t) && t != "}";
      NamedBlock(lines[i]);
      assert lines[i..n] == lines[i..n - 1] + [lines[n - 1]];
    }
  }

  /** The name of a block is never empty: a trimmed line with text starts
      with a character other than a space. */
  lemma NamedBlock(line: string)
    requires OpensBlock(Trim(line))
    ensures FirstToken(Trim(line)) != ""
  {
    var _ := TrimSpec(line);
    var t := Trim(line);
    assert t != [] && t[0] != ' ';
    assert FirstToken(t) == [t[0]] + FirstToken(t[1..]);
  }

  /** Every whole block of an in-scope entity is emitted. */
  lemma BlocksAllEmitted(lines: seq<string>, scope: set<string>, i: nat, j: nat)
    requires BlockAt(lines, i, j) && BlockName(lines, i) in scope
    ensures Join(lines[i..j + 1], '\n') in ScanLines(lines, scope).defs
  {
    var st := ScanLines(lines[..j], scope);
    var def := Join(lines[i..j + 1], '\n');
    BlockAppendedAtClose(lines, scope, i, j);
    DefsGrow(lines, scope, j + 1);
    var all := ScanLines(lines, scope).defs;
    assert all[|st.defs|] == def;
  }

  /** A whole block of an entity in scope is appended exactly when the
      loop reaches its closing `}`, and as the only change at that line. */
  lemma BlockAppendedAtClose(lines: seq<string>, scope: set<string>, i: nat, j: nat)
    requires BlockAt(lines, i, j) && BlockName(lines, i) in scope
    ensures ScanLines(lines[..j + 1], scope).defs ==
            ScanLines(lines[..j], scope).defs + [Join(lines[i..j + 1], '\n')]
  {
    ScanOpenBlock(lines, scope, i, j);
    assert lines[..j + 1][..j] == lines[..j];
    assert lines[i..j + 1] == lines[i..j] + [lines[j]];
    NamedBlock(lines[i]);
  }

  /** A line that does not close a whole block of an entity in scope adds
      no definition: nothing is copied twice or at any other line. */
  lemma NoCloseNoDef(lines: seq<string>, scope: set<string>, n: nat)
    requires n < |lines|
    requires forall i :: !(BlockAt(lines, i, n) && BlockName(lines, i) in scope)
    ensures ScanLines(lines[..n + 1], scope).defs == ScanLines(lines[..n], scope).defs
  {
    var pre := lines[..n];
    var st := ScanLines(pre, scope);
    assert lines[..n + 1][..n] == pre;
    var t := Trim(lines[n]);
    if !OpensBlock(t) && InBlock(st) && t == "}" && st.current.value in scope {
      ScanKeepsInvariant(pre, scope);
      var i :| OpenSince(pre, st, i);
      assert BlockAt(lines, i, n) && BlockName(lines, i) in scope by {
        assert lines[i] == pre[i];
        forall k | i < k < n ensures !OpensBlock(Trim(lines[k])) && Trim(lines[k]) != "}" {
          assert lines[k] == pre[k];
        }
      }
      assert false;
    }
  }

  /** A block left open at the end of the script is dropped: lines after the
      last closing `}` add no definition. */
  lemma {:induction false} UnclosedBlockDropped(lines: seq<string>, extra: seq<string>, scope: set<string>)
    requires forall k :: 0 <= k < |extra| ==> Trim(extra[k]) != "}"
    ensures ScanLines(lines + extra, scope).defs == ScanLines(lines, scope).defs
    decreases |extra|
  {
    if extra == [] {
      assert lines + extra == lines;
    } else {
      var e' := extra[..|extra| - 1];
      assert (lines + extra)[..|lines + extra| - 1] == lines + e';
      UnclosedBlockDropped(lines, e', scope);
    }
  }

  /** `strict.map(rel => `${from} ${type} ${to} : "${label}"`)` (line 111). */
  function FormatAll(rels: seq<Relationship>): (lines: seq<string>)
    ensures |lines| == |rels|
  {
    if rels == [] then [] else [Format(rels[0])] + FormatAll(rels[1..])
  }

  /** Re-parsing the regenerated relationship lines gives back the
      relationships they were generated from, in order. */
  lemma {:induction false} FormatAllRoundTrip(rels: seq<Relationship>)
    requires forall r :: r in rels ==> WellFormed(r) && '\n' !in r.caption
    ensures RelationshipsOf(FormatAll(rels)) == rels
  {
    if rels != [] {
      var r, rest := rels[0], rels[1..];
      assert WellFormed(r) && '\n' !in r.caption by {
        assert r in rels;
      }
      assert RelationshipsOf(FormatAll(rest)) == rest by {
        assert forall x :: x in rest ==> x in rels;
        FormatAllRoundTrip(rest);
      }
      var line := Format(r);
      assert RelationshipOfLine(line) == [r] by {
        FormatRoundTrip(r);
        FormatIsTrimmedLine(r);
      }
      assert RelationshipsOf(FormatAll(rels)) == [r] + rest by {
        assert FormatAll(rels) == [line] + FormatAll(rest);
        RelationshipsAppend([line], FormatAll(rest));
        RelationshipsOfOne(line);
      }
      assert rels == [r] + rest;
    }
  }

  /** No regenerated relationship line holds a line feed. */
  lemma FormatAllLines(rels: seq<Relationship>)
    requires forall r :: r in rels ==> WellFormed(r) && '\n' !in r.caption
    ensures forall k :: 0 <= k < |rels| ==> '\n' !in FormatAll(rels)[k]
  {
    forall k | 0 <= k < |rels| ensures '\n' !in FormatAll(rels)[k] {
      FormatAllAt(rels, k);
      assert rels[k] in rels;
      NoLineFeed(rels[k]);
    }
  }

  lemma {:induction false} FormatAllAt(rels: seq<Relationship>, k: nat)
    requires k < |rels|
    ensures FormatAll(rels)[k] == Format(rels[k])
  {
    if k > 0 {
      FormatAllAt(rels[1..], k - 1);
    }
  }

  /** `!selectedTable`: no focus is set, or it is the empty string. */
  predicate NoFocus(selected: Option<string>) {
    selected.None? || selected.value == ""
  }

  /** The text lines 74-112 build once a focus is set and the script is not blank. */
  function Reduced(script: string, focus: string): string {
    var lines := Lines(script);
    var rels := RelationshipsOf(lines);
    var scope := ScopeOf(rels, focus);
    Join(["erDiagram"] + ScanLines(lines, scope).defs + FormatAll(BothIn(Touching(rels, focus), scope)), '\n')
  }

  /** What `getFilteredScript` returns. */
  function FilteredScript(script: string, selected: Option<string>): string {
    if NoFocus(selected) || Trim(script) == "" then script else Reduced(script, selected.value)
  }

  /** `getFilteredScript` (lines 72-114). */
  method GetFilteredScript(script: string, selectedTable: Option<string>) returns (filtered: string)
    ensures filtered == FilteredScript(script, selectedTable)
  {
    if selectedTable.None? || selectedTable.value == "" || Trim(script) == "" {
      return script;
    }
    var focus := selectedTable.value;
    var allRelationships, allEntities := ParseRelationships(script);
    var filteredRelationships := Touching(allRelationships, focus);
    var connectedEntities := ConnectedEntities(filteredRelationships, focus);
    var strictRelationships := BothIn(filteredRelationships, connectedEntities);
    var lines := Lines(script);
    var entityDefs := EntityBlocks(lines, connectedEntities);
    filtered := Join(["erDiagram"] + entityDefs + FormatAll(strictRelationships), '\n');
  }

  /** With no focus, or a blank script, the script is returned unchanged. */
  lemma FilteredNoOp(script: string, selected: Option<string>)
    requires NoFocus(selected) || Trim(script) == ""
    ensures FilteredScript(script, selected) == script
  {
  }

  /** The reduced script lists `erDiagram`, the in-scope blocks, and then
      exactly the relationships that touch the focus, in script order: the
      filter of line 85 drops none of them, so a relationship between two
      neighbours of the focus is not emitted. */
  lemma ReducedEmitsTouching(script: string, focus: string)
    ensures Reduced(script, focus) ==
            Join(["erDiagram"] + ScanLines(Lines(script), ScopeOf(RelationshipsOf(Lines(script)), focus)).defs
                 + FormatAll(Touching(RelationshipsOf(Lines(script)), focus)), '\n')
  {
    StrictFilterKeepsAll(RelationshipsOf(Lines(script)), focus);
  }

  /** A text joined from `erDiagram` and further lines starts with the
      line `erDiagram`. */
  lemma HeaderFirst(rest: seq<string>)
    ensures Lines(Join(["erDiagram"] + rest, '\n'))[0] == "erDiagram"
  {
    if rest == [] {
      assert ["erDiagram"] + rest == ["erDiagram"];
      LinesOfLine("erDiagram");
    } else {
      JoinCons("erDiagram", rest, '\n');
      LinesCons("erDiagram", Join(rest, '\n'));
    }
  }

  /** The first line of a reduced script is `erDiagram`. */
  lemma ReducedStartsWithHeader(script: string, focus: string)
    ensures Lines(Reduced(script, focus))[0] == "erDiagram"
  {
    var lines := Lines(script);
    var rels := RelationshipsOf(lines);
    var scope := ScopeOf(rels, focus);
    var defs := ScanLines(lines, scope).defs;
    var tail := FormatAll(BothIn(Touching(rels, focus), scope));
    assert ["erDiagram"] + defs + tail == ["erDiagram"] + (defs + tail);
    HeaderFirst(defs + tail);
  }

  /** Lines of relationships appended after a head re-parse to those
      relationships after whatever the head yields. */
  lemma ReparseAppended(head: seq<string>, rels: seq<Relationship>)
    requires head != []
    requires forall r :: r in rels ==> WellFormed(r) && '\n' !in r.caption
    ensures RelationshipsOf(Lines(Join(head + FormatAll(rels), '\n'))) ==
            RelationshipsOf(Lines(Join(head, '\n'))) + rels
  {
    FormatAllRoundTrip(rels);
    FormatAllLines(rels);
    var tail := FormatAll(rels);
    if tail == [] {
      assert head + tail == head;
    } else {
      JoinAppend(head, tail, '\n');
      LinesAppend(Join(head, '\n'), Join(tail, '\n'));
      LinesJoin(tail);
      RelationshipsAppend(Lines(Join(head, '\n')), tail);
    }
  }

  /** Read back by the analyzer, the reduced script yields the relationships
      found in its header and blocks, followed by exactly the relationships
      that touch the focus. */
  lemma ReducedReparses(script: string, focus: string)
    ensures RelationshipsOf(Lines(Reduced(script, focus))) ==
            RelationshipsOf(Lines(Join(["erDiagram"] + ScanLines(Lines(script), ScopeOf(RelationshipsOf(Lines(script)), focus)).defs, '\n')))
            + Touching(RelationshipsOf(Lines(script)), focus)
  {
    var lines := Lines(script);
    var rels := RelationshipsOf(lines);
    var scope := ScopeOf(rels, focus);
    var head := ["erDiagram"] + ScanLines(lines, scope).defs;
    var direct := Touching(rels, focus);
    assert BothIn(direct, scope) == direct by {
      StrictFilterKeepsAll(rels, focus);
    }
    assert forall r :: r in direct ==> WellFormed(r) && '\n' !in r.caption by {
      RelationshipsWellFormed(lines);
      forall r | r in direct ensures r in rels {
        TouchingCounts(rels, focus, r);
      }
    }
    assert Reduced(script, focus) == Join(head + FormatAll(direct), '\n');
    ReparseAppended(head, direct);
  }

  /** A header and quote-free blocks yield no relationship when read back. */
  lemma QuoteFreeHead(defs: seq<string>)
    requires forall d :: d in defs ==> '"' !in d
    ensures RelationshipsOf(Lines(Join(["erDiagram"] + defs, '\n'))) == []
  {
    var head := ["erDiagram"] + defs;
    forall k | 0 <= k < |head| ensures '"' !in head[k] {
      if k > 0 {
        assert head[k] == defs[k - 1];
      }
    }
    JoinAvoids(head, '\n', '"');
    LinesAvoid(Join(head, '\n'), '"');
    QuoteFreeLinesYieldNothing(Lines(Join(head, '\n')));
  }

  /** When no emitted block holds a `"`, the reduced script yields exactly the
      relationships touching the focus. */
  lemma ReducedRelationshipsRoundTrip(script: string, focus: string)
    requires forall d :: d in ScanLines(Lines(script), ScopeOf(RelationshipsOf(Lines(script)), focus)).defs ==> '"' !in d
    ensures RelationshipsOf(Lines(Reduced(script, focus))) == Touching(RelationshipsOf(Lines(script)), focus)
  {
    QuoteFreeHead(ScanLines(Lines(script), ScopeOf(RelationshipsOf(Lines(script)), focus)).defs);
    ReducedReparses(script, focus);
  }

  /** A line that closes a block holds no `"`. */
  lemma ClosingLineUnquoted(line: string)
    requires Trim(line) == "}"
    ensures '"' !in line
  {
    var i := TrimSpec(line);
    forall k | 0 <= k < |line| ensures line[k] != '"' {
      if k < i {
        assert IsSpace(line[..i][k]);
      } else if k > i {
        assert IsSpace(line[i + 1..][k - i - 1]);
      }
    }
  }

  /** In a script whose blocks all come before its relationship lines, and
      whose blocks hold no `"`, no copied block holds a `"`. */
  lemma BlocksBeforeRelationships(pre: seq<string>, post: seq<string>, scope: set<string>)
    requires forall k :: 0 <= k < |pre| ==> '"' !in pre[k]
    requires forall k :: 0 <= k < |post| ==> '"' in post[k]
    ensures forall d :: d in ScanLines(pre + post, scope).defs ==> '"' !in d
  {
    forall k | 0 <= k < |post| ensures Trim(post[k]) != "}" {
      if Trim(post[k]) == "}" {
        ClosingLineUnquoted(post[k]);
      }
    }
    UnclosedBlockDropped(pre, post, scope);
    forall d | d in ScanLines(pre, scope).defs ensures '"' !in d {
      BlocksAreWholeBlocks(pre, scope, d);
      var i, j :| EmitsBlock(pre, scope, d, i, j);
      var block := pre[i..j + 1];
      forall k | 0 <= k < |block| ensures '"' !in block[k] {
        assert block[k] == pre[i + k];
      }
      JoinAvoids(block, '\n', '"');
    }
  }
}
