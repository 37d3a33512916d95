/** `parseRelationships` (MermaidViewer.tsx): scans the script line by
    line, once for entity names and once for relationship lines. */
module Analyzer {
  import opened Wrappers
  import opened Text
  import opened Pattern

  /** Line 48: a trimmed line opens an entity when it holds `{` and neither
      `||` nor `}|`. */
  predicate OpensEntity(t: string) {
    '{' in t && !Contains(t, "||") && !Contains(t, "}|")
  }

  /** The entity a line declares: once trimmed it opens an entity, and the
      name is its non-empty text before the first space (lines 47-50). */
  function DeclaredName(line: string): Option<string> {
    var t := Trim(line);
    var name := FirstToken(t);
    if OpensEntity(t) && name != "" then Some(name) else None
  }

  /** Line `lines[i]` declares the entity `name`. */
  predicate DeclaresAt(lines: seq<string>, i: int, name: string) {
    0 <= i < |lines| && DeclaredName(lines[i]) == Some(name)
  }

  /** The entity list after the first loop has seen `lines`: each name is
      appended when its line opens an entity and it is not yet listed. */
  function EntitiesOf(lines: seq<string>): seq<string> {
    if lines == [] then []
    else
      var prev := EntitiesOf(lines[..|lines| - 1]);
      var d := DeclaredName(lines[|lines| - 1]);
      if d.Some? && d.value !in prev then prev + [d.value] else prev
  }

  /** What the second loop adds for one line. */
  function RelationshipOfLine(line: string): seq<Relationship> {
    match MatchLine(Trim(line))
    case Some(r) => [r]
    case None => []
  }

  /** The relationship list after the second loop has seen `lines`. */
  function RelationshipsOf(lines: seq<string>): seq<Relationship> {
    if lines == [] then []
    else RelationshipsOf(lines[..|lines| - 1]) + RelationshipOfLine(lines[|lines| - 1])
  }

  /** `parseRelationships(script)`. */
  method ParseRelationships(script: string) returns (relationships: seq<Relationship>, entities: seq<string>)
    ensures relationships == RelationshipsOf(Lines(script))
    ensures entities == EntitiesOf(Lines(script))
  {
    var lines := Lines(script);
    entities := [];
    for i := 0 to |lines|
      invariant entities == EntitiesOf(lines[..i])
    {
      assert lines[..i + 1][..i] == lines[..i];
      var trimmed := Trim(lines[i]);
      if '{' in trimmed && !Contains(trimmed, "||") && !Contains(trimmed, "}|") {
        var entityName := FirstToken(trimmed);
        if entityName != "" && entityName !in entities {
          entities := entities + [entityName];
        }
      }
    }
    assert lines[..|lines|] == lines;
    relationships := [];
    for i := 0 to |lines|
      invariant relationships == RelationshipsOf(lines[..i])
    {
      assert lines[..i + 1][..i] == lines[..i];
      var trimmed := Trim(lines[i]);
      var m := MatchLine(trimmed);
      if m.Some? {
        relationships := relationships + [m.value];
      }
    }
  }

  /** No name is listed twice. */
  lemma {:induction false} EntitiesDistinct(lines: seq<string>)
    ensures forall i, j :: 0 <= i < j < |EntitiesOf(lines)| ==>
              EntitiesOf(lines)[i] != EntitiesOf(lines)[j]
  {
    if lines != [] {
      EntitiesDistinct(lines[..|lines| - 1]);
    }
  }

  /** A name is listed exactly when some line declares it. */
  lemma {:induction false} EntitiesDeclared(lines: seq<string>, name: string)
    ensures name in EntitiesOf(lines) <==> exists i :: DeclaresAt(lines, i, name)
  {
    if lines != [] {
      var init := lines[..|lines| - 1];
      var last := |lines| - 1;
      EntitiesDeclared(init, name);
      if exists i :: DeclaresAt(init, i, name) {
        var i :| DeclaresAt(init, i, name);
        assert DeclaresAt(lines, i, name);
      }
      if DeclaredName(lines[last]) == Some(name) {
        assert DeclaresAt(lines, last, name);
      }
      if exists i :: DeclaresAt(lines, i, name) {
        var i :| DeclaresAt(lines, i, name);
        if i < |init| {
          assert DeclaresAt(init, i, name);
        }
      }
    }
  }

  /** The list only grows: what the loop has listed after a prefix of the
      lines stays, in place, at the front of the final list. */
  lemma {:induction false} EntitiesGrow(lines: seq<string>, k: nat)
    requires k <= |lines|
    ensures EntitiesOf(lines[..k]) <= EntitiesOf(lines)
    decreases |lines| - k
  {
    if k < |lines| {
      var init := lines[..|lines| - 1];
      assert init[..k] == lines[..k];
      EntitiesGrow(init, k);
    } else {
      assert lines[..k] == lines;
    }
  }

  /** First-occurrence order: when `x` is declared on line `i` and `y` is
      first declared on a later line `j`, `x` is listed before `y`. */
  lemma EntitiesInFirstOccurrenceOrder(lines: seq<string>, x: string, y: string, i: nat, j: nat)
    requires DeclaresAt(lines, i, x) && DeclaresAt(lines, j, y) && i < j
    requires forall k :: 0 <= k < j ==> !DeclaresAt(lines, k, y)
    ensures exists a, b :: 0 <= a < b < |EntitiesOf(lines)| &&
                           EntitiesOf(lines)[a] == x && EntitiesOf(lines)[b] == y
  {
    var before := EntitiesOf(lines[..j]);
    EntitiesDeclared(lines[..j], x);
    assert DeclaresAt(lines[..j], i, x);
    EntitiesDeclared(lines[..j], y);
    if exists k :: DeclaresAt(lines[..j], k, y) {
      var k :| DeclaresAt(lines[..j], k, y);
      assert DeclaresAt(lines, k, y);
    }
    assert lines[..j + 1][..j] == lines[..j];
    assert EntitiesOf(lines[..j + 1]) == before + [y];
    EntitiesGrow(lines, j + 1);
    var a :| 0 <= a < |before| && before[a] == x;
    assert EntitiesOf(lines)[a] == x && EntitiesOf(lines)[|before|] == y;
  }

  /** The relationship scan distributes over concatenation of line lists:
      relationships come out in line order, one per matching line. */
  lemma {:induction false} RelationshipsAppend(a: seq<string>, b: seq<string>)
    ensures RelationshipsOf(a + b) == RelationshipsOf(a) + RelationshipsOf(b)
    decreases |b|
  {
    if b != [] {
      var b' := b[..|b| - 1];
      assert (a + b)[..|a + b| - 1] == a + b';
      RelationshipsAppend(a, b');
    } else {
      assert a + b == a;
    }
  }

  /** A single line contributes its match, or nothing. */
  lemma RelationshipsOfOne(line: string)
    ensures RelationshipsOf([line]) == RelationshipOfLine(line)
  {
    assert [line][..0] == [];
  }

  /** Every listed relationship has the captured shape; with lines free of
      line feeds (as `split('\n')` gives), no label holds one either. */
  lemma {:induction false} RelationshipsWellFormed(lines: seq<string>)
    requires forall k :: 0 <= k < |lines| ==> '\n' !in lines[k]
    ensures forall r :: r in RelationshipsOf(lines) ==> WellFormed(r) && '\n' !in r.caption
  {
    if lines != [] {
      var init := lines[..|lines| - 1];
      RelationshipsWellFormed(init);
      var t := Trim(lines[|lines| - 1]);
      if MatchLine(t).Some? {
        MatchLineSound(t);
        var i := TrimSpec(lines[|lines| - 1]);
        forall k | 0 <= k < |t| ensures t[k] != '\n' {
          assert t[k] == lines[|lines| - 1][i + k];
        }
      }
    }
  }

  /** Each relationship line of a script yields exactly its captured groups. */
  lemma {:induction false} RelationshipsPerLine(lines: seq<string>, k: nat)
    requires k < |lines|
    ensures RelationshipsOf(lines) ==
            RelationshipsOf(lines[..k]) + RelationshipOfLine(lines[k]) + RelationshipsOf(lines[k + 1..])
  {
    var pre, line, post := lines[..k], lines[k], lines[k + 1..];
    assert RelationshipsOf(lines) == RelationshipsOf(pre) + RelationshipsOf([line] + post) by {
      assert lines == pre + ([line] + post);
      RelationshipsAppend(pre, [line] + post);
    }
    assert RelationshipsOf([line] + post) == RelationshipOfLine(line) + RelationshipsOf(post) by {
      RelationshipsAppend([line], post);
      RelationshipsOfOne(line);
    }
  }

  /** Lines without `"` yield no relationship. */
  lemma {:induction false} QuoteFreeLinesYieldNothing(lines: seq<string>)
    requires forall k :: 0 <= k < |lines| ==> '"' !in lines[k]
    ensures RelationshipsOf(lines) == []
  {
    if lines != [] {
      var line := lines[|lines| - 1];
      QuoteFreeLinesYieldNothing(lines[..|lines| - 1]);
      var t := Trim(line);
      var i := TrimSpec(line);
      forall k | 0 <= k < |t| ensures t[k] != '"' {
        assert t[k] == line[i + k];
      }
      NoQuoteNoMatch(t);
    }
  }

  /** In a regenerated line whose label has no `|` or `}`, neither
      character occurs outside the connector. */
  lemma FormatMarksOnlyInConnector(r: Relationship, i: nat)
    requires WellFormed(r) && '|' !in r.caption && '}' !in r.caption
    requires i < |Format(r)| && (i <= |r.from| || i >= |r.from| + 7)
    ensures Format(r)[i] != '|' && Format(r)[i] != '}'
  {
    var s, p := Format(r), |r.from| + 1;
    ConnectorStartsWithMark(r.kind);
    var tail := " " + r.to + " : \"" + r.caption + "\"";
    assert s == r.from + " " + r.kind + tail;
    if i < |r.from| {
      assert s[i] == r.from[i];
      assert IsWordChar(r.from[i]);
    } else if i >= p + 6 {
      var k := i - p - 6;
      assert s[i] == tail[k];
      var rest := r.caption + "\"";
      assert tail == " " + r.to + " : \"" + rest;
      if 1 <= k < 1 + |r.to| {
        assert tail[k] == r.to[k - 1];
        assert IsWordChar(r.to[k - 1]);
      } else if k >= 5 + |r.to| {
        assert tail[k] == rest[k - 5 - |r.to|];
        if k - 5 - |r.to| < |r.caption| {
          assert rest[k - 5 - |r.to|] == r.caption[k - 5 - |r.to|];
        }
      }
    }
  }

  /** The entity test of line 48 applied to a relationship line: it passes
      exactly for the connector `o|--o{`, the only one with a `{` and with
      neither `||` nor `}|`, and then declares the line's first word. The
      other six connectors all hold `||` or `}|`. */
  lemma RelationshipLineDeclares(r: Relationship)
    requires WellFormed(r) && '\n' !in r.caption
    requires '|' !in r.caption && '}' !in r.caption
    ensures DeclaredName(Format(r)) == if r.kind == "o|--o{" then Some(r.from) else None
  {
    FormatIsTrimmedLine(r);
    if r.kind == "o|--o{" {
      OptionalManyLineOpens(r);
    } else {
      OtherLineOpensNothing(r);
    }
  }

  lemma OptionalManyLineOpens(r: Relationship)
    requires WellFormed(r) && r.kind == "o|--o{"
    requires '|' !in r.caption && '}' !in r.caption
    ensures OpensEntity(Format(r)) && FirstToken(Format(r)) == r.from
  {
    var s, p := Format(r), |r.from| + 1;
    assert s[p..p + 6] == r.kind;
    assert '{' in s by {
      assert s[p + 5] == '{';
    }
    assert FirstToken(s) == r.from by {
      assert r.from <= s;
      assert ' ' !in r.from by {
        forall k | 0 <= k < |r.from| ensures r.from[k] != ' ' {
          assert IsWordChar(r.from[k]);
        }
      }
      FirstTokenIs(s, r.from);
    }
    forall i | 0 <= i < |s| - 1
      ensures !(s[i] == '|' && s[i + 1] == '|') && !(s[i] == '}' && s[i + 1] == '|')
    {
      if p <= i < p + 6 {
        assert s[i] == r.kind[i - p];
        if i + 1 < p + 6 {
          assert s[i + 1] == r.kind[i + 1 - p];
        }
      } else {
        FormatMarksOnlyInConnector(r, i);
      }
    }
    NoPairNoContains(s, '|', '|');
    NoPairNoContains(s, '}', '|');
  }

  lemma OtherLineOpensNothing(r: Relationship)
    requires WellFormed(r) && r.kind != "o|--o{"
    ensures !OpensEntity(Format(r))
  {
    var s, p := Format(r), |r.from| + 1;
    assert s[p..p + 6] == r.kind;
    var at := if r.kind == "o|--||" then p + 4 else p;
    var pair := if r.kind == "}|--||" || r.kind == "}|--o{" then "}|" else "||";
    assert OccursAt(s, pair, at) by {
      assert s[at..at + 2] == r.kind[at - p..at - p + 2];
    }
    ContainsAt(s, pair);
  }
}
