/** The relationship pattern the analyzer matches against each trimmed line:
      (\w+)\s+(CONNECTOR)\s+(\w+)\s*:\s*"([^"]+)"
    unanchored, with the seven connectors of the alternation.

    Every piece of the pattern is followed by a character its own class
    cannot contain (a word by whitespace, whitespace by a connector or a
    word or `:` or `"`, the label by `"`), so backtracking never shortens a
    piece: the regex behaves as a scanner that takes each run as far as it
    goes.  `MatchAt` is that scanner; `SplitsAt` is the regex read as "the
    text from `p` splits into these pieces", and `MatchAtIff` proves them
    the same.  `MatchLine` tries start positions left to right, as the
    regex engine does. */
module Pattern {
  import opened Text
  import opened Wrappers

  /** An `ERRelationship`: the four captured groups of one matching line
      (`caption` is the source's `label`, `kind` its `type`). */
  datatype Relationship = Relationship(from: string, to: string, caption: string, kind: string)

  /** The connector alternation, in the order the pattern lists it. */
  const Connectors: seq<string> :=
    ["||--o{", "||--o|", "||--||", "}|--||", "}|--o{", "o|--||", "o|--o{"]

  /** `[^"]`. */
  predicate IsLabelChar(c: char) {
    c != '"'
  }

  /** `\w+` as a whole string. */
  predicate IsWord(s: string) {
    |s| > 0 && forall k :: 0 <= k < |s| ==> IsWordChar(s[k])
  }

  /** `[^"]+` as a whole string. */
  predicate IsLabel(s: string) {
    |s| > 0 && '"' !in s
  }

  /** The shape every captured relationship has. */
  predicate WellFormed(r: Relationship) {
    IsWord(r.from) && IsWord(r.to) && r.kind in Connectors && IsLabel(r.caption)
  }

  /** Every character of `s[i..j]` belongs to the class `P`. */
  predicate Span(s: string, i: int, j: int, P: char -> bool) {
    0 <= i <= j <= |s| && forall k :: i <= k < j ==> P(s[k])
  }

  /** End of the longest run of `P`-characters starting at `i`. */
  function RunEnd(s: string, i: nat, P: char -> bool): (j: nat)
    requires i <= |s|
    ensures Span(s, i, j, P)
    ensures j == |s| || !P(s[j])
    decreases |s| - i
  {
    if i < |s| && P(s[i]) then RunEnd(s, i + 1, P) else i
  }

  /** A run that cannot be extended is the one `RunEnd` finds. */
  lemma {:induction false} RunEndExact(s: string, i: nat, j: nat, P: char -> bool)
    requires Span(s, i, j, P)
    requires j == |s| || !P(s[j])
    ensures RunEnd(s, i, P) == j
    decreases j - i
  {
    if i < j {
      RunEndExact(s, i + 1, j, P);
    }
  }

  /** The pattern read as a regex: the text from `p` splits into
      word `s[p..a]`, whitespace `s[a..b]`, connector `s[b..b+6]`,
      whitespace `s[b+6..d]`, word `s[d..e]`, whitespace `s[e..f]`, `:` at
      `f`, whitespace `s[f+1..g]`, `"` at `g`, label `s[g+1..h]`, `"` at `h`,
      and `r` holds the four captured pieces. */
  ghost predicate SplitsAt(s: string, p: nat, r: Relationship,
                           a: int, b: int, d: int, e: int, f: int, g: int, h: int)
  {
    && p < a && Span(s, p, a, IsWordChar)
    && a < b && Span(s, a, b, IsSpace)
    && b + 6 <= |s| && s[b..b + 6] in Connectors
    && b + 6 < d && Span(s, b + 6, d, IsSpace)
    && d < e && Span(s, d, e, IsWordChar)
    && Span(s, e, f, IsSpace) && f < |s| && s[f] == ':'
    && Span(s, f + 1, g, IsSpace) && g < |s| && s[g] == '"'
    && g + 1 < h && Span(s, g + 1, h, IsLabelChar) && h < |s| && s[h] == '"'
    && r == Relationship(s[p..a], s[d..e], s[g + 1..h], s[b..b + 6])
  }

  /** The regex matches at `p` with captures `r`. */
  ghost predicate PatternMatchesAt(s: string, p: nat, r: Relationship) {
    exists a, b, d, e, f, g, h :: SplitsAt(s, p, r, a, b, d, e, f, g, h)
  }

  /** The scanner: try the pattern at position `p`, each run taken in full. */
  function MatchAt(s: string, p: nat): Option<Relationship>
    requires p <= |s|
  {
    var a := RunEnd(s, p, IsWordChar);
    if a == p then None
    else
      var b := RunEnd(s, a, IsSpace);
      if b == a || b + 6 > |s| || s[b..b + 6] !in Connectors then None
      else
        var d := RunEnd(s, b + 6, IsSpace);
        if d == b + 6 then None
        else
          var e := RunEnd(s, d, IsWordChar);
          if e == d then None
          else
            var f := RunEnd(s, e, IsSpace);
            if f == |s| || s[f] != ':' then None
            else
              var g := RunEnd(s, f + 1, IsSpace);
              if g == |s| || s[g] != '"' then None
              else
                var h := RunEnd(s, g + 1, IsLabelChar);
                if h == g + 1 || h == |s| then None
                else Some(Relationship(s[p..a], s[d..e], s[g + 1..h], s[b..b + 6]))
  }

  lemma ConnectorStartsWithMark(c: string)
    requires c in Connectors
    ensures |c| == 6 && !IsSpace(c[0])
  {
  }

  /** What the scanner returns is a match of the regex. */
  lemma MatchAtSound(s: string, p: nat)
    requires p <= |s| && MatchAt(s, p).Some?
    ensures PatternMatchesAt(s, p, MatchAt(s, p).value)
  {
    var a := RunEnd(s, p, IsWordChar);
    var b := RunEnd(s, a, IsSpace);
    var d := RunEnd(s, b + 6, IsSpace);
    var e := RunEnd(s, d, IsWordChar);
    var f := RunEnd(s, e, IsSpace);
    var g := RunEnd(s, f + 1, IsSpace);
    var h := RunEnd(s, g + 1, IsLabelChar);
    assert p < a && a < b && b + 6 <= |s| && s[b..b + 6] in Connectors;
    assert b + 6 < d && d < e && f < |s| && s[f] == ':';
    assert g < |s| && s[g] == '"' && g + 1 < h < |s| && s[h] == '"';
    assert SplitsAt(s, p, MatchAt(s, p).value, a, b, d, e, f, g, h);
  }

  /** Every match of the regex is what the scanner returns: the regex is
      deterministic, so it has at most one match at each position. */
  lemma MatchAtComplete(s: string, p: nat, r: Relationship,
                        a: int, b: int, d: int, e: int, f: int, g: int, h: int)
    requires SplitsAt(s, p, r, a, b, d, e, f, g, h)
    ensures MatchAt(s, p) == Some(r)
  {
    SplitRunsExact(s, p, r, a, b, d, e, f, g, h);
    assert a != p && b != a && b + 6 <= |s| && s[b..b + 6] in Connectors;
    assert d != b + 6 && e != d && f < |s| && s[f] == ':';
    assert g < |s| && s[g] == '"' && h != g + 1 && h < |s|;
  }

  /** Each run of a split is exactly as long as the scanner takes it. */
  lemma SplitRunsExact(s: string, p: nat, r: Relationship,
                       a: int, b: int, d: int, e: int, f: int, g: int, h: int)
    requires SplitsAt(s, p, r, a, b, d, e, f, g, h)
    ensures RunEnd(s, p, IsWordChar) == a && RunEnd(s, a, IsSpace) == b
    ensures RunEnd(s, b + 6, IsSpace) == d && RunEnd(s, d, IsWordChar) == e
    ensures RunEnd(s, e, IsSpace) == f && RunEnd(s, f + 1, IsSpace) == g
    ensures RunEnd(s, g + 1, IsLabelChar) == h
  {
    RunEndExact(s, p, a, IsWordChar);
    ConnectorStartsWithMark(s[b..b + 6]);
    assert s[b] == s[b..b + 6][0];
    RunEndExact(s, a, b, IsSpace);
    RunEndExact(s, b + 6, d, IsSpace);
    RunEndExact(s, d, e, IsWordChar);
    RunEndExact(s, e, f, IsSpace);
    RunEndExact(s, f + 1, g, IsSpace);
    RunEndExact(s, g + 1, h, IsLabelChar);
  }

  /** The scanner and the regex agree at every position. */
  lemma MatchAtIff(s: string, p: nat, r: Relationship)
    requires p <= |s|
    ensures MatchAt(s, p) == Some(r) <==> PatternMatchesAt(s, p, r)
  {
    if MatchAt(s, p) == Some(r) {
      MatchAtSound(s, p);
    }
    if PatternMatchesAt(s, p, r) {
      var a, b, d, e, f, g, h :| SplitsAt(s, p, r, a, b, d, e, f, g, h);
      MatchAtComplete(s, p, r, a, b, d, e, f, g, h);
    }
  }

  /** Captured groups always have the shape the pattern allows. */
  lemma MatchAtWellFormed(s: string, p: nat)
    requires p <= |s| && MatchAt(s, p).Some?
    ensures WellFormed(MatchAt(s, p).value)
    ensures '\n' !in s ==> '\n' !in MatchAt(s, p).value.caption
  {
    var a := RunEnd(s, p, IsWordChar);
    var b := RunEnd(s, a, IsSpace);
    var d := RunEnd(s, b + 6, IsSpace);
    var e := RunEnd(s, d, IsWordChar);
    var f := RunEnd(s, e, IsSpace);
    var g := RunEnd(s, f + 1, IsSpace);
    var h := RunEnd(s, g + 1, IsLabelChar);
    var text := s[g + 1..h];
    assert forall k :: 0 <= k < |text| ==> text[k] == s[g + 1 + k];
    if '\n' in text {
      var k :| 0 <= k < |text| && text[k] == '\n';
      assert s[g + 1 + k] in s;
    }
  }

  /** A match needs a `"` at some position. */
  lemma MatchAtNeedsQuotes(s: string, p: nat)
    requires p <= |s| && MatchAt(s, p).Some?
    ensures exists g, h :: p <= g && g + 1 < h < |s| && s[g] == '"' && s[h] == '"'
  {
    var a := RunEnd(s, p, IsWordChar);
    var b := RunEnd(s, a, IsSpace);
    var d := RunEnd(s, b + 6, IsSpace);
    var e := RunEnd(s, d, IsWordChar);
    var f := RunEnd(s, e, IsSpace);
    var g := RunEnd(s, f + 1, IsSpace);
    var h := RunEnd(s, g + 1, IsLabelChar);
    assert p <= g && g + 1 < h < |s| && s[g] == '"' && s[h] == '"';
  }

  /** Search from position `p` onwards, leftmost first. */
  function SearchFrom(s: string, p: nat): Option<Relationship>
    requires p <= |s|
    decreases |s| - p
  {
    var m := MatchAt(s, p);
    if m.Some? || p == |s| then m else SearchFrom(s, p + 1)
  }

  /** `trimmed.match(relationshipPattern)`, reduced to its captured groups. */
  function MatchLine(s: string): Option<Relationship> {
    SearchFrom(s, 0)
  }

  /** The leftmost position where the regex matches is `p`, capturing `r`. */
  ghost predicate LeftmostMatch(s: string, p: nat, r: Relationship) {
    p <= |s| && PatternMatchesAt(s, p, r) &&
    forall q, r' :: 0 <= q < p ==> !PatternMatchesAt(s, q, r')
  }

  /** The scanner finds nothing at `i..p-1` and something at `p`. */
  predicate FirstHit(s: string, i: nat, p: nat) {
    i <= p <= |s| && MatchAt(s, p).Some? &&
    forall q :: i <= q < p ==> MatchAt(s, q).None?
  }

  lemma {:induction false} SearchFromHit(s: string, i: nat) returns (p: nat)
    requires i <= |s| && SearchFrom(s, i).Some?
    ensures FirstHit(s, i, p) && SearchFrom(s, i) == MatchAt(s, p)
    decreases |s| - i
  {
    if MatchAt(s, i).Some? {
      p := i;
    } else {
      p := SearchFromHit(s, i + 1);
    }
  }

  lemma {:induction false} HitSearchFrom(s: string, i: nat, p: nat)
    requires FirstHit(s, i, p)
    ensures SearchFrom(s, i) == MatchAt(s, p)
    decreases p - i
  {
    if i < p {
      assert MatchAt(s, i).None?;
      HitSearchFrom(s, i + 1, p);
    }
  }

  /** `MatchLine` returns the captures of the leftmost match of the regex. */
  lemma MatchLineLeftmost(s: string, r: Relationship)
    ensures MatchLine(s) == Some(r) <==> exists p: nat :: LeftmostMatch(s, p, r)
  {
    if MatchLine(s) == Some(r) {
      var p := SearchFromHit(s, 0);
      MatchAtIff(s, p, r);
      forall q, r' | 0 <= q < p ensures !PatternMatchesAt(s, q, r') {
        MatchAtIff(s, q, r');
      }
      assert LeftmostMatch(s, p, r);
    }
    if exists p: nat :: LeftmostMatch(s, p, r) {
      var p: nat :| LeftmostMatch(s, p, r);
      MatchAtIff(s, p, r);
      forall q | 0 <= q < p ensures MatchAt(s, q).None? {
        if MatchAt(s, q).Some? {
          MatchAtIff(s, q, MatchAt(s, q).value);
        }
      }
      HitSearchFrom(s, 0, p);
    }
  }

  /** `MatchLine` finds nothing exactly when the regex matches nowhere. */
  lemma MatchLineNone(s: string)
    ensures MatchLine(s) == None <==> forall p: nat, r :: p <= |s| ==> !PatternMatchesAt(s, p, r)
  {
    if MatchLine(s).Some? {
      var p := SearchFromHit(s, 0);
      MatchAtSound(s, p);
    } else {
      forall p: nat, r | p <= |s| ensures !PatternMatchesAt(s, p, r) {
        if PatternMatchesAt(s, p, r) {
          MatchAtIff(s, p, r);
          var first := FirstFrom(s, 0, p);
          HitSearchFrom(s, 0, first);
        }
      }
    }
  }

  /** Some position at or before `p` is the first the scanner hits. */
  lemma {:induction false} FirstFrom(s: string, i: nat, p: nat) returns (first: nat)
    requires i <= p <= |s| && MatchAt(s, p).Some?
    ensures FirstHit(s, i, first)
    decreases p - i
  {
    if MatchAt(s, i).Some? {
      first := i;
    } else {
      assert i != p;
      first := FirstFrom(s, i + 1, p);
      FirstHitExtend(s, i, first);
    }
  }

  /** A miss at `i` moves the start of a first hit back by one. */
  lemma FirstHitExtend(s: string, i: nat, first: nat)
    requires i < |s| && MatchAt(s, i).None? && FirstHit(s, i + 1, first)
    ensures FirstHit(s, i, first)
  {
    forall q | i <= q < first ensures MatchAt(s, q).None? {
      if q > i {
        assert i + 1 <= q < first;
      }
    }
  }

  /** Every captured relationship is well formed, its strings come from the
      line, and the line holds two `"` with at least one character between. */
  lemma MatchLineSound(s: string)
    requires MatchLine(s).Some?
    ensures WellFormed(MatchLine(s).value)
    ensures '\n' !in s ==> '\n' !in MatchLine(s).value.caption
    ensures exists g, h :: 0 <= g && g + 1 < h < |s| && s[g] == '"' && s[h] == '"'
  {
    var p := SearchFromHit(s, 0);
    MatchAtWellFormed(s, p);
    MatchAtNeedsQuotes(s, p);
  }

  /** A line without `"` never matches. */
  lemma NoQuoteNoMatch(s: string)
    requires '"' !in s
    ensures MatchLine(s) == None
  {
    if MatchLine(s).Some? {
      MatchLineSound(s);
    }
  }

  /** A line whose only quotes are an empty label `""` at its end never matches. */
  lemma EmptyLabelNoMatch(x: string)
    requires '"' !in x
    ensures MatchLine(x + "\"\"") == None
  {
    var s := x + "\"\"";
    if MatchLine(s).Some? {
      MatchLineSound(s);
    }
  }

  /** The relationship line the reducer writes: `from kind to : "label"`. */
  function Format(r: Relationship): string {
    r.from + " " + r.kind + " " + r.to + " : \"" + r.caption + "\""
  }

  /** A regenerated line matches the pattern at its very start. */
  lemma FormatSplits(r: Relationship)
    requires WellFormed(r)
    ensures SplitsAt(Format(r), 0, r,
                     |r.from|, |r.from| + 1, |r.from| + 8, |r.from| + 8 + |r.to|,
                     |r.from| + 9 + |r.to|, |r.from| + 11 + |r.to|,
                     |r.from| + 12 + |r.to| + |r.caption|)
  {
    var s := Format(r);
    ConnectorStartsWithMark(r.kind);
    var a := |r.from|;
    var e := a + 8 + |r.to|;
    var h := e + 4 + |r.caption|;
    assert |s| == h + 1;
    assert s[..a] == r.from;
    assert s[a + 1..a + 7] == r.kind;
    assert s[a + 8..e] == r.to;
    assert s[e + 4..h] == r.caption;
    assert s[a] == ' ' && s[a + 7] == ' ' && s[e] == ' ' && s[e + 1] == ':' && s[e + 2] == ' ';
    assert s[e + 3] == '"' && s[h] == '"';
    assert forall k :: 0 <= k < a ==> s[k] == r.from[k];
    assert forall k :: a + 8 <= k < e ==> s[k] == r.to[k - a - 8];
    forall k | e + 4 <= k < h ensures IsLabelChar(s[k]) {
      assert s[k] == r.caption[k - e - 4];
      assert r.caption[k - e - 4] in r.caption;
    }
  }

  /** Re-parsing a regenerated relationship line gives the relationship back. */
  lemma FormatRoundTrip(r: Relationship)
    requires WellFormed(r)
    ensures MatchLine(Format(r)) == Some(r)
  {
    FormatSplits(r);
    var a := |r.from|;
    var e := a + 8 + |r.to|;
    MatchAtComplete(Format(r), 0, r, a, a + 1, a + 8, e, e + 1, e + 3, e + 4 + |r.caption|);
  }

  /** A regenerated line has no surrounding whitespace, and no line feed
      when its label has none. */
  lemma FormatIsTrimmedLine(r: Relationship)
    requires WellFormed(r) && '\n' !in r.caption
    ensures Trim(Format(r)) == Format(r)
    ensures '\n' !in Format(r)
  {
    var s := Format(r);
    assert s[0] == r.from[0] && IsWordChar(r.from[0]);
    assert s[|s| - 1] == '"';
    TrimOfTrimmed(s);
    NoLineFeed(r);
  }

  lemma NoLineFeed(r: Relationship)
    requires WellFormed(r) && '\n' !in r.caption
    ensures '\n' !in Format(r)
  {
    forall k | 0 <= k < |r.from| ensures r.from[k] != '\n' {
      assert IsWordChar(r.from[k]);
    }
    forall k | 0 <= k < |r.to| ensures r.to[k] != '\n' {
      assert IsWordChar(r.to[k]);
    }
    assert '\n' !in r.kind;
  }
}
