/** The example script the editor's "Load Example" button loads
    (MermaidEditor.tsx, lines 14-73, loaded by `handleLoadDefault` at lines
    78-79), and what the engine makes of it. */
module Fixture {
  import opened Wrappers
  import opened Text
  import opened Pattern
  import opened Analyzer
  import opened Scope
  import opened Highlight

  /** Line 14. */
  const Header: seq<string> := ["erDiagram"]

  /** Lines 15-23. */
  const UserBlock: seq<string> := [
    "    User {",
    "        int id PK",
    "        string username",
    "        string email",
    "        string password_hash",
    "        datetime created_at",
    "        datetime updated_at",
    "    }",
    "    "
  ]

  /** Lines 24-33. */
  const ProfileBlock: seq<string> := [
    "    Profile {",
    "        int id PK",
    "        int user_id FK",
    "        string first_name",
    "        string last_name",
    "        string bio",
    "        string avatar_url",
    "        datetime created_at",
    "    }",
    "    "
  ]

  /** Lines 34-44. */
  const PostBlock: seq<string> := [
    "    Post {",
    "        int id PK",
    "        int user_id FK",
    "        string title",
    "        text content",
    "        string status",
    "        datetime published_at",
    "        datetime created_at",
    "        datetime updated_at",
    "    }",
    "    "
  ]

  /** Lines 45-53. */
  const CommentBlock: seq<string> := [
    "    Comment {",
    "        int id PK",
    "        int post_id FK",
    "        int user_id FK",
    "        text content",
    "        datetime created_at",
    "        datetime updated_at",
    "    }",
    "    "
  ]

  /** Lines 54-61. */
  const CategoryBlock: seq<string> := [
    "    Category {",
    "        int id PK",
    "        string name",
    "        string slug",
    "        text description",
    "        datetime created_at",
    "    }",
    "    "
  ]

  /** Lines 62-67. */
  const PostCategoryBlock: seq<string> := [
    "    PostCategory {",
    "        int post_id FK",
    "        int category_id FK",
    "        datetime created_at",
    "    }",
    "    "
  ]

  /** Lines 14-67: the header and the six entity blocks. */
  const Blocks: seq<string> := Header + UserBlock + ProfileBlock + PostBlock + CommentBlock + CategoryBlock + PostCategoryBlock

  const HasOne := Relationship("User", "Profile", "has one", "||--o|")
  const Creates := Relationship("User", "Post", "creates", "||--o{")
  const Writes := Relationship("User", "Comment", "writes", "||--o{")
  const Has := Relationship("Post", "Comment", "has", "||--o{")
  const BelongsTo := Relationship("Post", "PostCategory", "belongs to", "}|--||")
  const ContainsLink := Relationship("Category", "PostCategory", "contains", "||--o{")

  /** The relationships of lines 68-73, in order. */
  const Rels: seq<Relationship> := [HasOne, Creates, Writes, Has, BelongsTo, ContainsLink]

  /** Relationship lines as the sample writes them: indented four spaces. */
  function Indented(rels: seq<Relationship>): (lines: seq<string>)
    ensures |lines| == |rels|
  {
    if rels == [] then [] else ["    " + Format(rels[0])] + Indented(rels[1..])
  }

  /** The sample's lines, and the script they make. */
  const SampleLines: seq<string> := Blocks + Indented(Rels)
  const Sample: string := Join(SampleLines, '\n')

  /** The six relationships have the shape the pattern captures. */
  lemma RelsWellFormed()
    ensures forall r :: r in Rels ==> WellFormed(r) && '\n' !in r.caption
  {
    UserRelsWellFormed();
    OtherRelsWellFormed();
  }

  lemma UserRelsWellFormed()
    ensures WellFormed(HasOne) && WellFormed(Creates) && WellFormed(Writes)
  {
    assert HasOne.kind == Connectors[1];
    assert Creates.kind == Connectors[0] && Writes.kind == Connectors[0];
  }

  lemma OtherRelsWellFormed()
    ensures WellFormed(Has) && WellFormed(BelongsTo) && WellFormed(ContainsLink)
  {
    assert BelongsTo.kind == Connectors[3];
    assert Has.kind == Connectors[0] && ContainsLink.kind == Connectors[0];
  }

  /** An indented relationship line reads back as its relationship; it
      holds a `"` and no line feed. */
  lemma IndentedLine(r: Relationship)
    requires WellFormed(r) && '\n' !in r.caption
    ensures RelationshipOfLine("    " + Format(r)) == [r]
    ensures '"' in "    " + Format(r) && '\n' !in "    " + Format(r)
  {
    var f := Format(r);
    var line := "    " + f;
    assert Trim(line) == f by {
      FormatIsTrimmedLine(r);
      assert AllSpace("    ") && AllSpace("");
      assert line == "    " + f + "";
      TrimPadded("    ", f, "");
    }
    assert MatchLine(f) == Some(r) by {
      FormatRoundTrip(r);
    }
    assert '\n' !in line by {
      NoLineFeed(r);
    }
    assert line[|line| - 1] == '"';
  }

  /** Indented relationship lines read back as the relationships. */
  lemma {:induction false} IndentedParses(rels: seq<Relationship>)
    requires forall r :: r in rels ==> WellFormed(r) && '\n' !in r.caption
    ensures RelationshipsOf(Indented(rels)) == rels
  {
    if rels != [] {
      var r, rest := rels[0], rels[1..];
      var line := "    " + Format(r);
      assert RelationshipsOf(Indented(rest)) == rest by {
        assert forall x :: x in rest ==> x in rels;
        IndentedParses(rest);
      }
      assert RelationshipOfLine(line) == [r] by {
        assert r in rels;
        IndentedLine(r);
      }
      assert RelationshipsOf(Indented(rels)) == [r] + rest by {
        assert Indented(rels) == [line] + Indented(rest);
        RelationshipsAppend([line], Indented(rest));
        RelationshipsOfOne(line);
      }
      assert rels == [r] + rest;
    }
  }

  lemma {:induction false} IndentedAt(rels: seq<Relationship>, k: nat)
    requires k < |rels|
    ensures Indented(rels)[k] == "    " + Format(rels[k])
  {
    if k > 0 {
      IndentedAt(rels[1..], k - 1);
    }
  }

  /** Every indented relationship line holds a `"` and no line feed. */
  lemma IndentedQuoted(rels: seq<Relationship>)
    requires forall r :: r in rels ==> WellFormed(r) && '\n' !in r.caption
    ensures forall k :: 0 <= k < |rels| ==> '"' in Indented(rels)[k] && '\n' !in Indented(rels)[k]
  {
    forall k | 0 <= k < |rels| ensures '"' in Indented(rels)[k] && '\n' !in Indented(rels)[k] {
      IndentedAt(rels, k);
      assert rels[k] in rels;
      IndentedLine(rels[k]);
    }
  }

  /** No line holds a `"` or a line feed. */
  predicate Plain(lines: seq<string>) {
    forall k :: 0 <= k < |lines| ==> '"' !in lines[k] && '\n' !in lines[k]
  }

  lemma HeaderPlain()
    ensures Plain(Header)
  {
    assert Header[0] == "erDiagram";
  }

  lemma UserBlockPlain()
    ensures Plain(UserBlock)
  {
    forall k | 0 <= k < |UserBlock| ensures '"' !in UserBlock[k] && '\n' !in UserBlock[k] {
      if k < 5 {}
    }
  }

  lemma ProfileBlockPlain()
    ensures Plain(ProfileBlock)
  {
    forall k | 0 <= k < |ProfileBlock| ensures '"' !in ProfileBlock[k] && '\n' !in ProfileBlock[k] {
      if k < 5 {}
    }
  }

  lemma PostBlockPlain()
    ensures Plain(PostBlock)
  {
    forall k | 0 <= k < |PostBlock| ensures '"' !in PostBlock[k] && '\n' !in PostBlock[k] {
      if k < 4 {} else if k < 8 {}
    }
  }

  lemma CommentBlockPlain()
    ensures Plain(CommentBlock)
  {
    forall k | 0 <= k < |CommentBlock| ensures '"' !in CommentBlock[k] && '\n' !in CommentBlock[k] {
      if k < 5 {}
    }
  }

  lemma CategoryBlockPlain()
    ensures Plain(CategoryBlock)
  {
    forall k | 0 <= k < |CategoryBlock| ensures '"' !in CategoryBlock[k] && '\n' !in CategoryBlock[k] {
      if k < 4 {}
    }
  }

  lemma PostCategoryBlockPlain()
    ensures Plain(PostCategoryBlock)
  {
    forall k | 0 <= k < |PostCategoryBlock| ensures '"' !in PostCategoryBlock[k] && '\n' !in PostCategoryBlock[k] {
      if k < 3 {}
    }
  }

  /** Lines free of `"` and line feeds stay so when put together. */
  lemma PlainAppend(a: seq<string>, b: seq<string>)
    requires Plain(a) && Plain(b)
    ensures Plain(a + b)
  {
    forall k | 0 <= k < |a + b| ensures '"' !in (a + b)[k] && '\n' !in (a + b)[k] {
      if k >= |a| {
        assert (a + b)[k] == b[k - |a|];
      }
    }
  }

  lemma BlocksPlain()
    ensures Plain(Blocks)
  {
    HeaderPlain();
    UserBlockPlain();
    ProfileBlockPlain();
    PostBlockPlain();
    CommentBlockPlain();
    CategoryBlockPlain();
    PostCategoryBlockPlain();
    var lines := Header;
    PlainAppend(lines, UserBlock);
    lines := lines + UserBlock;
    PlainAppend(lines, ProfileBlock);
    lines := lines + ProfileBlock;
    PlainAppend(lines, PostBlock);
    lines := lines + PostBlock;
    PlainAppend(lines, CommentBlock);
    lines := lines + CommentBlock;
    PlainAppend(lines, CategoryBlock);
    lines := lines + CategoryBlock;
    PlainAppend(lines, PostCategoryBlock);
    lines := lines + PostCategoryBlock;
    assert lines == Blocks;
  }

  /** The sample splits back into its lines, and yields its six
      relationships in order. */
  lemma SampleParses()
    ensures Lines(Sample) == SampleLines
    ensures RelationshipsOf(Lines(Sample)) == Rels
  {
    RelsWellFormed();
    IndentedParses(Rels);
    IndentedQuoted(Rels);
    BlocksPlain();
    assert forall k :: 0 <= k < |SampleLines| ==> '\n' !in SampleLines[k] by {
      forall k | 0 <= k < |SampleLines| ensures '\n' !in SampleLines[k] {
        if k >= |Blocks| {
          assert SampleLines[k] == Indented(Rels)[k - |Blocks|];
        }
      }
    }
    LinesJoin(SampleLines);
    QuoteFreeLinesYieldNothing(Blocks);
    RelationshipsAppend(Blocks, Indented(Rels));
    assert RelationshipsOf(SampleLines) == [] + Rels;
  }

  /** The sample is not blank: its first character is the `e` of
      `erDiagram`. */
  lemma SampleNotBlank()
    ensures Trim(Sample) != ""
  {
    assert SampleLines[0] == "erDiagram";
    assert SampleLines == ["erDiagram"] + SampleLines[1..];
    JoinCons("erDiagram", SampleLines[1..], '\n');
    assert Sample[0] == 'e';
    assert TrimStart(Sample) == Sample;
    TrimEndSpec(Sample);
    var t := TrimEnd(Sample);
    assert |t| > 0;
  }

  /** Focusing `Profile` draws only `User ||--o| Profile : "has one"`
      (line 68 of the sample). */
  lemma FocusOnProfile()
    ensures RelationshipsOf(Lines(FilteredScript(Sample, Some("Profile")))) == [HasOne]
  {
    FocusReparses("Profile");
    TouchingProfile();
  }

  lemma TouchingProfile()
    ensures Touching(Rels, "Profile") == [HasOne]
  {
    assert Touching(Rels[5..], "Profile") == [];
    assert Touching(Rels[4..], "Profile") == [];
    assert Touching(Rels[3..], "Profile") == [];
    assert Touching(Rels[2..], "Profile") == [];
    assert Touching(Rels[1..], "Profile") == [];
  }

  lemma TouchingUser()
    ensures Touching(Rels, "User") == [HasOne, Creates, Writes]
    ensures ScopeOf(Rels, "User") == {"User", "Profile", "Post", "Comment"}
  {
    assert Touching(Rels[5..], "User") == [];
    assert Touching(Rels[4..], "User") == [];
    assert Touching(Rels[3..], "User") == [];
    assert Touching(Rels[2..], "User") == [Writes];
    assert Touching(Rels[1..], "User") == [Creates, Writes];
    assert Endpoints([Writes]) == {"User", "Comment"};
    assert [HasOne, Creates, Writes][1..][1..] == [Writes];
    assert Endpoints([Creates, Writes]) == {"User", "Post", "Comment"};
  }

  /** Focusing `User` draws its three relationships. `Post` and `Comment`
      are both in view, yet `Post ||--o{ Comment` is not drawn. */
  lemma FocusOnUser()
    ensures RelationshipsOf(Lines(FilteredScript(Sample, Some("User")))) == [HasOne, Creates, Writes]
    ensures ScopeOf(Rels, "User") == {"User", "Profile", "Post", "Comment"}
    ensures Has !in RelationshipsOf(Lines(FilteredScript(Sample, Some("User"))))
  {
    FocusReparses("User");
    TouchingUser();
  }

  /** For any non-empty focus, the reduced sample yields exactly the
      relationships touching it. */
  lemma FocusReparses(focus: string)
    requires focus != ""
    ensures RelationshipsOf(Lines(FilteredScript(Sample, Some(focus)))) == Touching(Rels, focus)
  {
    SampleParses();
    assert Trim(Sample) != "" by {
      SampleNotBlank();
    }
    var defs := ScanLines(SampleLines, ScopeOf(Rels, focus)).defs;
    assert forall d :: d in defs ==> '"' !in d by {
      BlocksPlain();
      RelsWellFormed();
      IndentedQuoted(Rels);
      BlocksBeforeRelationships(Blocks, Indented(Rels), ScopeOf(Rels, focus));
    }
    ReducedRelationshipsRoundTrip(Sample, focus);
  }

  /** Highlighting `User`: the focus, its three neighbours, and the two
      entities only reachable through `Post`, which are dimmed. */
  lemma HighlightUser()
    ensures Classify("User", "User", Linked(Rels, "User")) == Focused
    ensures Classify("Profile", "User", Linked(Rels, "User")) == Connected
    ensures Classify("Post", "User", Linked(Rels, "User")) == Connected
    ensures Classify("Comment", "User", Linked(Rels, "User")) == Connected
    ensures Classify("Category", "User", Linked(Rels, "User")) == Dimmed
    ensures Classify("PostCategory", "User", Linked(Rels, "User")) == Dimmed
  {
    LinkedIsScope(Rels, "User");
    TouchingUser();
  }
}
