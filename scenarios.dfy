/** The checks evaluated on small trees. */
module Scenarios {

  import opened Wrappers
  import opened Json
  import opened ContentChecks
  import opened ContentValidation
  import opened KeyPaths

  const MetaOnly: Tree := [Member("meta", Obj([Member("title", Str("T"))]))]
  const MetaAndHero: Tree := [Member("meta", Obj([Member("title", Str("T"))])), Member("hero", Obj([]))]
  const MetaAndHeroRequired := Config(["meta", "hero"], [], false, [], [])

  /** A German tree without `hero` gets one structure error naming it. */
  lemma MissingHeroSection()
    ensures StructureCheck(MetaOnly, MetaAndHeroRequired, "German").errors == [SectionMissingText("hero", "German")]
  {
  }

  /** A `hero` only the English tree has is missing in German content. */
  lemma HeroMissingInGerman()
    ensures CompletenessCheck(MetaOnly, MetaAndHero).errors == [MissingInText("hero", "German")]
  {
  }

  /** A blank string is an error, a two-character one a warning, a
      three-character one neither. */
  lemma EmptyAndShortStrings()
    ensures CheckValue(Str(""), "a", "German") == Findings([EmptyMessage("German", "a")], [])
    ensures CheckValue(Str("   "), "a", "German") == Findings([EmptyMessage("German", "a")], [])
    ensures CheckValue(Str("ab"), "a", "German") == Findings([], [ShortMessage("German", "a", "ab")])
    ensures CheckValue(Str("abc"), "a", "German") == NoFindings
  {
  }

  /** The German tree `{"hero":{"title":"TODO: fix this"}}`. */
  const TodoTree: Tree := [Member("hero", Obj([Member("title", Str("TODO: fix this"))]))]

  /** The first match of the curly-brace pattern over the serialised `TodoTree`:
      from its opening `{` up to the first `}`. */
  const TodoTreeBraces := "{\"hero\":{\"title\":\"TODO: fix this\"}"

  /** The match lists of the five patterns over the serialised `TodoTree`:
      the curly-brace match and the `TODO:` match, nothing else. */
  function TodoTreeMatches(p: Pattern): seq<string> {
    if p == CurlyBraces then [TodoTreeBraces] else if p == Todo then ["TODO:"] else []
  }

  /** A `TODO:` inside the tree gives two warnings: the curly-brace one,
      which the serialised tree triggers, then the `TODO:` one; the long
      title adds no empty-content finding. */
  lemma TodoPlaceholder()
    ensures SpecificCheck(TodoTree, "German", TodoTreeMatches)
            == Findings([], [PlaceholderMessage("German", [TodoTreeBraces]), PlaceholderMessage("German", ["TODO:"])])
  {
    TodoTreePlaceholders();
    TodoTreeHasNoEmptyContent();
  }

  lemma TodoTreePlaceholders()
    ensures PlaceholderWarnings(PlaceholderPatterns, TodoTreeMatches, "German")
            == [PlaceholderMessage("German", [TodoTreeBraces]), PlaceholderMessage("German", ["TODO:"])]
  {
    var ps := PlaceholderPatterns;
    var braces := PlaceholderMessage("German", [TodoTreeBraces]);
    var todo := PlaceholderMessage("German", ["TODO:"]);
    assert ps[..4] == [SquareBrackets, CurlyBraces, Todo, Fixme];
    assert ps[..4][..3] == [SquareBrackets, CurlyBraces, Todo];
    assert ps[..4][..3][..2] == [SquareBrackets, CurlyBraces];
    assert ps[..4][..3][..2][..1] == [SquareBrackets];
    assert ps[..4][..3][..2][..1][..0] == [];
    assert TodoTreeMatches(SquareBrackets) == [] && TodoTreeMatches(Fixme) == [] && TodoTreeMatches(PlaceholderWord) == [];
    assert PlaceholderWarnings(ps[..4][..3][..2][..1], TodoTreeMatches, "German") == [];
    assert PlaceholderWarnings(ps[..4][..3][..2], TodoTreeMatches, "German") == [braces];
    assert PlaceholderWarnings(ps[..4][..3], TodoTreeMatches, "German") == [braces, todo];
    assert PlaceholderWarnings(ps[..4], TodoTreeMatches, "German") == [braces, todo];
    assert PlaceholderWarnings(ps, TodoTreeMatches, "German") == [braces, todo];
  }

  lemma TodoTreeHasNoEmptyContent()
    ensures CheckContent(TodoTree, "German") == NoFindings
  {
    var title := Member("title", Str("TODO: fix this"));
    assert [title][..0] == [] && TodoTree[..0] == [];
    assert Trim("TODO: fix this") == "TODO: fix this";
  }

  const NestedGerman: Tree := [Member("a", Obj([Member("b", Str("x"))]))]
  const NestedEnglish: Tree := [Member("a", Obj([]))]

  /** `a.b` only in the German tree yields one English missing-translation record. */
  lemma NestedKeyMissingInEnglish()
    ensures MissingTranslations(AllKeys(NestedGerman, ""), AllKeys(NestedEnglish, ""))
            == [MissingTranslation("English", ["a.b"], "These keys are missing in English content")]
  {
    var b := Member("b", Str("x"));
    assert [b][..0] == [] && NestedGerman[..0] == [] && NestedEnglish[..0] == [];
    assert FullKey("a", "b") == "a.b";
    assert AllKeys([b], "a") == MemberKeys(b, "a") == ["a.b"];
    assert MemberKeys(NestedGerman[0], "") == ["a"] + AllKeys([b], "a");
    assert AllKeys(NestedGerman, "") == ["a", "a.b"];
    assert AllKeys(NestedEnglish, "") == ["a"];
    assert Without(["a", "a.b"], ["a"]) == ["a.b"];
    assert Without(["a"], ["a", "a.b"]) == [];
  }
}
