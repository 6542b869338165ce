/** The `ContentValidator` object: the whole validation pipeline, its report,
    the improvement suggestions and the export recommendation. */
module ContentValidation {

  import opened Wrappers
  import opened Json
  import opened ContentChecks
  import opened KeyPaths

  /** The checks of `validateAll` in their fixed order: structure of each
      language, completeness, consistency, specific expressions of each language. */
  function Validate(config: Config, de: Tree, en: Tree, deMatches: Pattern -> seq<string>, enMatches: Pattern -> seq<string>)
    : Findings
  {
    Then(Then(Then(Then(Then(
      StructureCheck(de, config, "German"),
      StructureCheck(en, config, "English")),
      CompletenessCheck(de, en)),
      ConsistencyCheck(de, en, config)),
      SpecificCheck(de, "German", deMatches)),
      SpecificCheck(en, "English", enMatches))
  }

  /** Errors come only from the structure, completeness and empty-content
      checks; warnings only from the consistency and specific-expression checks. */
  lemma ValidateOrigins(config: Config, de: Tree, en: Tree, deMatches: Pattern -> seq<string>, enMatches: Pattern -> seq<string>)
    ensures var r := Validate(config, de, en, deMatches, enMatches);
      && r.errors == StructureCheck(de, config, "German").errors + StructureCheck(en, config, "English").errors
                     + CompletenessCheck(de, en).errors
                     + CheckContent(de, "German").errors + CheckContent(en, "English").errors
      && r.warnings == ConsistencyCheck(de, en, config).warnings
                       + SpecificCheck(de, "German", deMatches).warnings + SpecificCheck(en, "English", enMatches).warnings
  {
    ChainOrigins(StructureCheck(de, config, "German"), StructureCheck(en, config, "English"),
                 CompletenessCheck(de, en), ConsistencyCheck(de, en, config),
                 SpecificCheck(de, "German", deMatches), SpecificCheck(en, "English", enMatches));
  }

  lemma ChainOrigins(sd: Findings, se: Findings, c: Findings, x: Findings, pd: Findings, pe: Findings)
    requires sd.warnings == [] && se.warnings == [] && c.warnings == [] && x.errors == []
    ensures var r := Then(Then(Then(Then(Then(sd, se), c), x), pd), pe);
      && r.errors == sd.errors + se.errors + c.errors + pd.errors + pe.errors
      && r.warnings == x.warnings + pd.warnings + pe.warnings
  {
  }

  /** When the curly-brace pattern matches in both serialised trees, each
      language contributes its curly-brace warning, so a run has at least two
      warnings. A serialised tree starts with `{` and ends with `}`, so the
      pattern matches unless a U+2028 or U+2029 character sits between every
      `{` and the next `}`. */
  lemma CurlyBracesWarnings(config: Config, de: Tree, en: Tree, deMatches: Pattern -> seq<string>, enMatches: Pattern -> seq<string>)
    requires deMatches(CurlyBraces) != [] && enMatches(CurlyBraces) != []
    ensures var r := Validate(config, de, en, deMatches, enMatches);
      && PlaceholderMessage("German", deMatches(CurlyBraces)) in r.warnings
      && PlaceholderMessage("English", enMatches(CurlyBraces)) in r.warnings
      && |r.warnings| >= 2
  {
    ValidateOrigins(config, de, en, deMatches, enMatches);
    var x := ConsistencyCheck(de, en, config).warnings;
    var pd := SpecificCheck(de, "German", deMatches).warnings;
    var pe := SpecificCheck(en, "English", enMatches).warnings;
    CurlyBracesWarning(de, "German", deMatches);
    CurlyBracesWarning(en, "English", enMatches);
    assert Validate(config, de, en, deMatches, enMatches).warnings == x + pd + pe;
    assert |x + pd + pe| == |x| + |pd| + |pe|;
  }

  /** One language's specific check carries its curly-brace warning. */
  lemma CurlyBracesWarning(content: Tree, language: string, matches: Pattern -> seq<string>)
    requires matches(CurlyBraces) != []
    ensures PlaceholderMessage(language, matches(CurlyBraces)) in SpecificCheck(content, language, matches).warnings
  {
    assert PlaceholderPatterns[1] == CurlyBraces;
    PlaceholderWarningsExact(PlaceholderPatterns, matches, language, PlaceholderMessage(language, matches(CurlyBraces)));
  }

  datatype ValidationResult = ValidationResult(isValid: bool, errors: seq<string>, warnings: seq<string>)

  datatype Summary = Summary(totalIssues: nat, criticalIssues: nat, minorIssues: nat)

  datatype Report = Report(
    isValid: bool,
    errorCount: nat,
    warningCount: nat,
    errors: seq<string>,
    warnings: seq<string>,
    summary: Summary)

  datatype Suggestion =
    | MissingTranslation(language: string, keys: seq<string>, description: string)
    | TerminologyInconsistency(deTerm: string, enTerm: Option<string>, deCount: nat, enCount: nat, description: string)

  datatype ExportedReport = ExportedReport(timestamp: string, report: Report, config: Option<Config>, recommendations: string)

  const FixErrorsAdvice := "Fix critical errors before deploying"
  const ReadyAdvice := "Content is ready for deployment"

  /** The export's recommendation line. */
  function Recommendation(errorCount: nat): (r: string)
    ensures r == FixErrorsAdvice <==> errorCount > 0
    ensures r == ReadyAdvice <==> errorCount == 0
  {
    if errorCount > 0 then FixErrorsAdvice else ReadyAdvice
  }

  /** One `missing_translation` record per direction, English first, each
      only when its list of keys is non-empty. */
  function MissingTranslations(deKeys: seq<string>, enKeys: seq<string>): (r: seq<Suggestion>)
    ensures var missingInEn := Without(deKeys, enKeys);
            var missingInDe := Without(enKeys, deKeys);
      && |r| == (if missingInEn == [] then 0 else 1) + (if missingInDe == [] then 0 else 1)
      && (forall s :: s in r ==> s.MissingTranslation? && s.keys != [])
      && (missingInEn != [] ==> r[0] == MissingTranslation("English", missingInEn, "These keys are missing in English content"))
      && (missingInDe != [] ==> r[|r| - 1] == MissingTranslation("German", missingInDe, "These keys are missing in German content"))
  {
    var missingInEn := Without(deKeys, enKeys);
    var missingInDe := Without(enKeys, deKeys);
    (if missingInEn != [] then [MissingTranslation("English", missingInEn, "These keys are missing in English content")] else [])
      + (if missingInDe != [] then [MissingTranslation("German", missingInDe, "These keys are missing in German content")] else [])
  }

  /** A key reported missing in English is a chain of members of `de` that
      no chain of members of `en` spells. */
  lemma MissingInEnglishSound(de: Tree, en: Tree, k: string) returns (ks: seq<string>)
    requires k in Without(AllKeys(de, ""), AllKeys(en, ""))
    ensures IsKeyPath(de, ks) && Dotted("", ks) == k
    ensures forall ks' :: IsKeyPath(en, ks') ==> Dotted("", ks') != k
  {
    WithoutExact(AllKeys(de, ""), AllKeys(en, ""), k);
    ks := AllKeysSound(de, "", k);
    forall ks' | IsKeyPath(en, ks') ensures Dotted("", ks') != k {
      AllKeysComplete(en, "", ks');
    }
  }

  /** Conversely, a chain of members of `de` that no chain of members of `en`
      spells is reported missing in English. */
  lemma MissingInEnglishComplete(de: Tree, en: Tree, ks: seq<string>)
    requires IsKeyPath(de, ks)
    requires forall ks' :: IsKeyPath(en, ks') ==> Dotted("", ks') != Dotted("", ks)
    ensures Dotted("", ks) in Without(AllKeys(de, ""), AllKeys(en, ""))
  {
    var k := Dotted("", ks);
    AllKeysComplete(de, "", ks);
    if k in AllKeys(en, "") {
      var ks' := AllKeysSound(en, "", k);
    }
    WithoutExact(AllKeys(de, ""), AllKeys(en, ""), k);
  }

  /** The missing-translation key lists keep the order in which `getAllKeys`
      lists the keys of their own language. */
  lemma MissingTranslationsOrdered(deKeys: seq<string>, enKeys: seq<string>) returns (enIdx: seq<nat>, deIdx: seq<nat>)
    ensures var missingInEn := Without(deKeys, enKeys);
      && |enIdx| == |missingInEn|
      && (forall i :: 0 <= i < |enIdx| ==> enIdx[i] < |deKeys| && deKeys[enIdx[i]] == missingInEn[i])
      && (forall i, j :: 0 <= i < j < |enIdx| ==> enIdx[i] < enIdx[j])
    ensures var missingInDe := Without(enKeys, deKeys);
      && |deIdx| == |missingInDe|
      && (forall i :: 0 <= i < |deIdx| ==> deIdx[i] < |enKeys| && enKeys[deIdx[i]] == missingInDe[i])
      && (forall i, j :: 0 <= i < j < |deIdx| ==> deIdx[i] < deIdx[j])
  {
    enIdx := WithoutOrdered(deKeys, enKeys);
    deIdx := WithoutOrdered(enKeys, deKeys);
  }

  /** `explicitExpressions.business_terms`. */
  function FindCategory(categories: seq<Category>, name: string): Option<Terms> {
    if categories == [] then None
    else if categories[0].name == name then Some(categories[0].terms)
    else FindCategory(categories[1..], name)
  }

  function TermDescription(deTerm: string, enTerm: Option<string>): string {
    "Inconsistent usage of business term: " + deTerm + "/" + TermText(enTerm)
  }

  /** The `terminology_inconsistency` record of one pair of terms. */
  function TermRecord(deTerm: string, enTerm: Option<string>, count: Option<string> -> nat): Suggestion {
    TerminologyInconsistency(deTerm, enTerm, count(Some(deTerm)), count(enTerm), TermDescription(deTerm, enTerm))
  }

  /** `count(term)` stands for the number of matches of `new RegExp(term, 'g')`
      over the serialised pair of trees (`None` is the `undefined` term). */
  function TermSuggestions(de: seq<string>, en: seq<string>, count: Option<string> -> nat): seq<Suggestion> {
    if de == [] then []
    else
      var i := |de| - 1;
      var deCount := count(Some(de[i]));
      var enCount := count(TermAt(en, i));
      TermSuggestions(de[..i], en, count)
        + (if deCount == enCount then []
           else [TermRecord(de[i], TermAt(en, i), count)])
  }

  /** One record per index whose two terms occur a different number of times,
      and none when every pair of counts agrees. */
  lemma {:induction false} TermSuggestionsExact(de: seq<string>, en: seq<string>, count: Option<string> -> nat)
    ensures |TermSuggestions(de, en, count)| <= |de|
    ensures forall s :: s in TermSuggestions(de, en, count) ==> s.TerminologyInconsistency? && s.deCount != s.enCount
    ensures TermSuggestions(de, en, count) == [] <==> forall i :: 0 <= i < |de| ==> count(Some(de[i])) == count(TermAt(en, i))
  {
    if de != [] {
      var i := |de| - 1;
      TermSuggestionsExact(de[..i], en, count);
      assert forall j :: 0 <= j < i ==> de[..i][j] == de[j];
    }
  }

  /** The records are exactly one per index whose German term and English
      counterpart occur a different number of times, carrying that index's
      terms and counts. */
  lemma {:induction false} TermSuggestionsIndexed(de: seq<string>, en: seq<string>, count: Option<string> -> nat, s: Suggestion)
    ensures s in TermSuggestions(de, en, count) <==>
      exists i :: 0 <= i < |de| && count(Some(de[i])) != count(TermAt(en, i)) && s == TermRecord(de[i], TermAt(en, i), count)
  {
    if de != [] {
      var n := |de| - 1;
      var init := de[..n];
      var last := if count(Some(de[n])) == count(TermAt(en, n)) then [] else [TermRecord(de[n], TermAt(en, n), count)];
      assert TermSuggestions(de, en, count) == TermSuggestions(init, en, count) + last;
      TermSuggestionsIndexed(init, en, count, s);
      if s in TermSuggestions(init, en, count) {
        var i :| 0 <= i < n && count(Some(init[i])) != count(TermAt(en, i)) && s == TermRecord(init[i], TermAt(en, i), count);
        assert init[i] == de[i];
      }
      if exists i :: 0 <= i < |de| && count(Some(de[i])) != count(TermAt(en, i)) && s == TermRecord(de[i], TermAt(en, i), count) {
        var i :| 0 <= i < |de| && count(Some(de[i])) != count(TermAt(en, i)) && s == TermRecord(de[i], TermAt(en, i), count);
        if i < n {
          assert init[i] == de[i];
        } else {
          assert s in last;
        }
      }
    }
  }

  /** The messages of the `TypeError`s the property reads throw: the
      configuration is still `null`, or `business_terms` is `undefined`. */
  const NoConfigError := "Cannot read properties of null (reading 'expressionControl')"
  const NoBusinessTermsError := "Cannot read properties of undefined (reading 'de')"

  /** `checkTerminologyConsistency`: fails as the source's property reads do
      when no configuration is loaded or it has no `business_terms` category. */
  function TerminologyCheck(config: Option<Config>, count: Option<string> -> nat): (r: Result<seq<Suggestion>, string>)
    ensures r.Failure? <==> config.None? || FindCategory(config.value.explicitExpressions, "business_terms").None?
  {
    match config
    case None => Failure(NoConfigError)
    case Some(c) =>
      match FindCategory(c.explicitExpressions, "business_terms")
      case None => Failure(NoBusinessTermsError)
      case Some(terms) => Success(TermSuggestions(terms.de, terms.en, count))
  }

  /** `suggestImprovements`: missing translations, then terminology records. */
  function Suggestions(config: Option<Config>, de: Tree, en: Tree, count: Option<string> -> nat)
    : (r: Result<seq<Suggestion>, string>)
  {
    match TerminologyCheck(config, count)
    case Failure(e) => Failure(e)
    case Success(terms) => Success(MissingTranslations(AllKeys(de, ""), AllKeys(en, "")) + terms)
  }

  class ContentValidator {
    var config: Option<Config>
    var validationErrors: seq<string>
    var validationWarnings: seq<string>

    constructor ()
      ensures config == None && validationErrors == [] && validationWarnings == []
    {
      config := None;
      validationErrors := [];
      validationWarnings := [];
    }

    /** `validateAll(de, en)`. `fetched` is what `loadConfig` would produce;
        it is consulted only while no configuration is cached. On a load
        failure nothing changes and the failure is returned; otherwise both
        lists are replaced by the pipeline's findings. */
    method ValidateAll(de: Tree, en: Tree, fetched: Result<Config, string>,
                       deMatches: Pattern -> seq<string>, enMatches: Pattern -> seq<string>)
      returns (r: Result<ValidationResult, string>)
      modifies this
      ensures old(config).None? && fetched.Failure? ==>
        && r == Failure(fetched.error)
        && config == old(config)
        && validationErrors == old(validationErrors) && validationWarnings == old(validationWarnings)
      ensures !(old(config).None? && fetched.Failure?) ==>
        && config == (if old(config).Some? then old(config) else Some(fetched.value))
        && validationErrors == Validate(config.value, de, en, deMatches, enMatches).errors
        && validationWarnings == Validate(config.value, de, en, deMatches, enMatches).warnings
        && r == Success(ValidationResult(validationErrors == [], validationErrors, validationWarnings))
    {
      if config.None? {
        if fetched.Failure? {
          return Failure(fetched.error);
        }
        config := Some(fetched.value);
      }
      validationErrors := [];
      validationWarnings := [];
      var cfg := config.value;

      var deStructure := ValidateContentStructure(de, cfg, "German");
      var enStructure := ValidateContentStructure(en, cfg, "English");
      var completeness := ValidateContentCompleteness(de, en);
      var consistency := ValidateExpressionConsistency(de, en, cfg);
      var deExpressions := ValidateSpecificExpressions(de, "German", deMatches);
      var enExpressions := ValidateSpecificExpressions(en, "English", enMatches);

      validationErrors := deStructure.errors + enStructure.errors + completeness.errors
                          + consistency.errors + deExpressions.errors + enExpressions.errors;
      validationWarnings := deStructure.warnings + enStructure.warnings + completeness.warnings
                            + consistency.warnings + deExpressions.warnings + enExpressions.warnings;
      r := Success(ValidationResult(|validationErrors| == 0, validationErrors, validationWarnings));
    }

    /** `getValidationReport()`: counts and lists of the last run. */
    function GetValidationReport(): (r: Report)
      reads this
      ensures r.errors == validationErrors && r.warnings == validationWarnings
      ensures r.errorCount == |validationErrors| && r.warningCount == |validationWarnings|
      ensures r.isValid <==> validationErrors == []
      ensures r.summary == Summary(r.errorCount + r.warningCount, r.errorCount, r.warningCount)
    {
      var errorCount := |validationErrors|;
      var warningCount := |validationWarnings|;
      Report(errorCount == 0, errorCount, warningCount, validationErrors, validationWarnings,
             Summary(errorCount + warningCount, errorCount, warningCount))
    }

    /** `exportValidationReport()`; the wall-clock timestamp is a parameter. */
    function ExportValidationReport(timestamp: string): (r: ExportedReport)
      reads this
      ensures r.report == GetValidationReport() && r.config == config && r.timestamp == timestamp
      ensures r.recommendations == FixErrorsAdvice <==> validationErrors != []
    {
      ExportedReport(timestamp, GetValidationReport(), config, Recommendation(|validationErrors|))
    }

    /** `checkTerminologyConsistency(de, en)`. */
    method CheckTerminologyConsistency(count: Option<string> -> nat) returns (r: Result<seq<Suggestion>, string>)
      ensures r == TerminologyCheck(config, count)
    {
      if config.None? {
        return Failure(NoConfigError);
      }
      var found := FindCategory(config.value.explicitExpressions, "business_terms");
      if found.None? {
        return Failure(NoBusinessTermsError);
      }
      var terms := found.value;
      var suggestions: seq<Suggestion> := [];
      for index := 0 to |terms.de|
        invariant suggestions == TermSuggestions(terms.de[..index], terms.en, count)
      {
        assert terms.de[..index + 1][..index] == terms.de[..index];
        var deTerm := terms.de[index];
        var enTerm := TermAt(terms.en, index);
        var deCount := count(Some(deTerm));
        var enCount := count(enTerm);
        if deCount != enCount {
          suggestions := suggestions + [TerminologyInconsistency(deTerm, enTerm, deCount, enCount, TermDescription(deTerm, enTerm))];
        }
      }
      assert terms.de[..|terms.de|] == terms.de;
      r := Success(suggestions);
    }

    /** `suggestImprovements(de, en)`. */
    method SuggestImprovements(de: Tree, en: Tree, count: Option<string> -> nat) returns (r: Result<seq<Suggestion>, string>)
      ensures r == Suggestions(config, de, en, count)
    {
      var deKeys := GetAllKeys(de, "");
      var enKeys := GetAllKeys(en, "");
      var missingInEn := Without(deKeys, enKeys);
      var missingInDe := Without(enKeys, deKeys);
      var suggestions: seq<Suggestion> := [];
      if |missingInEn| > 0 {
        suggestions := suggestions + [MissingTranslation("English", missingInEn, "These keys are missing in English content")];
      }
      if |missingInDe| > 0 {
        suggestions := suggestions + [MissingTranslation("German", missingInDe, "These keys are missing in German content")];
      }
      assert suggestions == MissingTranslations(deKeys, enKeys);
      var terminology := CheckTerminologyConsistency(count);
      match terminology {
        case Failure(e) => r := Failure(e);
        case Success(t) => r := Success(suggestions + t);
      }
    }
  }

  /** Validating twice with the same inputs gives the same result: nothing
      accumulates across calls and the cached configuration is the one the
      first call loaded. */
  method RevalidateSameResult(v: ContentValidator, de: Tree, en: Tree, fetched: Result<Config, string>,
                              deMatches: Pattern -> seq<string>, enMatches: Pattern -> seq<string>)
    returns (first: Result<ValidationResult, string>, second: Result<ValidationResult, string>)
    modifies v
    ensures first == second
  {
    first := v.ValidateAll(de, en, fetched, deMatches, enMatches);
    second := v.ValidateAll(de, en, fetched, deMatches, enMatches);
  }
}
