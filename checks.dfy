/** The individual checks of the content validator: structure,
    completeness, expression consistency and specific expressions
    (placeholders and empty content). Each check is a specification
    function producing the errors and warnings in the order the validator
    pushes them, and a method that builds the same lists with loops. */
module ContentChecks {

  import opened Wrappers
  import opened Json

  /** A content tree: the top-level JSON object of one language file. */
  type Tree = seq<Member>

  /** `requiredFields[section]`: fields that must be truthy when the section is. */
  datatype FieldRule = FieldRule(section: string, fields: seq<string>)

  /** The two parallel term lists of one explicit-expression category. */
  datatype Terms = Terms(de: seq<string>, en: seq<string>)

  datatype Category = Category(name: string, terms: Terms)

  /** The parsed validation configuration. */
  datatype Config = Config(
    requiredSections: seq<string>,
    requiredFields: seq<FieldRule>,
    sharedEnabled: bool,
    sharedExpressions: seq<string>,
    explicitExpressions: seq<Category>)

  /** The `{ errors, warnings }` pair that every check returns. */
  datatype Findings = Findings(errors: seq<string>, warnings: seq<string>)

  const NoFindings := Findings([], [])

  /** Both lists of `a` followed by those of `b`. */
  function Then(a: Findings, b: Findings): Findings {
    Findings(a.errors + b.errors, a.warnings + b.warnings)
  }

  lemma ThenAssoc(a: Findings, b: Findings, c: Findings)
    ensures Then(Then(a, b), c) == Then(a, Then(b, c))
  {
  }

  // ---------------------------------------------------------------------
  // Structure check

  function SectionMissingText(section: string, language: string): string {
    "Missing required section: " + section + " in " + language
  }

  function SectionMissing(language: string): string -> string {
    section => SectionMissingText(section, language)
  }

  function FieldMissingText(section: string, field: string, language: string): string {
    "Missing required field: " + section + "." + field + " in " + language
  }

  function FieldMissing(section: string, language: string): string -> string {
    field => FieldMissingText(section, field, language)
  }

  /** The errors of one `[section, fields]` entry: none unless the section is truthy. */
  function RuleErrors(content: Tree, rule: FieldRule, language: string): seq<string> {
    var section := Lookup(content, rule.section);
    if Present(section)
    then MapText(FieldMissing(rule.section, language), MissingSections(section.value, rule.fields))
    else []
  }

  function FieldErrors(content: Tree, rules: seq<FieldRule>, language: string): seq<string> {
    if rules == [] then []
    else FieldErrors(content, rules[..|rules| - 1], language) + RuleErrors(content, rules[|rules| - 1], language)
  }

  /** Section errors in configuration order, then field errors; never a warning. */
  function StructureCheck(content: Tree, config: Config, language: string): (r: Findings)
    ensures r.warnings == []
  {
    Findings(
      MapText(SectionMissing(language), MissingSections(Obj(content), config.requiredSections))
        + FieldErrors(content, config.requiredFields, language),
      [])
  }

  /** Field `f` of `rule` is reported: its section is truthy and the field is not. */
  ghost predicate FieldReported(content: Tree, rule: FieldRule, f: string) {
    var section := Lookup(content, rule.section);
    Present(section) && f in rule.fields && !Present(Get(section.value, f))
  }

  /** A field error is exactly a missing field of a section that is present. */
  lemma FieldErrorsExact(content: Tree, rules: seq<FieldRule>, language: string, e: string)
    ensures e in FieldErrors(content, rules, language) <==>
      exists i, f :: 0 <= i < |rules| && FieldReported(content, rules[i], f)
                     && e == FieldMissingText(rules[i].section, f, language)
  {
    if e in FieldErrors(content, rules, language) {
      var i, f := FieldErrorsSound(content, rules, language, e);
    }
    if exists i, f :: 0 <= i < |rules| && FieldReported(content, rules[i], f)
                      && e == FieldMissingText(rules[i].section, f, language) {
      var i, f :| 0 <= i < |rules| && FieldReported(content, rules[i], f)
                  && e == FieldMissingText(rules[i].section, f, language);
      FieldErrorsComplete(content, rules, language, i, f);
    }
  }

  lemma {:induction false} FieldErrorsSound(content: Tree, rules: seq<FieldRule>, language: string, e: string)
    returns (i: nat, f: string)
    requires e in FieldErrors(content, rules, language)
    ensures i < |rules| && FieldReported(content, rules[i], f) && e == FieldMissingText(rules[i].section, f, language)
  {
    var init := rules[..|rules| - 1];
    var last := rules[|rules| - 1];
    var errs := RuleErrors(content, last, language);
    if e in errs {
      var k :| 0 <= k < |errs| && errs[k] == e;
      var section := Lookup(content, last.section);
      i, f := |rules| - 1, MissingSections(section.value, last.fields)[k];
      MissingSectionsExact(section.value, last.fields, f);
    } else {
      i, f := FieldErrorsSound(content, init, language, e);
      assert rules[i] == init[i];
    }
  }

  lemma {:induction false} FieldErrorsComplete(content: Tree, rules: seq<FieldRule>, language: string, i: nat, f: string)
    requires i < |rules| && FieldReported(content, rules[i], f)
    ensures FieldMissingText(rules[i].section, f, language) in FieldErrors(content, rules, language)
  {
    var init := rules[..|rules| - 1];
    var last := rules[|rules| - 1];
    if i == |rules| - 1 {
      var section := Lookup(content, last.section);
      var missing := MissingSections(section.value, last.fields);
      MissingSectionsExact(section.value, last.fields, f);
      var k :| 0 <= k < |missing| && missing[k] == f;
      assert RuleErrors(content, last, language)[k] == FieldMissingText(last.section, f, language);
    } else {
      assert rules[i] == init[i];
      FieldErrorsComplete(content, init, language, i, f);
    }
  }

  /** The structure check is clean exactly when every required section is
      truthy and no present section misses a required field. */
  lemma StructureCheckClean(content: Tree, config: Config, language: string)
    ensures StructureCheck(content, config, language).errors == [] <==>
      && (forall s :: s in config.requiredSections ==> Present(Lookup(content, s)))
      && (forall i, f :: 0 <= i < |config.requiredFields| ==> !FieldReported(content, config.requiredFields[i], f))
  {
    var rules := config.requiredFields;
    var missing := MissingSections(Obj(content), config.requiredSections);
    var fieldErrors := FieldErrors(content, rules, language);
    forall s ensures s in missing <==> s in config.requiredSections && !Present(Lookup(content, s)) {
      MissingSectionsExact(Obj(content), config.requiredSections, s);
    }
    if missing != [] {
      assert missing[0] in missing;
    }
    if fieldErrors != [] {
      FieldErrorsExact(content, rules, language, fieldErrors[0]);
    }
    forall i, f | 0 <= i < |rules| && FieldReported(content, rules[i], f)
      ensures FieldMissingText(rules[i].section, f, language) in fieldErrors
    {
      FieldErrorsExact(content, rules, language, FieldMissingText(rules[i].section, f, language));
    }
  }

  method ValidateContentStructure(content: Tree, config: Config, language: string) returns (result: Findings)
    ensures result == StructureCheck(content, config, language)
  {
    var errors := SectionErrors(content, config.requiredSections, language);
    var fieldErrors := AllFieldErrors(content, config.requiredFields, language);
    errors := errors + fieldErrors;
    result := Findings(errors, []);
  }

  /** The `Object.entries(requiredFields).forEach` of the structure check. */
  method AllFieldErrors(content: Tree, rules: seq<FieldRule>, language: string) returns (errors: seq<string>)
    ensures errors == FieldErrors(content, rules, language)
  {
    errors := [];
    for j := 0 to |rules|
      invariant errors == FieldErrors(content, rules[..j], language)
    {
      assert rules[..j + 1][..j] == rules[..j];
      var ruleErrors := RuleFieldErrors(content, rules[j], language);
      errors := errors + ruleErrors;
    }
    assert rules[..|rules|] == rules;
  }

  /** The `requiredSections.forEach` of the structure check. */
  method SectionErrors(content: Tree, sections: seq<string>, language: string) returns (errors: seq<string>)
    ensures errors == MapText(SectionMissing(language), MissingSections(Obj(content), sections))
  {
    errors := [];
    for i := 0 to |sections|
      invariant errors == MapText(SectionMissing(language), MissingSections(Obj(content), sections[..i]))
    {
      ghost var f := SectionMissing(language);
      ghost var before := MissingSections(Obj(content), sections[..i]);
      assert sections[..i + 1] == sections[..i] + [sections[i]];
      MissingSectionsSnoc(Obj(content), sections[..i], sections[i]);
      assert Get(Obj(content), sections[i]) == Lookup(content, sections[i]);
      if !Present(Lookup(content, sections[i])) {
        MapTextSnoc(f, before, sections[i]);
        assert f(sections[i]) == SectionMissingText(sections[i], language);
        errors := errors + [SectionMissingText(sections[i], language)];
      }
    }
    assert sections[..|sections|] == sections;
  }

  /** The inner `fields.forEach` of one `[section, fields]` entry. */
  method RuleFieldErrors(content: Tree, rule: FieldRule, language: string) returns (errors: seq<string>)
    ensures errors == RuleErrors(content, rule, language)
  {
    errors := [];
    var section := Lookup(content, rule.section);
    if Present(section) {
      var fields := rule.fields;
      for k := 0 to |fields|
        invariant errors == MapText(FieldMissing(rule.section, language), MissingSections(section.value, fields[..k]))
      {
        assert fields[..k + 1] == fields[..k] + [fields[k]];
        MissingSectionsSnoc(section.value, fields[..k], fields[k]);
        if !Present(Get(section.value, fields[k])) {
          MapTextSnoc(FieldMissing(rule.section, language), MissingSections(section.value, fields[..k]), fields[k]);
          errors := errors + [FieldMissingText(rule.section, fields[k], language)];
        }
      }
      assert fields[..|fields|] == fields;
    }
  }

  // ---------------------------------------------------------------------
  // Completeness check

  function MissingInText(section: string, languageName: string): string {
    "Section '" + section + "' missing in " + languageName + " content"
  }

  function MissingIn(languageName: string): string -> string {
    section => MissingInText(section, languageName)
  }

  /** Top-level keys of `de` absent from `en` (named as missing in English),
      then those of `en` absent from `de`; never a warning. */
  function CompletenessCheck(de: Tree, en: Tree): (r: Findings)
    ensures r.warnings == []
    ensures |r.errors| == |Without(Keys(de), Keys(en))| + |Without(Keys(en), Keys(de))|
  {
    Findings(
      MapText(MissingIn("English"), Without(Keys(de), Keys(en)))
        + MapText(MissingIn("German"), Without(Keys(en), Keys(de))),
      [])
  }

  /** Swapping the trees keeps the number of errors and moves each group of
      missing keys to the other side. */
  lemma CompletenessSwap(de: Tree, en: Tree)
    ensures |CompletenessCheck(en, de).errors| == |CompletenessCheck(de, en).errors|
    ensures var n := |Without(Keys(de), Keys(en))|;
            var m := |Without(Keys(en), Keys(de))|;
            && CompletenessCheck(de, en).errors[..n] == MapText(MissingIn("English"), Without(Keys(de), Keys(en)))
            && CompletenessCheck(en, de).errors[m..] == MapText(MissingIn("German"), Without(Keys(de), Keys(en)))
  {
  }

  /** A key is named in the first group exactly when it is a top-level key of
      `de` and not of `en`. */
  lemma CompletenessKeys(de: Tree, en: Tree, k: string)
    ensures k in Without(Keys(de), Keys(en)) <==>
      (exists i :: 0 <= i < |de| && de[i].key == k) && !(exists j :: 0 <= j < |en| && en[j].key == k)
  {
    WithoutExact(Keys(de), Keys(en), k);
    KeysMembership(de, k);
    KeysMembership(en, k);
  }

  method ValidateContentCompleteness(de: Tree, en: Tree) returns (result: Findings)
    ensures result == CompletenessCheck(de, en)
  {
    var missingInEn := Without(Keys(de), Keys(en));
    var missingInDe := Without(Keys(en), Keys(de));
    var errors := PushMessages([], MissingIn("English"), missingInEn);
    assert errors == MapText(MissingIn("English"), missingInEn);
    errors := PushMessages(errors, MissingIn("German"), missingInDe);
    result := Findings(errors, []);
  }

  /** The loop that pushes one message per name onto the error list. */
  method PushMessages(errors: seq<string>, message: string -> string, names: seq<string>) returns (result: seq<string>)
    ensures result == errors + MapText(message, names)
  {
    result := errors;
    for i := 0 to |names|
      invariant result == errors + MapText(message, names[..i])
    {
      assert names[..i + 1] == names[..i] + [names[i]];
      MapTextSnoc(message, names[..i], names[i]);
      result := result + [message(names[i])];
    }
    assert names[..|names|] == names;
  }

  // ---------------------------------------------------------------------
  // Expression consistency check

  /** One step of `getNestedValue`'s reduce: the property `key` of `current`
      when `current` is truthy and has it defined, `null` otherwise. */
  function Step(current: Value, key: string): Value {
    var next := Get(current, key);
    if Truthy(current) && next.Some? then next.value else Null
  }

  function Resolve(current: Value, keys: seq<string>): Value
    decreases |keys|
  {
    if keys == [] then current else Resolve(Step(current, keys[0]), keys[1..])
  }

  /** `getNestedValue(obj, path)`: total, `null` for any broken path. */
  function GetNestedValue(obj: Value, path: string): Value {
    Resolve(obj, Split(path, '.'))
  }

  /** `keys` leads from `current` to `target` through truthy values with
      defined properties. */
  ghost predicate Reaches(current: Value, keys: seq<string>, target: Value)
    decreases |keys|
  {
    if keys == [] then current == target
    else Truthy(current) && Get(current, keys[0]).Some? && Reaches(Get(current, keys[0]).value, keys[1..], target)
  }

  lemma {:induction false} ResolveNull(keys: seq<string>)
    ensures Resolve(Null, keys) == Null
    decreases |keys|
  {
    if keys != [] {
      ResolveNull(keys[1..]);
    }
  }

  /** Once a falsy value is met, the lookup yields `null` whatever keys remain. */
  lemma ResolveFalsy(current: Value, keys: seq<string>)
    requires !Truthy(current) && keys != []
    ensures Resolve(current, keys) == Null
  {
    ResolveNull(keys[1..]);
  }

  /** Along a path that exists, the lookup yields the value at its end. */
  lemma {:induction false} ResolveReaches(current: Value, keys: seq<string>, target: Value)
    requires Reaches(current, keys, target)
    ensures Resolve(current, keys) == target
    decreases |keys|
  {
    if keys != [] {
      ResolveReaches(Get(current, keys[0]).value, keys[1..], target);
    }
  }

  /** A non-null result is the value at the end of a path that exists. */
  lemma {:induction false} ResolveSound(current: Value, keys: seq<string>)
    requires Resolve(current, keys) != Null
    ensures Reaches(current, keys, Resolve(current, keys))
    decreases |keys|
  {
    if keys != [] {
      if Truthy(current) && Get(current, keys[0]).Some? {
        ResolveSound(Get(current, keys[0]).value, keys[1..]);
      } else {
        ResolveNull(keys[1..]);
      }
    }
  }

  /** `a === b` on two values taken from separately parsed trees: primitives by
      value, arrays and objects never (they are distinct references). */
  predicate StrictEquals(a: Value, b: Value) {
    match (a, b)
    case (Str(x), Str(y)) => x == y
    case (Num(x), Num(y)) => x == y
    case (Bool(x), Bool(y)) => x == y
    case (Null, Null) => true
    case _ => false
  }

  function SharedMessage(expression: string, deValue: Value, enValue: Value): string {
    "Shared expression '" + expression + "' differs between languages: \""
      + JsString(deValue) + "\" vs \"" + JsString(enValue) + "\""
  }

  /** The shared expression resolves to equal values in both trees. */
  predicate Agrees(expression: string, de: Tree, en: Tree) {
    StrictEquals(GetNestedValue(Obj(de), expression), GetNestedValue(Obj(en), expression))
  }

  function SharedWarning(expression: string, de: Tree, en: Tree): string {
    SharedMessage(expression, GetNestedValue(Obj(de), expression), GetNestedValue(Obj(en), expression))
  }

  function SharedWarnings(expressions: seq<string>, de: Tree, en: Tree): seq<string> {
    if expressions == [] then []
    else
      var e := expressions[|expressions| - 1];
      SharedWarnings(expressions[..|expressions| - 1], de, en)
        + (if Agrees(e, de, en) then [] else [SharedWarning(e, de, en)])
  }

  /** One warning for each listed path whose two resolved values differ, and
      nothing else. */
  lemma {:induction false} SharedWarningsExact(expressions: seq<string>, de: Tree, en: Tree, w: string)
    ensures |SharedWarnings(expressions, de, en)| <= |expressions|
    ensures w in SharedWarnings(expressions, de, en) <==>
      exists i :: 0 <= i < |expressions| && !Agrees(expressions[i], de, en) && w == SharedWarning(expressions[i], de, en)
  {
    if expressions != [] {
      var init := expressions[..|expressions| - 1];
      SharedWarningsExact(init, de, en, w);
      assert forall i :: 0 <= i < |init| ==> init[i] == expressions[i];
    }
  }

  /** `String(terms.en[index])`, which is `"undefined"` past the end. */
  function TermText(term: Option<string>): string {
    match term
    case Some(t) => t
    case None => "undefined"
  }

  /** `terms[index]`, `None` standing for `undefined`. */
  function TermAt(terms: seq<string>, index: nat): Option<string> {
    if index < |terms| then Some(terms[index]) else None
  }

  function ExplicitMessage(category: string, term: string, enTerm: Option<string>): string {
    "Explicit expression mismatch in " + category + ": \"" + term + "\" vs \"" + TermText(enTerm) + "\""
  }

  /** One warning per index of `de` whose term differs from `en`'s at that index. */
  function TermWarnings(category: string, de: seq<string>, en: seq<string>): seq<string> {
    if de == [] then []
    else
      var i := |de| - 1;
      TermWarnings(category, de[..i], en)
        + (if TermAt(en, i) == Some(de[i]) then [] else [ExplicitMessage(category, de[i], TermAt(en, i))])
  }

  /** No explicit warning for a category exactly when `de` is a prefix of `en`. */
  lemma {:induction false} TermWarningsNone(category: string, de: seq<string>, en: seq<string>)
    ensures TermWarnings(category, de, en) == [] <==> |de| <= |en| && forall i :: 0 <= i < |de| ==> de[i] == en[i]
  {
    if de != [] {
      var i := |de| - 1;
      TermWarningsNone(category, de[..i], en);
      assert forall j :: 0 <= j < i ==> de[..i][j] == de[j];
    }
  }

  /** A category's warnings are exactly one per index whose German term is not
      the English term at that index (`undefined` past the end of `en`). */
  lemma {:induction false} TermWarningsExact(category: string, de: seq<string>, en: seq<string>, w: string)
    ensures w in TermWarnings(category, de, en) <==>
      exists i :: 0 <= i < |de| && TermAt(en, i) != Some(de[i]) && w == ExplicitMessage(category, de[i], TermAt(en, i))
  {
    if de != [] {
      var n := |de| - 1;
      var init := de[..n];
      var last := if TermAt(en, n) == Some(de[n]) then [] else [ExplicitMessage(category, de[n], TermAt(en, n))];
      assert TermWarnings(category, de, en) == TermWarnings(category, init, en) + last;
      TermWarningsExact(category, init, en, w);
      if w in TermWarnings(category, init, en) {
        var i :| 0 <= i < n && TermAt(en, i) != Some(init[i]) && w == ExplicitMessage(category, init[i], TermAt(en, i));
        assert init[i] == de[i];
      }
      if exists i :: 0 <= i < |de| && TermAt(en, i) != Some(de[i]) && w == ExplicitMessage(category, de[i], TermAt(en, i)) {
        var i :| 0 <= i < |de| && TermAt(en, i) != Some(de[i]) && w == ExplicitMessage(category, de[i], TermAt(en, i));
        if i < n {
          assert init[i] == de[i];
        } else {
          assert w in last;
        }
      }
    }
  }

  /** When every term is translated (differs from its counterpart), every index warns. */
  lemma {:induction false} TermWarningsAll(category: string, de: seq<string>, en: seq<string>)
    requires forall i :: 0 <= i < |de| ==> i >= |en| || de[i] != en[i]
    ensures |TermWarnings(category, de, en)| == |de|
  {
    if de != [] {
      TermWarningsAll(category, de[..|de| - 1], en);
    }
  }

  function ExplicitWarnings(categories: seq<Category>): seq<string> {
    if categories == [] then []
    else
      var c := categories[|categories| - 1];
      ExplicitWarnings(categories[..|categories| - 1]) + TermWarnings(c.name, c.terms.de, c.terms.en)
  }

  /** Shared-expression warnings (when enabled), then explicit-expression
      warnings; never an error. */
  function ConsistencyCheck(de: Tree, en: Tree, config: Config): (r: Findings)
    ensures r.errors == []
    ensures !config.sharedEnabled ==> r.warnings == ExplicitWarnings(config.explicitExpressions)
  {
    Findings(
      [],
      (if config.sharedEnabled then SharedWarnings(config.sharedExpressions, de, en) else [])
        + ExplicitWarnings(config.explicitExpressions))
  }

  method ValidateExpressionConsistency(de: Tree, en: Tree, config: Config) returns (result: Findings)
    ensures result == ConsistencyCheck(de, en, config)
  {
    var warnings: seq<string> := [];
    if config.sharedEnabled {
      warnings := SharedExpressionWarnings(config.sharedExpressions, de, en);
    }
    var explicit := ExplicitExpressionWarnings(config.explicitExpressions);
    if !config.sharedEnabled {
      assert warnings + explicit == explicit;
    }
    warnings := warnings + explicit;
    result := Findings([], warnings);
  }

  /** The loop over the explicit-expression categories: each category's term
      warnings in category order. */
  method ExplicitExpressionWarnings(categories: seq<Category>) returns (warnings: seq<string>)
    ensures warnings == ExplicitWarnings(categories)
  {
    warnings := [];
    for j := 0 to |categories|
      invariant warnings == ExplicitWarnings(categories[..j])
    {
      assert categories[..j + 1][..j] == categories[..j];
      var termWarnings := ExplicitTermWarnings(categories[j]);
      warnings := warnings + termWarnings;
    }
    assert categories[..|categories|] == categories;
  }

  /** The `sharedExpressions.expressions.forEach` of the consistency check. */
  method SharedExpressionWarnings(expressions: seq<string>, de: Tree, en: Tree) returns (warnings: seq<string>)
    ensures warnings == SharedWarnings(expressions, de, en)
  {
    warnings := [];
    for i := 0 to |expressions|
      invariant warnings == SharedWarnings(expressions[..i], de, en)
    {
      assert expressions[..i + 1][..i] == expressions[..i];
      var deValue := GetNestedValue(Obj(de), expressions[i]);
      var enValue := GetNestedValue(Obj(en), expressions[i]);
      if !StrictEquals(deValue, enValue) {
        warnings := warnings + [SharedMessage(expressions[i], deValue, enValue)];
      }
    }
    assert expressions[..|expressions|] == expressions;
  }

  /** The `terms.de.forEach` of one explicit-expression category. */
  method ExplicitTermWarnings(category: Category) returns (warnings: seq<string>)
    ensures warnings == TermWarnings(category.name, category.terms.de, category.terms.en)
  {
    warnings := [];
    var terms := category.terms;
    for index := 0 to |terms.de|
      invariant warnings == TermWarnings(category.name, terms.de[..index], terms.en)
    {
      assert terms.de[..index + 1][..index] == terms.de[..index];
      var enTerm := TermAt(terms.en, index);
      if enTerm != Some(terms.de[index]) {
        warnings := warnings + [ExplicitMessage(category.name, terms.de[index], enTerm)];
      }
    }
    assert terms.de[..|terms.de|] == terms.de;
  }

  // ---------------------------------------------------------------------
  // Specific expressions: placeholder scan

  /** The five placeholder regular expressions, in scan order: `[...]`,
      `{...}`, `TODO:`, `FIXME:` and `placeholder` (the last three ignoring case). */
  datatype Pattern = SquareBrackets | CurlyBraces | Todo | Fixme | PlaceholderWord

  const PlaceholderPatterns: seq<Pattern> := [SquareBrackets, CurlyBraces, Todo, Fixme, PlaceholderWord]

  function PlaceholderMessage(language: string, found: seq<string>): string {
    "Found placeholder patterns in " + language + ": " + Join(found, ", ")
  }

  /** `matches(p)` stands for the match list of pattern `p` over the
      serialised tree (a `null` result read as the empty list). */
  function PlaceholderWarnings(patterns: seq<Pattern>, matches: Pattern -> seq<string>, language: string): (r: seq<string>)
    ensures |r| <= |patterns|
    ensures r == [] <==> forall i :: 0 <= i < |patterns| ==> matches(patterns[i]) == []
  {
    if patterns == [] then []
    else
      var p := patterns[|patterns| - 1];
      var init := PlaceholderWarnings(patterns[..|patterns| - 1], matches, language);
      assert forall i :: 0 <= i < |patterns| - 1 ==> patterns[..|patterns| - 1][i] == patterns[i];
      init + (if matches(p) == [] then [] else [PlaceholderMessage(language, matches(p))])
  }

  /** The warnings are exactly one message per pattern with matches, naming
      those matches. */
  lemma {:induction false} PlaceholderWarningsExact(patterns: seq<Pattern>, matches: Pattern -> seq<string>, language: string, w: string)
    ensures w in PlaceholderWarnings(patterns, matches, language) <==>
      exists i :: 0 <= i < |patterns| && matches(patterns[i]) != [] && w == PlaceholderMessage(language, matches(patterns[i]))
  {
    if patterns != [] {
      var n := |patterns| - 1;
      var init := patterns[..n];
      var last := if matches(patterns[n]) == [] then [] else [PlaceholderMessage(language, matches(patterns[n]))];
      assert PlaceholderWarnings(patterns, matches, language) == PlaceholderWarnings(init, matches, language) + last;
      PlaceholderWarningsExact(init, matches, language, w);
      if w in PlaceholderWarnings(init, matches, language) {
        var i :| 0 <= i < n && matches(init[i]) != [] && w == PlaceholderMessage(language, matches(init[i]));
        assert init[i] == patterns[i];
      }
      if exists i :: 0 <= i < |patterns| && matches(patterns[i]) != [] && w == PlaceholderMessage(language, matches(patterns[i])) {
        var i :| 0 <= i < |patterns| && matches(patterns[i]) != [] && w == PlaceholderMessage(language, matches(patterns[i]));
        if i < n {
          assert init[i] == patterns[i];
        } else {
          assert w in last;
        }
      }
    }
  }

  // ---------------------------------------------------------------------
  // Specific expressions: empty-content walk

  function EmptyMessage(language: string, path: string): string {
    "Empty content found in " + language + ": " + path
  }

  function ShortMessage(language: string, path: string, value: string): string {
    "Very short content found in " + language + ": " + path + " (\"" + value + "\")"
  }

  function EmptyArrayMessage(language: string, path: string): string {
    "Empty array found in " + language + ": " + path
  }

  function IndexPath(path: string, index: nat): string {
    path + "[" + NatToString(index) + "]"
  }

  function KeyPath(path: string, key: string): string {
    path + "." + key
  }

  /** `checkValue(value, path)`. */
  function CheckValue(v: Value, path: string, language: string): Findings
    decreases v
  {
    match v
    case Str(s) =>
      if Trim(s) == [] then Findings([EmptyMessage(language, path)], [])
      else if |Trim(s)| < 3 then Findings([], [ShortMessage(language, path, s)])
      else NoFindings
    case Arr(items) =>
      Then(Findings([], if items == [] then [EmptyArrayMessage(language, path)] else []),
           CheckItems(items, path, language))
    case Obj(members) => CheckMembers(members, path, language)
    case _ => NoFindings
  }

  function CheckItems(items: seq<Value>, path: string, language: string): Findings
    decreases items
  {
    if items == [] then NoFindings
    else
      var i := |items| - 1;
      Then(CheckItems(items[..i], path, language), CheckValue(items[i], IndexPath(path, i), language))
  }

  function CheckMembers(members: seq<Member>, path: string, language: string): Findings
    decreases members
  {
    if members == [] then NoFindings
    else
      var m := members[|members| - 1];
      Then(CheckMembers(members[..|members| - 1], path, language), CheckValue(m.value, KeyPath(path, m.key), language))
  }

  /** `checkEmptyContent`: each top-level section is walked with its own name as path. */
  function CheckContent(content: Tree, language: string): Findings {
    if content == [] then NoFindings
    else
      var m := content[|content| - 1];
      Then(CheckContent(content[..|content| - 1], language), CheckValue(m.value, m.key, language))
  }

  /** A node met by the walk, with the path the walk gives it. */
  datatype Node = Node(path: string, value: Value)

  /** Every node of `v` in pre-order, paths built as the walk builds them. */
  function Nodes(v: Value, path: string): seq<Node>
    decreases v
  {
    [Node(path, v)]
      + match v
        case Arr(items) => ItemNodes(items, path)
        case Obj(members) => MemberNodes(members, path)
        case _ => []
  }

  function ItemNodes(items: seq<Value>, path: string): seq<Node>
    decreases items
  {
    if items == [] then []
    else
      var i := |items| - 1;
      ItemNodes(items[..i], path) + Nodes(items[i], IndexPath(path, i))
  }

  function MemberNodes(members: seq<Member>, path: string): seq<Node>
    decreases members
  {
    if members == [] then []
    else
      var m := members[|members| - 1];
      MemberNodes(members[..|members| - 1], path) + Nodes(m.value, KeyPath(path, m.key))
  }

  function ContentNodes(content: Tree): seq<Node> {
    if content == [] then []
    else
      var m := content[|content| - 1];
      ContentNodes(content[..|content| - 1]) + Nodes(m.value, m.key)
  }

  /** What a single node contributes: an error for a blank string, a warning
      for a string whose trimmed length is 1 or 2 or for an empty array, and
      nothing for anything else. */
  function NodeFindings(n: Node, language: string): (r: Findings)
    ensures |r.errors| + |r.warnings| <= 1
    ensures r.errors != [] <==> n.value.Str? && Trim(n.value.s) == []
    ensures r.warnings != [] <==> (n.value.Str? && 1 <= |Trim(n.value.s)| <= 2) || n.value == Arr([])
    ensures !n.value.Str? && !n.value.Arr? ==> r == NoFindings
  {
    match n.value
    case Str(s) =>
      if Trim(s) == [] then Findings([EmptyMessage(language, n.path)], [])
      else if |Trim(s)| < 3 then Findings([], [ShortMessage(language, n.path, s)])
      else NoFindings
    case Arr(items) => Findings([], if items == [] then [EmptyArrayMessage(language, n.path)] else [])
    case _ => NoFindings
  }

  function FindingsOf(nodes: seq<Node>, language: string): Findings {
    if nodes == [] then NoFindings
    else Then(FindingsOf(nodes[..|nodes| - 1], language), NodeFindings(nodes[|nodes| - 1], language))
  }

  lemma {:induction false} FindingsOfAppend(a: seq<Node>, b: seq<Node>, language: string)
    ensures FindingsOf(a + b, language) == Then(FindingsOf(a, language), FindingsOf(b, language))
    decreases |b|
  {
    if b == [] {
      assert a + b == a;
    } else {
      var b' := b[..|b| - 1];
      assert (a + b)[..|a + b| - 1] == a + b';
      FindingsOfAppend(a, b', language);
    }
  }

  /** The walk reports, in order, what each node of the tree contributes:
      every node is visited once, in pre-order. */
  lemma {:induction false} CheckValueByNodes(v: Value, path: string, language: string)
    ensures CheckValue(v, path, language) == FindingsOf(Nodes(v, path), language)
    decreases v
  {
    var head := [Node(path, v)];
    assert FindingsOf(head, language) == NodeFindings(Node(path, v), language);
    match v {
      case Arr(items) =>
        CheckItemsByNodes(items, path, language);
        FindingsOfAppend(head, ItemNodes(items, path), language);
      case Obj(members) =>
        CheckMembersByNodes(members, path, language);
        FindingsOfAppend(head, MemberNodes(members, path), language);
      case _ =>
        assert Nodes(v, path) == head;
    }
  }

  lemma {:induction false} CheckItemsByNodes(items: seq<Value>, path: string, language: string)
    ensures CheckItems(items, path, language) == FindingsOf(ItemNodes(items, path), language)
    decreases items
  {
    if items != [] {
      var i := |items| - 1;
      CheckItemsByNodes(items[..i], path, language);
      CheckValueByNodes(items[i], IndexPath(path, i), language);
      FindingsOfAppend(ItemNodes(items[..i], path), Nodes(items[i], IndexPath(path, i)), language);
    }
  }

  lemma {:induction false} CheckMembersByNodes(members: seq<Member>, path: string, language: string)
    ensures CheckMembers(members, path, language) == FindingsOf(MemberNodes(members, path), language)
    decreases members
  {
    if members != [] {
      var m := members[|members| - 1];
      CheckMembersByNodes(members[..|members| - 1], path, language);
      CheckValueByNodes(m.value, KeyPath(path, m.key), language);
      FindingsOfAppend(MemberNodes(members[..|members| - 1], path), Nodes(m.value, KeyPath(path, m.key)), language);
    }
  }

  /** The empty-content walk of a whole tree is the per-node classification
      of all its nodes, in pre-order. */
  lemma {:induction false} CheckContentByNodes(content: Tree, language: string)
    ensures CheckContent(content, language) == FindingsOf(ContentNodes(content), language)
  {
    if content != [] {
      var m := content[|content| - 1];
      CheckContentByNodes(content[..|content| - 1], language);
      CheckValueByNodes(m.value, m.key, language);
      FindingsOfAppend(ContentNodes(content[..|content| - 1]), Nodes(m.value, m.key), language);
    }
  }

  /** `checkValue`, pushing onto the caller's lists `errors` and `warnings`. */
  method CheckEmptyValue(v: Value, path: string, language: string, errors: seq<string>, warnings: seq<string>)
    returns (errs: seq<string>, warns: seq<string>)
    ensures Findings(errs, warns) == Then(Findings(errors, warnings), CheckValue(v, path, language))
    decreases v
  {
    errs, warns := errors, warnings;
    match v {
      case Str(s) =>
        if Trim(s) == [] {
          errs := errs + [EmptyMessage(language, path)];
        } else if |Trim(s)| < 3 {
          warns := warns + [ShortMessage(language, path, s)];
        }
      case Arr(items) =>
        if |items| == 0 {
          warns := warns + [EmptyArrayMessage(language, path)];
        }
        errs, warns := CheckEmptyItems(items, path, language, errs, warns);
      case Obj(members) =>
        errs, warns := CheckEmptyMembers(members, path, language, errs, warns);
      case _ =>
    }
  }

  /** The walk over an array's items, each under its path with the index in brackets. */
  method CheckEmptyItems(items: seq<Value>, path: string, language: string, errors: seq<string>, warnings: seq<string>)
    returns (errs: seq<string>, warns: seq<string>)
    ensures Findings(errs, warns) == Then(Findings(errors, warnings), CheckItems(items, path, language))
    decreases items
  {
    errs, warns := errors, warnings;
    for i := 0 to |items|
      invariant Findings(errs, warns) == Then(Findings(errors, warnings), CheckItems(items[..i], path, language))
    {
      assert items[..i + 1][..i] == items[..i];
      ghost var before := CheckItems(items[..i], path, language);
      ghost var item := CheckValue(items[i], IndexPath(path, i), language);
      assert CheckItems(items[..i + 1], path, language) == Then(before, item);
      ThenAssoc(Findings(errors, warnings), before, item);
      errs, warns := CheckEmptyValue(items[i], IndexPath(path, i), language, errs, warns);
    }
    assert items[..|items|] == items;
  }

  /** The walk over an object's members, each under its path with `.key` appended. */
  method CheckEmptyMembers(members: seq<Member>, path: string, language: string, errors: seq<string>, warnings: seq<string>)
    returns (errs: seq<string>, warns: seq<string>)
    ensures Findings(errs, warns) == Then(Findings(errors, warnings), CheckMembers(members, path, language))
    decreases members
  {
    errs, warns := errors, warnings;
    for i := 0 to |members|
      invariant Findings(errs, warns) == Then(Findings(errors, warnings), CheckMembers(members[..i], path, language))
    {
      assert members[..i + 1][..i] == members[..i];
      ghost var before := CheckMembers(members[..i], path, language);
      ghost var member := CheckValue(members[i].value, KeyPath(path, members[i].key), language);
      assert CheckMembers(members[..i + 1], path, language) == Then(before, member);
      ThenAssoc(Findings(errors, warnings), before, member);
      errs, warns := CheckEmptyValue(members[i].value, KeyPath(path, members[i].key), language, errs, warns);
    }
    assert members[..|members|] == members;
  }

  /** `checkEmptyContent(content, language, errors, warnings)`. */
  method CheckEmptyContent(content: Tree, language: string, errors: seq<string>, warnings: seq<string>)
    returns (errs: seq<string>, warns: seq<string>)
    ensures Findings(errs, warns) == Then(Findings(errors, warnings), CheckContent(content, language))
  {
    errs, warns := errors, warnings;
    for i := 0 to |content|
      invariant Findings(errs, warns) == Then(Findings(errors, warnings), CheckContent(content[..i], language))
    {
      assert content[..i + 1][..i] == content[..i];
      ghost var before := CheckContent(content[..i], language);
      ghost var section := CheckValue(content[i].value, content[i].key, language);
      assert CheckContent(content[..i + 1], language) == Then(before, section);
      ThenAssoc(Findings(errors, warnings), before, section);
      errs, warns := CheckEmptyValue(content[i].value, content[i].key, language, errs, warns);
    }
    assert content[..|content|] == content;
  }

  /** Placeholder warnings first, then the empty-content walk's findings. */
  function SpecificCheck(content: Tree, language: string, matches: Pattern -> seq<string>): (r: Findings)
    ensures r.errors == CheckContent(content, language).errors
  {
    Then(Findings([], PlaceholderWarnings(PlaceholderPatterns, matches, language)), CheckContent(content, language))
  }

  method ValidateSpecificExpressions(content: Tree, language: string, matches: Pattern -> seq<string>)
    returns (result: Findings)
    ensures result == SpecificCheck(content, language, matches)
  {
    var warnings: seq<string> := [];
    var patterns := PlaceholderPatterns;
    for i := 0 to |patterns|
      invariant warnings == PlaceholderWarnings(patterns[..i], matches, language)
    {
      assert patterns[..i + 1][..i] == patterns[..i];
      var found := matches(patterns[i]);
      if found != [] {
        warnings := warnings + [PlaceholderMessage(language, found)];
      }
    }
    assert patterns[..|patterns|] == patterns;
    var errors;
    errors, warnings := CheckEmptyContent(content, language, [], warnings);
    result := Findings(errors, warnings);
  }
}
