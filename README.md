# Bilingual content validation and content manager, in Dafny

This project models the two logic cores of a bilingual (German/English)
marketing site.

**The content validator** (`ContentValidator`) takes two parsed JSON content trees and a parsed configuration. It runs a fixed pipeline of checks, and each check appends messages to an error list or a warning list:

1. the required-section and required-field structure check;
2. the top-level completeness diff between the languages;
3. the shared-expression and explicit-term consistency check;
4. the placeholder scan;
5. the recursive empty-content walk.

Around these it provides a validation report, improvement suggestions (key paths missing in either language, and business-term count mismatches), and an export record with a deployment recommendation.

**The content manager** (`ContentManager`) holds the current language, the loaded pair of content trees and a loaded flag:

- it refuses content that lacks one of the ten page sections;
- it switches language only to one whose content is present;
- it answers notification-message lookups with a total, `''`-defaulting lookup.

## Modules

- `wrappers.dfy`: the `Option` and `Result` datatypes.
- `json.dfy`, module `Json`:
  - the JSON value type, with objects as ordered member lists;
  - JavaScript truthiness (`Truthy`, and `Present` for "defined and truthy");
  - own-property access `Get`: object members, plus `length` and canonical indices of arrays and strings;
  - the texts that template literals, `Array.join`, `String.split` and `String.trim` produce;
  - the `filter` helpers shared by the checks.
- `checks.dfy`, module `ContentChecks`: the five checks of the validator, each as a specification function with an imperative method proved equal to it.
- `keys.dfy`, module `KeyPaths`: `getAllKeys`, with soundness and completeness against chains of members.
- `validator.dfy`, module `ContentValidation`: the class `ContentValidator` and the pipeline, report, suggestion and export functions.
- `manager.dfy`, module `ContentManagement`: the class `ContentManager`, `validateContent` and the load outcome.
- `scenarios.dfy`, module `Scenarios`: the checks evaluated on small trees.

Inputs are modelled as follows:

- **Responses and configuration.** The HTTP responses and the parsed configuration are parameters:
  - `Response` records `ok`, the status, the status text and the parse result;
  - `ValidateAll` receives the configuration load as a `Result`.
- **Regular expressions and `JSON.stringify`.** The source uses them to scan serialised content. They are function-typed parameters:
  - the match list of each placeholder pattern;
  - the occurrence count of each business term, where `None` stands for the term `undefined`.
- **The export timestamp** is a parameter.

## Model

| member | source | states |
|---|---|---|
| Json.LookupFound | js/content-validator.js:34 | a property of an object is defined exactly when some member carries that key, and then a member with that key supplies the value |
| Json.KeysMembership | js/content-validator.js:102-103 | a key is among `Object.keys` of an object exactly when some member carries it |
| Json.IndexRoundTrip | js/content-validator.js:164-166 | the decimal text of every index is read back as that array index, so `items[i]` reaches element `i` |
| Json.GetArrayItem | js/content-validator.js:164-166 | an array's property named by the decimal text of `i < length` is its `i`-th element |
| Json.Split | js/content-validator.js:89 | `split('.')` yields at least one piece |
| Json.SplitPieces | js/content-validator.js:89 | no piece of `split` contains the separator |
| Json.JoinSplit | js/content-validator.js:89 | joining the pieces of `split` with the separator gives back the original path |
| Json.TrimFacts | js/content-validator.js:155-157 | a trimmed string starts and ends with non-whitespace, and is empty exactly when the string is all whitespace |
| Json.MissingSectionsExact | js/content-validator.js:33-37 | a name is reported missing exactly when it is required and not truthy in the tree |
| Json.MissingSectionsOrdered | src/js/content-manager.js:81 | the missing names appear at strictly increasing positions of the required list |
| Json.Without | js/content-validator.js:105-106 | the filtered list is no longer than the first list |
| Json.WithoutExact | js/content-validator.js:105-106 | the filtered list holds exactly the names of the first list absent from the second |
| Json.WithoutOrdered | js/content-validator.js:105-106 | the filtered list keeps the first list's order: each kept name sits at a strictly increasing position of the first list and is absent from the second |
| Json.MapText | js/content-validator.js:108-114 | one message per name, in order, each from its template |
| ContentChecks.StructureCheck | js/content-validator.js:28-51 | the structure check never produces a warning |
| ContentChecks.StructureCheckClean | js/content-validator.js:28-51 | no structure error exactly when every required section is truthy and no present section misses a required field |
| ContentChecks.FieldErrorsExact | js/content-validator.js:40-48 | a field error is reported exactly for a required field that is not truthy inside a section that is truthy |
| ContentChecks.FieldErrorsSound | js/content-validator.js:40-48 | every field error names a rule and a field that is missing from a present section |
| ContentChecks.FieldErrorsComplete | js/content-validator.js:40-48 | every field missing from a present required section is reported |
| ContentChecks.ValidateContentStructure | js/content-validator.js:28-51 | equals `StructureCheck`: section errors in configuration order, then the field errors |
| ContentChecks.SectionErrors | js/content-validator.js:33-37 | one message per required section that is not truthy, in configuration order |
| ContentChecks.AllFieldErrors | js/content-validator.js:40-48 | the loop over `[section, fields]` entries produces the field errors in configuration order |
| ContentChecks.RuleFieldErrors | js/content-validator.js:41-47 | the field errors of one `[section, fields]` entry, none when the section is not truthy |
| ContentChecks.CompletenessCheck | js/content-validator.js:97-117 | no warning; one error per key of `de` absent from `en` plus one per key of `en` absent from `de` |
| ContentChecks.CompletenessSwap | js/content-validator.js:97-117 | swapping the trees swaps the two groups of errors and keeps the total |
| ContentChecks.CompletenessKeys | js/content-validator.js:105-114 | the English group names exactly the German top-level keys that English lacks |
| ContentChecks.ValidateContentCompleteness | js/content-validator.js:97-117 | equals `CompletenessCheck` |
| ContentChecks.PushMessages | js/content-validator.js:108-114 | pushing one message per name appends exactly the mapped messages, in order |
| ContentChecks.ResolveNull | js/content-validator.js:88-92 | once the lookup has produced `null`, it stays `null` |
| ContentChecks.ResolveFalsy | js/content-validator.js:88-92 | a falsy intermediate value with keys left gives `null` |
| ContentChecks.ResolveReaches | js/content-validator.js:88-92 | along a chain of defined properties of truthy values, the lookup yields the value at the end |
| ContentChecks.ResolveSound | js/content-validator.js:88-92 | a non-`null` result is the end of such a chain |
| ContentChecks.SharedWarningsExact | js/content-validator.js:61-70 | at most one warning per shared path, and a path is warned about exactly when its two resolved values are not strictly equal |
| ContentChecks.TermWarningsNone | js/content-validator.js:73-80 | no explicit-term warning exactly when the German list is a prefix of the English list |
| ContentChecks.TermWarningsExact | js/content-validator.js:73-80 | a category's warnings are exactly one per index whose German term differs from the English term at that index (`undefined` past the end), naming both terms |
| ContentChecks.TermWarningsAll | js/content-validator.js:73-80 | when every German term differs from its English counterpart, there is one warning per German term |
| ContentChecks.ConsistencyCheck | js/content-validator.js:56-83 | never an error; with sharing disabled the warnings are the explicit-term warnings alone |
| ContentChecks.ValidateExpressionConsistency | js/content-validator.js:56-83 | equals `ConsistencyCheck`: shared-path warnings when enabled, then explicit-term warnings |
| ContentChecks.SharedExpressionWarnings | js/content-validator.js:62-69 | the shared-path loop produces the shared-path warnings |
| ContentChecks.ExplicitExpressionWarnings | js/content-validator.js:73-80 | the loop over categories produces each category's term warnings in category order |
| ContentChecks.ExplicitTermWarnings | js/content-validator.js:74-79 | the per-category loop produces that category's term warnings |
| ContentChecks.PlaceholderWarnings | js/content-validator.js:127-141 | at most one warning per pattern, and none exactly when no pattern matches |
| ContentChecks.PlaceholderWarningsExact | js/content-validator.js:135-141 | the warnings are exactly one per pattern with matches, each listing that pattern's matches |
| ContentChecks.NodeFindings | js/content-validator.js:153-171 | at most one finding per value: an error exactly for a blank string; a warning exactly for a string of trimmed length 1 or 2, or an empty array; nothing for numbers, booleans and `null` |
| ContentChecks.FindingsOfAppend | js/content-validator.js:152-177 | the findings of a concatenation of nodes are the findings of the parts, in order |
| ContentChecks.CheckValueByNodes | js/content-validator.js:153-172 | the recursive walk of a value equals the per-node findings over its pre-order list of `path[i]` / `path.key` nodes |
| ContentChecks.CheckItemsByNodes | js/content-validator.js:164-166 | the same for the items of an array |
| ContentChecks.CheckMembersByNodes | js/content-validator.js:168-170 | the same for the members of an object |
| ContentChecks.CheckContentByNodes | js/content-validator.js:174-176 | the same for a whole tree, each section's path being its key |
| ContentChecks.CheckEmptyValue | js/content-validator.js:153-172 | appending to the caller's lists leaves the old contents followed by the walk's findings |
| ContentChecks.CheckEmptyItems | js/content-validator.js:164-166 | the array loop appends the items' findings in index order |
| ContentChecks.CheckEmptyMembers | js/content-validator.js:168-170 | the object loop appends the members' findings in member order |
| ContentChecks.CheckEmptyContent | js/content-validator.js:152-177 | the top-level loop appends the tree's findings |
| ContentChecks.SpecificCheck | js/content-validator.js:122-147 | its errors are exactly the empty-content errors |
| ContentChecks.ValidateSpecificExpressions | js/content-validator.js:122-147 | placeholder warnings first, then the walk's findings |
| KeyPaths.GetAllKeys | js/content-validator.js:289-300 | the recursive loop lists every key in pre-order, descending into objects and not into arrays |
| KeyPaths.AllKeysSound | js/content-validator.js:289-300 | every listed key is the dotted text of a chain of members |
| KeyPaths.AllKeysComplete | js/content-validator.js:289-300 | every chain of members is listed under its dotted text |
| KeyPaths.AllKeysHasMember | js/content-validator.js:290-297 | every key a member contributes appears in the list |
| KeyPaths.IsKeyPathExtend | js/content-validator.js:290 | appending a member keeps existing chains |
| ContentValidation.ValidateOrigins | js/content-validator.js:182-228 | the errors are, in order, German structure, English structure, completeness, German empty-content and English empty-content errors; the warnings are, in order, consistency, German specific and English specific warnings |
| ContentValidation.CurlyBracesWarnings | js/content-validator.js:129-141 | when the curly-brace pattern matches in both serialised trees, both languages' curly-brace warnings are among the run's warnings, so there are at least two |
| ContentValidation.ContentValidator.constructor | js/content-validator.js:6-10 | no configuration, and both lists empty |
| ContentValidation.ContentValidator.ValidateAll | js/content-validator.js:182-228 | a failed configuration load is propagated and nothing changes; otherwise both lists are replaced by the pipeline's findings, the configuration is cached, and `isValid` holds exactly when there is no error |
| ContentValidation.RevalidateSameResult | js/content-validator.js:182-228 | two runs with the same inputs give the same result, with nothing accumulated |
| ContentValidation.ContentValidator.GetValidationReport | js/content-validator.js:233-246 | the counts are the list lengths; total is errors plus warnings; valid exactly when there is no error |
| ContentValidation.Recommendation | js/content-validator.js:340-342 | "Fix critical errors before deploying" exactly when there is an error, otherwise "Content is ready for deployment" |
| ContentValidation.ContentValidator.ExportValidationReport | js/content-validator.js:332-344 | the export carries the report, the cached configuration and the timestamp, and recommends fixing exactly when there is an error |
| ContentValidation.MissingTranslations | js/content-validator.js:255-278 | one English record then one German record, each only when its key list is non-empty, each listing the keys absent from the other language |
| ContentValidation.MissingInEnglishSound | js/content-validator.js:255-259 | a key reported missing in English is a chain of German members that no chain in the English tree spells |
| ContentValidation.MissingInEnglishComplete | js/content-validator.js:255-259 | conversely, a chain of German members that no English chain spells is reported missing in English |
| ContentValidation.MissingTranslationsOrdered | js/content-validator.js:255-259 | each missing-key list keeps the order in which its own language's keys are listed |
| ContentValidation.ContentValidator.SuggestImprovements | js/content-validator.js:251-284 | missing-translation records followed by terminology records, or the terminology check's failure |
| ContentValidation.TerminologyCheck | js/content-validator.js:305-327 | fails exactly when no configuration is loaded or it has no `business_terms` category |
| ContentValidation.TermSuggestionsIndexed | js/content-validator.js:311-324 | the records are exactly one per index whose German term and English counterpart occur a different number of times, carrying that index's terms and counts |
| ContentValidation.TermSuggestionsExact | js/content-validator.js:311-324 | at most one record per German term, each with differing counts, and none exactly when every pair of counts agrees |
| ContentValidation.ContentValidator.CheckTerminologyConsistency | js/content-validator.js:305-327 | equals `TerminologyCheck`: the count-mismatch records in term order, or the failure |
| ContentManagement.ContentManager.constructor | src/js/content-manager.js:6-10 | language `de`, empty content, not loaded |
| ContentManagement.ValidateContent | src/js/content-manager.js:79-86 | returns normally exactly when all ten sections are truthy; otherwise the message lists the missing sections joined by ", "; `null` content throws at the first section |
| ContentManagement.ValidateContentMessageOrder | src/js/content-manager.js:81-84 | the listed sections are exactly the missing ones, in the order of the required list |
| ContentManagement.LoadOutcomeExact | src/js/content-manager.js:34-64 | loading succeeds exactly when both responses are ok, both bodies parse and both trees validate; the German status error comes first; on success `de` and `en` name the two trees |
| ContentManagement.ContentManager.LoadContent | src/js/content-manager.js:34-74 | the content is replaced only on success; the error message is returned otherwise |
| ContentManagement.ContentManager.Init | src/js/content-manager.js:15-29 | the manager becomes loaded only when loading succeeds |
| ContentManagement.ContentManager.SwitchLanguage | src/js/content-manager.js:128-141 | the language changes to `lang` exactly when its content is truthy; nothing else changes |
| ContentManagement.ContentManager.PageContent | src/js/content-manager.js:146-149 | no page update while nothing is loaded |
| ContentManagement.LoadedPageHasSections | src/js/content-manager.js:146-177 | once loaded, the page is rendered from a tree with all ten sections, whichever language is current |
| ContentManagement.LoadedLookup | src/js/content-manager.js:61-64 | in the loaded pair only `de` and `en` are truthy, each naming its tree |
| ContentManagement.ValidatedIsObject | src/js/content-manager.js:81 | content that passes validation is an object |
| ContentManagement.ContentManager.GetNotificationMessage | src/js/content-manager.js:521-526 | the result is `''` or truthy |
| ContentManagement.NotificationMessageResolves | src/js/content-manager.js:521-526 | the result is the total nested lookup of `currentLanguage.notifications.type`, or `''` when that is falsy |
| ContentManagement.ContentManager.GetCurrentLanguage | src/js/content-manager.js:531-533 | the current language |
| ContentManagement.ContentManager.IsContentLoaded | src/js/content-manager.js:538-540 | the loaded flag |
| Scenarios.MissingHeroSection | js/content-validator.js:33-37 | requiring `meta` and `hero` of `{meta:{title:"T"}}` gives the single error for `hero` in German |
| Scenarios.HeroMissingInGerman | js/content-validator.js:105-114 | a `hero` only English has gives the single "missing in German content" error |
| Scenarios.EmptyAndShortStrings | js/content-validator.js:154-159 | `""` and `"   "` give an error, `"ab"` a warning, `"abc"` nothing |
| Scenarios.TodoPlaceholder | js/content-validator.js:127-144 | for `{"hero":{"title":"TODO: fix this"}}`, whose serialisation matches the curly-brace and `TODO:` patterns, the specific check gives two warnings, curly-brace first, and no error |
| Scenarios.NestedKeyMissingInEnglish | js/content-validator.js:255-269 | `a.b` only in German gives one English missing-translation record listing `a.b` |

## Left out

- Fetching and parsing are not modelled as behaviour:
  - `loadConfig` and the two `fetch` calls are I/O;
  - their results are parameters of `ValidateAll` and `LoadContent`;
  - `Promise.all` rejection order: when both bodies fail to parse, the German error is taken.
- Regular expressions and `JSON.stringify` are oracles:
  - the placeholder regexes and the serialisation of the tree are one match-list parameter per pattern;
  - the `new RegExp(term, 'g')` counts are a count parameter;
  - so is a term that is not a valid regular expression, which would throw in the source.
- Placeholder match lists are not tied to the tree. Any match list is accepted, including ones no serialised tree produces. In the source, `JSON.stringify` of a tree starts with `{` and ends with `}`, so `/\{.*?\}/g` matches whenever the serialised text holds a `{…}` with no U+2028 or U+2029 character inside. `CurlyBracesWarnings` takes such a match in both trees as its precondition. Under it, a `validateAll` run whose configuration loads has at least two placeholder warnings.
- Clock: the `new Date().toISOString()` timestamp of the export is a parameter.
- DOM and console:
  - the `update*` renderers, `showContentError`, `updateLanguageButtons`, `updateMetaTags` and `setupLanguageSwitcher` write the DOM;
  - so does the `window.currentLanguage` global;
  - console logging is dropped as well.
- ContentManagement.ContentManager.PageContent: models only the `isLoaded` guard and the tree that would be rendered. Which DOM element receives which text is not modelled.
- Thrown messages: `NullContentMessage`, `NoConfigError` and `NoBusinessTermsError` carry the `message` of the `TypeError` in the V8 engine's wording; other engines word it differently.
- Configuration shape: the configuration is a typed record. A configuration missing one of the objects the checks read would make them throw `TypeError`; those throws are not modelled. The missing-configuration and missing-`business_terms` throws of `checkTerminologyConsistency` are.
- Property access:
  - `Get` covers own properties only, so prototype properties such as `constructor` are not seen;
  - `Object.keys` order is modelled as insertion order, which differs from JavaScript for integer-like keys;
  - duplicate keys are not merged (the first member wins on lookup).
- Numbers are integers. Floating point, `NaN` and `-0` are not modelled.
- String length counts Unicode code points, not UTF-16 code units.
- ContentValidation.ContentValidator.ValidateAll and ContentValidation.ContentValidator.GetValidationReport: the source returns the instance's own arrays, so a caller that mutates a returned list changes later reports. The model returns values, and that aliasing is not modelled.
- A rejected `fetch` (a network error rather than a response) cannot be expressed as a `Response`. Its error reaches `loadContent`'s handler like the others in the source, but it is not modelled.
- Two overlapping asynchronous `validateAll` calls both see no configuration and both load it. Interleaving is not modelled: each call runs to completion.
- ContentChecks.CheckEmptyValue: the caller's `errors`/`warnings` arrays are passed in and returned as values. Aliasing of those arrays is not modelled.
- Strict equality of two resolved arrays or objects is always false, because the two trees are separately parsed. No sharing between them is modelled.
- `script.js`, `src/js/script.js` and `src/js/email-protection.js` are timers, animations, listeners and DOM wiring around browser built-ins, and are not part of this model.
