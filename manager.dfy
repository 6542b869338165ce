/** The `ContentManager` object: the two loaded content trees, the current
    language and the loaded flag, with the required-section check that guards
    loading. */
module ContentManagement {

  import opened Wrappers
  import opened Json
  import opened ContentChecks

  const RequiredSections: seq<string> :=
    ["meta", "navigation", "hero", "expertise", "companies", "assessment", "about", "cta", "contact", "footer"]

  const DefaultLanguage := "de"

  function MissingSectionsMessage(language: string, missing: seq<string>): string {
    "Missing required sections in " + language + " content: " + Join(missing, ", ")
  }

  /** The message of the `TypeError` that `null[section]` throws before any
      section is tested. */
  function NullContentMessage(section: string): string {
    "Cannot read properties of null (reading '" + section + "')"
  }

  /** `validateContent(content, language)`: `None` when it returns normally,
      otherwise the message of the error it throws. */
  function ValidateContent(content: Value, language: string): (r: Option<string>)
    ensures r.None? <==> content != Null && forall s :: s in RequiredSections ==> Present(Get(content, s))
    ensures r.Some? && content != Null ==>
      r.value == MissingSectionsMessage(language, MissingSections(content, RequiredSections))
    ensures content == Null ==> r == Some(NullContentMessage("meta"))
  {
    if content == Null then
      Some(NullContentMessage(RequiredSections[0]))
    else
      var missing := MissingSections(content, RequiredSections);
      assert forall s :: s in missing <==> s in RequiredSections && !Present(Get(content, s)) by {
        forall s ensures s in missing <==> s in RequiredSections && !Present(Get(content, s)) {
          MissingSectionsExact(content, RequiredSections, s);
        }
      }
      if |missing| > 0 then
        assert missing[0] in missing;
        Some(MissingSectionsMessage(language, missing))
      else None
  }

  /** The sections named in a thrown message are the missing ones, each once at
      most, in the order of the required list. */
  lemma ValidateContentMessageOrder(content: Value, language: string) returns (idx: seq<nat>)
    requires content != Null && ValidateContent(content, language).Some?
    ensures var missing := MissingSections(content, RequiredSections);
      && missing != []
      && ValidateContent(content, language) == Some(MissingSectionsMessage(language, missing))
      && (forall s :: s in missing <==> s in RequiredSections && !Present(Get(content, s)))
      && |idx| == |missing|
      && (forall i :: 0 <= i < |idx| ==> idx[i] < |RequiredSections| && RequiredSections[idx[i]] == missing[i])
      && (forall i, j :: 0 <= i < j < |idx| ==> idx[i] < idx[j])
  {
    var missing := MissingSections(content, RequiredSections);
    forall s ensures s in missing <==> s in RequiredSections && !Present(Get(content, s)) {
      MissingSectionsExact(content, RequiredSections, s);
    }
    idx := MissingSectionsOrdered(content, RequiredSections);
  }

  /** What one `fetch` yields: the response's status and, when its body is
      read, either the parsed tree or the parse error's message. */
  datatype Response = Response(ok: bool, status: int, statusText: string, body: Result<Value, string>)

  function FailedToLoad(language: string, r: Response): string {
    "Failed to load " + language + " content: " + IntToString(r.status) + " - " + r.statusText
  }

  /** `loadContent()` on the two responses: the content it assigns, or the
      message of the error it throws. */
  function LoadOutcome(deResponse: Response, enResponse: Response): Result<seq<Member>, string> {
    if !deResponse.ok then Failure(FailedToLoad("German", deResponse))
    else if !enResponse.ok then Failure(FailedToLoad("English", enResponse))
    else if deResponse.body.Failure? then Failure(deResponse.body.error)
    else if enResponse.body.Failure? then Failure(enResponse.body.error)
    else
      var de := deResponse.body.value;
      var en := enResponse.body.value;
      match ValidateContent(de, "German")
      case Some(e) => Failure(e)
      case None =>
        match ValidateContent(en, "English")
        case Some(e) => Failure(e)
        case None => Success([Member("de", de), Member("en", en)])
  }

  /** Loading succeeds exactly when both responses are ok, both bodies parse
      and both trees have every required section; it then holds the German
      tree under `de` and the English one under `en`. */
  lemma LoadOutcomeExact(deResponse: Response, enResponse: Response)
    ensures LoadOutcome(deResponse, enResponse).Success? <==>
      && deResponse.ok && enResponse.ok && deResponse.body.Success? && enResponse.body.Success?
      && ValidateContent(deResponse.body.value, "German").None?
      && ValidateContent(enResponse.body.value, "English").None?
    ensures !deResponse.ok ==> LoadOutcome(deResponse, enResponse) == Failure(FailedToLoad("German", deResponse))
    ensures LoadOutcome(deResponse, enResponse).Success? ==>
      var content := LoadOutcome(deResponse, enResponse).value;
      && Lookup(content, "de") == Some(deResponse.body.value)
      && Lookup(content, "en") == Some(enResponse.body.value)
      && Keys(content) == ["de", "en"]
  {
  }

  /** A tree with a truthy `meta` property is an object: strings and arrays
      only have `length` and index properties. */
  lemma ValidatedIsObject(v: Value, language: string)
    requires ValidateContent(v, language).None?
    ensures v.Obj?
  {
  }

  /** In the loaded pair, a truthy language is `de` or `en`, and each names
      its validated tree. */
  lemma LoadedLookup(content: seq<Member>, lang: string)
    requires Loaded(content)
    ensures Present(Lookup(content, lang)) <==> lang == "de" || lang == "en"
    ensures lang == "de" ==> Lookup(content, lang) == Some(content[0].value)
    ensures lang == "en" ==> Lookup(content, lang) == Some(content[1].value)
  {
    ValidatedIsObject(content[0].value, "German");
    ValidatedIsObject(content[1].value, "English");
    assert Lookup(content, lang) == if lang == "de" then Some(content[0].value) else Lookup(content[1..], lang);
    assert Lookup(content[1..], lang) == if lang == "en" then Some(content[1].value) else Lookup(content[1..][1..], lang);
    assert content[1..][1..] == [];
  }

  /** The trees a loaded manager holds: German under `de`, English under `en`,
      both with every required section. */
  ghost predicate Loaded(content: seq<Member>) {
    && |content| == 2
    && content[0].key == "de" && ValidateContent(content[0].value, "German").None?
    && content[1].key == "en" && ValidateContent(content[1].value, "English").None?
  }

  class ContentManager {
    var currentLanguage: string
    var content: seq<Member>
    var isLoaded: bool

    /** Content is either still empty or the pair of validated trees; the
        current language is the default or one the content has; a loaded
        manager has its content. */
    ghost predicate Valid()
      reads this
    {
      && (content == [] || Loaded(content))
      && (currentLanguage == DefaultLanguage || Present(Lookup(content, currentLanguage)))
      && (isLoaded ==> content != [])
    }

    constructor ()
      ensures currentLanguage == "de" && content == [] && !isLoaded
      ensures Valid()
    {
      currentLanguage := DefaultLanguage;
      content := [];
      isLoaded := false;
    }

    /** `loadContent()`: assigns the content only when nothing fails. */
    method LoadContent(deResponse: Response, enResponse: Response) returns (error: Option<string>)
      requires Valid()
      modifies this
      ensures Valid()
      ensures var outcome := LoadOutcome(deResponse, enResponse);
        && (outcome.Success? ==> error == None && content == outcome.value)
        && (outcome.Failure? ==> error == Some(outcome.error) && content == old(content))
      ensures currentLanguage == old(currentLanguage) && isLoaded == old(isLoaded)
    {
      if !deResponse.ok {
        return Some(FailedToLoad("German", deResponse));
      }
      if !enResponse.ok {
        return Some(FailedToLoad("English", enResponse));
      }
      if deResponse.body.Failure? {
        return Some(deResponse.body.error);
      }
      if enResponse.body.Failure? {
        return Some(enResponse.body.error);
      }
      var deContent := deResponse.body.value;
      var enContent := enResponse.body.value;
      var deCheck := ValidateContent(deContent, "German");
      if deCheck.Some? {
        return deCheck;
      }
      var enCheck := ValidateContent(enContent, "English");
      if enCheck.Some? {
        return enCheck;
      }
      if currentLanguage != DefaultLanguage {
        LoadedLookup(content, currentLanguage);
      }
      content := [Member("de", deContent), Member("en", enContent)];
      LoadedLookup(content, currentLanguage);
      error := None;
    }

    /** `init()`: the manager is marked loaded only after loading succeeds;
        a failure is caught and leaves the state as it was. */
    method Init(deResponse: Response, enResponse: Response)
      requires Valid()
      modifies this
      ensures Valid()
      ensures var outcome := LoadOutcome(deResponse, enResponse);
        && isLoaded == (old(isLoaded) || outcome.Success?)
        && content == (if outcome.Success? then outcome.value else old(content))
      ensures currentLanguage == old(currentLanguage)
    {
      var error := LoadContent(deResponse, enResponse);
      if error.None? {
        isLoaded := true;
      }
    }

    /** `switchLanguage(lang)`: only a language whose content is truthy is
        taken. */
    method SwitchLanguage(lang: string)
      requires Valid()
      modifies this
      ensures Valid()
      ensures currentLanguage == (if Present(Lookup(content, lang)) then lang else old(currentLanguage))
      ensures content == old(content) && isLoaded == old(isLoaded)
    {
      if !Present(Lookup(content, lang)) {
        return;
      }
      currentLanguage := lang;
    }

    /** The tree `updatePageContent()` renders from, `None` when it returns
        at once because nothing is loaded yet. */
    function PageContent(): (r: Option<Value>)
      reads this
      ensures !isLoaded ==> r == None
    {
      if !isLoaded then None else Lookup(content, currentLanguage)
    }

    /** `getNotificationMessage(type)`. */
    function GetNotificationMessage(kind: string): (r: Value)
      reads this
      ensures r == Str("") || Truthy(r)
    {
      var current := Get(Obj(content), currentLanguage);
      if !Present(current) then Str("")
      else
        var notifications := Get(current.value, "notifications");
        if !Present(notifications) then Str("")
        else
          var entry := Get(notifications.value, kind);
          if Present(entry) then entry.value else Str("")
    }

    function GetCurrentLanguage(): (r: string)
      reads this
      ensures r == currentLanguage
    {
      currentLanguage
    }

    function IsContentLoaded(): (r: bool)
      reads this
      ensures r == isLoaded
    {
      isLoaded
    }
  }

  /** The message is the value the total nested lookup finds at
      `content[currentLanguage].notifications[kind]`, or `''` when that is
      falsy. */
  lemma NotificationMessageResolves(m: ContentManager, kind: string)
    ensures var v := Resolve(Obj(m.content), [m.currentLanguage, "notifications", kind]);
      m.GetNotificationMessage(kind) == if Truthy(v) then v else Str("")
  {
    var keys := [m.currentLanguage, "notifications", kind];
    assert keys[1..] == ["notifications", kind] && keys[1..][1..] == [kind] && [kind][1..] == [];
    var current := Step(Obj(m.content), m.currentLanguage);
    assert Resolve(Obj(m.content), keys) == Resolve(current, ["notifications", kind]);
    if !Truthy(current) {
      ResolveFalsy(current, ["notifications", kind]);
    } else {
      var notifications := Step(current, "notifications");
      assert Resolve(current, ["notifications", kind]) == Resolve(notifications, [kind]);
      if !Truthy(notifications) {
        ResolveFalsy(notifications, [kind]);
      } else {
        assert Resolve(notifications, [kind]) == Step(notifications, kind);
      }
    }
  }

  /** Once loaded, the page is always rendered from a tree that has every
      required section, whichever language is current. */
  lemma LoadedPageHasSections(m: ContentManager)
    requires m.Valid() && m.isLoaded
    ensures m.PageContent().Some?
    ensures forall s :: s in RequiredSections ==> Present(Get(m.PageContent().value, s))
  {
    LoadedLookup(m.content, m.currentLanguage);
  }
}
