/**
 * The dictionary document's script: which result set of a definition response
 * it shows, the one lower-case retry, and the page state it moves through
 * ("loading", then "loaded" or "error").
 */
module Dictionary {
  import opened Wrappers
  import UriCoding
  import WikiLinks
  import Embedding

  /** `document.body.dataset.state`; Unset before the script first runs. */
  datatype DataState = Unset | Loading | Loaded | Error

  datatype Definition = Definition(definition: string, examples: Option<seq<string>>)

  datatype Entry = Entry(language: string, partOfSpeech: string, definitions: seq<Definition>)

  /**
   * A definition response: the keys of the JSON object (language codes) with
   * their entry arrays, in object order. A parsed object has distinct keys
   * (see DistinctKeys); the functions below also accept lists with repeats.
   */
  type DefinitionJson = seq<(string, seq<Entry>)>

  predicate DistinctKeys(json: DefinitionJson) {
    forall i, j :: 0 <= i < j < |json| ==> json[i].0 != json[j].0
  }

  /** JavaScript truthiness of a string argument: null, undefined and "" are all false. */
  predicate Truthy(s: Option<string>) { s.Some? && s.value != "" }

  ghost predicate FirstWithKey(json: DefinitionJson, key: string, v: seq<Entry>) {
    exists i :: 0 <= i < |json| && json[i] == (key, v) && forall j :: 0 <= j < i ==> json[j].0 != key
  }

  predicate MentionsLanguage(results: seq<Entry>, name: string) {
    exists k :: 0 <= k < |results| && results[k].language == name
  }

  ghost predicate FirstMentioning(json: DefinitionJson, name: string, v: seq<Entry>) {
    exists i :: 0 <= i < |json| && json[i].1 == v && MentionsLanguage(v, name)
      && forall j :: 0 <= j < i ==> !MentionsLanguage(json[j].1, name)
  }

  /** `json[key]`. */
  function ValueOf(json: DefinitionJson, key: string): (r: Option<seq<Entry>>)
    ensures r.None? <==> forall i :: 0 <= i < |json| ==> json[i].0 != key
    ensures r.Some? ==> FirstWithKey(json, key, r.value)
    decreases |json|
  {
    if json == [] then None
    else if json[0].0 == key then Some(json[0].1)
    else
      var r := ValueOf(json[1..], key);
      if r.Some? then FirstWithKeyShift(json, key, r.value); r else r
  }

  lemma FirstWithKeyShift(json: DefinitionJson, key: string, v: seq<Entry>)
    requires |json| > 0 && json[0].0 != key && FirstWithKey(json[1..], key, v)
    ensures FirstWithKey(json, key, v)
  {
    var i :| 0 <= i < |json[1..]| && json[1..][i] == (key, v) && forall j :: 0 <= j < i ==> json[1..][j].0 != key;
    assert json[i + 1] == (key, v);
    assert forall j :: 1 <= j < i + 1 ==> json[j] == json[1..][j - 1];
  }

  /** On an object's keys, `json[key]` is the value stored under the key. */
  lemma ValueOfDistinct(json: DefinitionJson, i: nat)
    requires DistinctKeys(json) && i < |json|
    ensures ValueOf(json, json[i].0) == Some(json[i].1)
  {
    var r := ValueOf(json, json[i].0);
    var k :| 0 <= k < |json| && json[k] == (json[i].0, r.value) && forall j :: 0 <= j < k ==> json[j].0 != json[i].0;
    assert k == i;
  }

  /** `Object.values(json).find(x => x.some(x => x.language === name))`. */
  function FindByLanguageName(json: DefinitionJson, name: string): (r: Option<seq<Entry>>)
    ensures r.None? <==> forall i :: 0 <= i < |json| ==> !MentionsLanguage(json[i].1, name)
    ensures r.Some? ==> FirstMentioning(json, name, r.value)
    decreases |json|
  {
    if json == [] then None
    else if MentionsLanguage(json[0].1, name) then Some(json[0].1)
    else
      var r := FindByLanguageName(json[1..], name);
      if r.Some? then FirstMentioningShift(json, name, r.value); r else r
  }

  lemma FirstMentioningShift(json: DefinitionJson, name: string, v: seq<Entry>)
    requires |json| > 0 && !MentionsLanguage(json[0].1, name) && FirstMentioning(json[1..], name, v)
    ensures FirstMentioning(json, name, v)
  {
    var i :| 0 <= i < |json[1..]| && json[1..][i].1 == v && MentionsLanguage(v, name)
      && forall j :: 0 <= j < i ==> !MentionsLanguage(json[1..][j].1, name);
    assert json[i + 1].1 == v;
    assert forall j :: 1 <= j < i + 1 ==> json[j] == json[1..][j - 1];
  }

  /**
   * The result set the page shows: the entry of the language code when one is
   * given; otherwise, with a language-name hint, the first entry array that
   * has an item in that language; otherwise the "en" entry.
   */
  function SelectResults(json: DefinitionJson, language: Option<string>, languageName: Option<string>): (r: Option<seq<Entry>>)
    ensures Truthy(language) ==>
      (r.None? <==> forall i :: 0 <= i < |json| ==> json[i].0 != language.value)
      && (r.Some? ==> FirstWithKey(json, language.value, r.value))
    ensures !Truthy(language) && Truthy(languageName) ==>
      (r.None? <==> forall i :: 0 <= i < |json| ==> !MentionsLanguage(json[i].1, languageName.value))
      && (r.Some? ==> FirstMentioning(json, languageName.value, r.value))
    ensures !Truthy(language) && !Truthy(languageName) ==>
      (r.None? <==> forall i :: 0 <= i < |json| ==> json[i].0 != "en")
      && (r.Some? ==> FirstWithKey(json, "en", r.value))
  {
    if Truthy(language) then ValueOf(json, language.value)
    else if Truthy(languageName) then FindByLanguageName(json, languageName.value)
    else ValueOf(json, "en")
  }

  /** Rendering starts with `results[0]`: an absent or empty selection throws, which counts as a failed lookup. */
  predicate Found(results: Option<seq<Entry>>) { results.Some? && |results.value| > 0 }

  /** One call of `wiktionary(word, language, languageName)`. */
  datatype Request = Request(word: string, language: Option<string>, languageName: Option<string>)

  /**
   * `word.toLocaleLowerCase(language)` for a language string, left abstract.
   * The page's language codes come from `Intl.Locale(…).language`, so they
   * are well-formed tags and the conversion does not throw for them.
   */
  type Lowering = (string, string) -> string

  ghost predicate Idempotent(lower: Lowering) {
    forall language, word :: lower(language, lower(language, word)) == lower(language, word)
  }

  /** What the `catch` of `wiktionary` does after a lookup found nothing. */
  datatype Recovery =
    | Retry(next: Request)
    | GiveUp
    | Throws

  /**
   * The recovery as written: with a language code, the lowered word is looked
   * up again (same code, no hint) when lowering changes it, and otherwise the
   * lookup gives up. A lookup started by a click has a null code, and
   * `toLocaleLowerCase(null)` throws a TypeError inside the `catch` (ECMA-402,
   * CanonicalizeLocaleList applies ToObject to null): neither happens.
   */
  function Recover(lower: Lowering, req: Request): (r: Recovery)
    ensures r.Throws? <==> req.language.None?
    ensures r.Retry? <==> req.language.Some? && lower(req.language.value, req.word) != req.word
    ensures r.Retry? ==> r.next == Request(lower(req.language.value, req.word), req.language, None)
  {
    match req.language
    case None => Throws
    case Some(language) =>
      var lowered := lower(language, req.word);
      if lowered != req.word then Retry(Request(lowered, req.language, None)) else GiveUp
  }

  /**
   * The recovery evidently intended, `toLocaleLowerCase(language ?? undefined)`:
   * without a language code the host's default locale lowers the word, and a
   * click lookup then retries or gives up like the first lookup does.
   */
  function IntendedRecover(lower: Lowering, defaultLocale: string, req: Request): (r: Recovery)
    ensures !r.Throws?
    ensures var locale := if req.language.Some? then req.language.value else defaultLocale;
      (r.Retry? <==> lower(locale, req.word) != req.word)
      && (r.Retry? ==> r.next == Request(lower(locale, req.word), req.language, None))
  {
    var locale := if req.language.Some? then req.language.value else defaultLocale;
    var lowered := lower(locale, req.word);
    if lowered != req.word then Retry(Request(lowered, req.language, None)) else GiveUp
  }

  /** The correction changes nothing for a lookup with a language code. */
  lemma IntendedAgreesWithLanguage(lower: Lowering, defaultLocale: string, req: Request)
    requires req.language.Some?
    ensures IntendedRecover(lower, defaultLocale, req) == Recover(lower, req)
  {
  }

  /**
   * The words one lookup fetches under a recovery policy, given whether each
   * successive attempt found results (an attempt without a recorded outcome
   * is still in flight).
   */
  function FetchChain(recover: Request -> Recovery, req: Request, found: seq<bool>): (words: seq<string>)
    ensures |words| >= 1 && words[0] == req.word
    ensures |words| <= |found| + 1
    decreases |found|
  {
    if found == [] || found[0] then [req.word]
    else
      match recover(req)
      case Retry(next) => [req.word] + FetchChain(recover, next, found[1..])
      case _ => [req.word]
  }

  /**
   * With an idempotent lowering, a lookup fetches at most twice, and a second
   * fetch is for the lowered word, which differs from the first.
   */
  lemma {:induction false} AtMostTwoFetches(lower: Lowering, req: Request, found: seq<bool>)
    requires Idempotent(lower)
    ensures var words := FetchChain(r => Recover(lower, r), req, found);
      |words| <= 2
      && (|words| == 2 ==> req.language.Some? && words[1] == lower(req.language.value, req.word) != req.word)
  {
    var recover := r => Recover(lower, r);
    if found != [] && !found[0] && Recover(lower, req).Retry? {
      var next := Recover(lower, req).next;
      assert lower(next.language.value, next.word) == next.word;
      assert !Recover(lower, next).Retry?;
      if found[1..] != [] && !found[1] {
        assert FetchChain(recover, next, found[1..]) == [next.word];
      }
    }
  }

  /** A lookup started by a click fetches once, whatever the lowering: the retry is lost. */
  lemma ClickLookupFetchesOnce(lower: Lowering, word: string, languageName: Option<string>, found: seq<bool>)
    ensures FetchChain(r => Recover(lower, r), Request(word, None, languageName), found) == [word]
  {
  }

  /** The intended recovery keeps the two-fetch bound, for click lookups too. */
  lemma {:induction false} IntendedAtMostTwoFetches(lower: Lowering, defaultLocale: string, req: Request, found: seq<bool>)
    requires Idempotent(lower)
    ensures |FetchChain(r => IntendedRecover(lower, defaultLocale, r), req, found)| <= 2
  {
    var recover := r => IntendedRecover(lower, defaultLocale, r);
    if found != [] && !found[0] && IntendedRecover(lower, defaultLocale, req).Retry? {
      var next := IntendedRecover(lower, defaultLocale, req).next;
      var locale := if req.language.Some? then req.language.value else defaultLocale;
      assert lower(locale, next.word) == next.word;
      assert !IntendedRecover(lower, defaultLocale, next).Retry?;
      if found[1..] != [] && !found[1] {
        assert FetchChain(recover, next, found[1..]) == [next.word];
      }
    }
  }

  /**
   * The lost retry on a concrete link: a click on "/wiki/Bar" whose lookup
   * fails throws where the intended code would look up "bar".
   */
  lemma ClickRetryLost()
    ensures var lower: Lowering := (language, w) => if w == "Bar" then "bar" else w;
      var action := WikiLinks.ClassifyClick(true, Some("/wiki/Bar"));
      && action == WikiLinks.LookUp("Bar", None)
      && Recover(lower, Request(action.word, None, action.languageName)) == Throws
      && IntendedRecover(lower, "en", Request(action.word, None, action.languageName)) == Retry(Request("bar", None, None))
  {
    WikiLinks.ArticleLinkExample();
    assert "Bar" != "bar";
  }

  /** Without idempotence the bound fails: a lowering that needs two steps makes three fetches. */
  lemma ThreeFetchesWithoutIdempotence()
    ensures var lower: Lowering := (language, w) => if w == "AB" then "Ab" else if w == "Ab" then "ab" else w;
      |FetchChain(r => Recover(lower, r), Request("AB", Some("en"), None), [false, false, false])| == 3
  {
    var lower: Lowering := (language, w) => if w == "AB" then "Ab" else if w == "Ab" then "ab" else w;
    var recover := r => Recover(lower, r);
    assert "AB" != "Ab" && "Ab" != "ab";
    assert Recover(lower, Request("AB", Some("en"), None)) == Retry(Request("Ab", Some("en"), None));
    assert Recover(lower, Request("Ab", Some("en"), None)) == Retry(Request("ab", Some("en"), None));
    assert FetchChain(recover, Request("ab", Some("en"), None), [false]) == ["ab"];
  }

  datatype Item = Item(definition: string, examples: seq<string>)

  /** What the script appends to `main`: the heading, one part-of-speech section per entry, or the "not found" notice with its search link. */
  datatype Block =
    | Heading(word: string, language: string)
    | PartOfSpeech(name: string, items: seq<Item>)
    | NotFound(searchUrl: UriCoding.Text)

  function ItemOf(d: Definition): Item {
    Item(d.definition, if d.examples.Some? then d.examples.value else [])
  }

  function SectionOf(e: Entry): Block {
    PartOfSpeech(e.partOfSpeech, seq(|e.definitions|, i requires 0 <= i < |e.definitions| => ItemOf(e.definitions[i])))
  }

  function SectionsOf(results: seq<Entry>): seq<Block> {
    seq(|results|, i requires 0 <= i < |results| => SectionOf(results[i]))
  }

  /** The page of the dictionary tool, from the first lookup on. */
  class DictionaryDocument {
    /** The selection the document was generated for. */
    const selectedText: string
    const lower: Lowering

    var state: DataState
    var main: seq<Block>
    /** The href of the footer's attribution link. */
    var footerLink: Option<string>
    /** The words fetched so far, in order. */
    var fetches: seq<string>
    /** The request whose fetch has not settled yet. */
    var pending: Option<Request>
    /** The fetches issued by the current lookup (the boot lookup or the last followed link). */
    ghost var chainFetches: nat

    ghost predicate Valid()
      reads this
    {
      && (pending.Some? ==> state == Loading)
      && 1 <= chainFetches <= |fetches|
      && (pending.Some? ==> fetches[|fetches| - 1] == pending.value.word)
      && (Idempotent(lower) ==>
            chainFetches <= 2 && (chainFetches == 2 && pending.Some? ==> !Recover(lower, pending.value).Retry?))
    }

    /** The script's last line: look up the selected text (as decoded from its embedding) in the resolved language. */
    constructor (text: string, language: string, lower: Lowering)
      ensures Valid() && selectedText == text && this.lower == lower
      ensures state == Loading && main == [] && footerLink == None
      ensures fetches == [text] && pending == Some(Request(text, Some(language), None))
    {
      selectedText := text;
      this.lower := lower;
      state := Unset;
      main := [];
      footerLink := None;
      fetches := [];
      pending := None;
      chainFetches := 0;
      new;
      Lookup(Embedding.EmbeddedString(text), Some(language), None);
      chainFetches := 1;
    }

    /** The start of `wiktionary`: state "loading" and one fetch for the word. */
    method Lookup(word: string, language: Option<string>, languageName: Option<string>)
      modifies this
      ensures state == Loading && pending == Some(Request(word, language, languageName))
      ensures fetches == old(fetches) + [word]
      ensures main == old(main) && footerLink == old(footerLink) && chainFetches == old(chainFetches)
    {
      state := Loading;
      fetches := fetches + [word];
      pending := Some(Request(word, language, languageName));
    }

    /**
     * The pending fetch settles with a response (None: the request failed, the
     * status was not ok or the body was not JSON). Found results are rendered
     * and the state becomes "loaded"; otherwise the lowered word is looked up
     * once, and when lowering changes nothing the "not found" notice, linking
     * a search for the original selection, is shown with state "error". A
     * lookup without a language code throws instead: the page stays
     * "loading" with nothing in flight.
     */
    method Settle(response: Option<DefinitionJson>)
      requires Valid() && pending.Some?
      modifies this
      ensures Valid()
      ensures var req := old(pending).value;
        var results := if response.Some? then SelectResults(response.value, req.language, req.languageName) else None;
        if Found(results) then
          && state == Loaded && pending == None && fetches == old(fetches)
          && main == old(main) + [Heading(req.word, results.value[0].language)] + SectionsOf(results.value)
          && footerLink == Some(WikiLinks.WikiPrefix + req.word)
        else if Recover(lower, req).Retry? then
          && state == Loading && pending == Some(Recover(lower, req).next)
          && fetches == old(fetches) + [pending.value.word]
          && main == old(main) && footerLink == old(footerLink)
        else if Recover(lower, req).GiveUp? then
          && state == Error && pending == None && fetches == old(fetches)
          && main == old(main) + [NotFound(Embedding.SearchLink(selectedText))]
          && footerLink == old(footerLink)
        else
          && state == Loading && pending == None && fetches == old(fetches)
          && main == old(main) && footerLink == old(footerLink)
      ensures Idempotent(lower) && old(chainFetches) == 2 ==> pending == None
    {
      var req := pending.value;
      var results := if response.Some? then SelectResults(response.value, req.language, req.languageName) else None;
      if results.Some? && |results.value| > 0 {
        RenderResults(req.word, results.value);
        footerLink := Some(WikiLinks.WikiPrefix + req.word);
        state := Loaded;
        pending := None;
      } else if req.language.None? {
        pending := None;
      } else {
        var lowered := lower(req.language.value, req.word);
        if lowered != req.word {
          Lookup(lowered, req.language, None);
          chainFetches := chainFetches + 1;
        } else {
          main := main + [NotFound(Embedding.SearchLink(selectedText))];
          state := Error;
          pending := None;
        }
      }
    }

    /** The heading, then for each entry its part of speech and its definitions, each with its examples. */
    method RenderResults(word: string, results: seq<Entry>)
      requires |results| > 0
      modifies this`main
      ensures main == old(main) + [Heading(word, results[0].language)] + SectionsOf(results)
    {
      main := main + [Heading(word, results[0].language)];
      for i := 0 to |results|
        invariant main == old(main) + [Heading(word, results[0].language)] + SectionsOf(results[..i])
      {
        var defs := results[i].definitions;
        var items: seq<Item> := [];
        for j := 0 to |defs|
          invariant |items| == j
          invariant forall k :: 0 <= k < j ==> items[k] == ItemOf(defs[k])
        {
          var examples: seq<string> := [];
          if defs[j].examples.Some? {
            var given := defs[j].examples.value;
            for k := 0 to |given|
              invariant examples == given[..k]
            {
              examples := examples + [given[k]];
            }
            assert given[..|given|] == given;
          }
          items := items + [Item(defs[j].definition, examples)];
        }
        assert PartOfSpeech(results[i].partOfSpeech, items) == SectionOf(results[i]);
        assert SectionsOf(results[..i + 1]) == SectionsOf(results[..i]) + [SectionOf(results[i])];
        main := main + [PartOfSpeech(results[i].partOfSpeech, items)];
      }
      assert results[..|results|] == results;
    }

    /**
     * A click in `main`: an intercepted cross-reference clears the content and
     * starts a new lookup with no language code; any other click changes nothing.
     */
    method Click(isAnchor: bool, href: Option<string>) returns (intercepted: bool)
      requires Valid()
      modifies this
      ensures Valid()
      ensures var action := WikiLinks.ClassifyClick(isAnchor, href);
        && intercepted == action.LookUp?
        && if action.LookUp? then
          && main == [] && state == Loading && chainFetches == 1
          && pending == Some(Request(action.word, None, action.languageName))
          && fetches == old(fetches) + [action.word] && footerLink == old(footerLink)
        else
          && state == old(state) && main == old(main) && pending == old(pending)
          && fetches == old(fetches) && footerLink == old(footerLink)
    {
      var action := WikiLinks.ClassifyClick(isAnchor, href);
      intercepted := action.LookUp?;
      if action.LookUp? {
        main := [];
        Lookup(action.word, None, action.languageName);
        chainFetches := 1;
      }
    }
  }

  /**
   * A followed cross-reference whose fetch fails leaves the page cleared and
   * "loading" for good: no retry is issued and no notice is shown.
   */
  method FailedClickLookup(doc: DictionaryDocument, href: string)
    requires doc.Valid() && WikiLinks.ClassifyClick(true, Some(href)).LookUp?
    modifies doc
    ensures doc.Valid() && doc.state == Loading && doc.pending == None && doc.main == []
    ensures doc.fetches == old(doc.fetches) + [WikiLinks.ClassifyClick(true, Some(href)).word]
  {
    var intercepted := doc.Click(true, Some(href));
    doc.Settle(None);
  }
}
