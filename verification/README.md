# Selection lookup tools: a verified model

Foliate's text-selection popover offers three lookup tools (dictionary, encyclopedia, translation). Each tool is a generated HTML document with an inline script, loaded into a WebKit view. Most of `src/selection-tools.js` is GTK/WebKit wiring and templates. This project models the few rules that decide what those documents do, and proves what they promise:

- **URI coding** (`uri_coding.dfy`, `utf8.dfy`): the Encode and Decode abstract operations of ECMA-262 (section 19.2.6). They sit behind `encodeURIComponent`/`decodeURIComponent` and `encodeURI`/`decodeURI`. Percent-encoding follows section 2.1 of RFC 3986 and UTF-8 follows RFC 3629. A JavaScript string is modelled as its code points, and a surrogate value stands for an unpaired surrogate. Proved: decode after encode is the identity, and encode throws exactly on unpaired surrogates. UTF-8 decoding accepts exactly the encoder's outputs.
- **Embedding** (`embedding.dfy`): the host writes the selection and the labels as `decodeURIComponent("${encodeURIComponent(s)}")`, and the catalog as `decodeURI("${encodeURI(…)}")`. Proved: the script sees `s` unchanged. The encoded form cannot end or alter a `"…"` literal, a template literal or a double-quoted attribute.
- **Language helpers** (`language.dfy`): `getLanguage` falls back to `"en"`. The translation default is the first locale match, else `"en"`, and it is supported whenever the matcher returns supported codes.
- **Cross-reference clicks** (`wiki_links.dfy`): the dictionary's click listener decides which `/wiki/` links become in-page lookups (word and language-name hint) and which navigate normally.
- **Navigation policy** (`navigation.dfy`): the web view's `decide-policy` handler. It vetoes every navigation or new-window action outside the `foliate:` scheme and hands it to the URI launcher once.
- **Dictionary lifecycle** (`dictionary.dfy`): result-set selection (language code, then language-name hint, then `"en"`), the single lower-case retry, and the page state `loading` → `loaded` | `error`. A lookup started by a click has no language code, and its retry throws instead (see Findings). This is a `DictionaryDocument` class whose methods are the script's event handlers. A fetch is issued by `Lookup` and completes in `Settle`.
- **Translation result** (`translate.dfy`): the in-order concatenation of each segment's first component, or the failure label.

Network responses are parameters: `Settle` receives the parsed definition response, or None on failure. Locale-dependent lowering (`toLocaleLowerCase`), `Intl.Locale`, `Intl.DisplayNames` and `matchLocales` are abstract functions or given results.

## Model

| member | source | states |
|---|---|---|
| Utf8.EncodeScalar | src/selection-tools.js:178 | the UTF-8 octets of a scalar value: 1 to 4 bytes, one only below U+0080, a lead octet announcing the length, continuation octets after it |
| Utf8.DecodeSequence | src/selection-tools.js:178 | a decoded octet sequence is valid UTF-8: its value is a scalar value whose encoding is exactly those octets, so overlong forms, surrogates, values above U+10FFFF and bad continuations are rejected |
| Utf8.DecodeEncode | src/selection-tools.js:178 | decoding the encoder's octets yields the scalar value back |
| UriCoding.HexValue | src/selection-tools.js:178 | a hexadecimal digit's value is below 16, and an upper-case digit is the one the encoder writes for that value |
| UriCoding.EscapeOctet | src/selection-tools.js:178 | an octet is written as "%" and two upper-case hex digits that parse back to the octet |
| UriCoding.Encode | src/selection-tools.js:178 | encoding succeeds exactly when the text has no unpaired surrogate (otherwise URIError), and its result consists only of unescaped characters and "%XX" triplets |
| UriCoding.ReadOctets | src/selection-tools.js:178 | reading n escapes yields n octets and consumes 3n characters that are present, each "%" among them followed by two hex digits |
| UriCoding.DecodeEscape | src/selection-tools.js:178 | a decoded escape consumes at least the 3 characters of "%XX" and never more than remain, and every "%" it consumed is followed by two hex digits |
| UriCoding.Decode | src/selection-tools.js:178 | a decoded string is never longer than its input; Decode throws URIError whenever some "%" is not followed by two hexadecimal digits |
| UriCoding.DecodeEncode | src/selection-tools.js:178 | decodeURIComponent(encodeURIComponent(t)) == t and decodeURI(encodeURI(t)) == t for every text without unpaired surrogates |
| UriCoding.EscapedAlphabet | src/selection-tools.js:146 | every character of an encoded string is an unescaped character, "%" or an upper-case hex digit |
| Embedding.CodePoints | src/selection-tools.js:178 | a host string read as code points has the same length and characters and contains no unpaired surrogate |
| Embedding.EmbeddedString | src/selection-tools.js:178 | the string the generated script decodes from its embedding is exactly the host's string (also the labels at :144, :232 and :280 and the word at :206) |
| Embedding.ComponentLiteralSafe | src/selection-tools.js:284 | encodeURIComponent of host text throws exactly on unpaired surrogates; otherwise it holds only letters, digits, -_.!~*'() and %XX, and no quote, backslash, line terminator, backtick or "$" |
| Embedding.CatalogTransport | src/selection-tools.js:287 | the catalog's encodeURI form has no quote, backslash, line terminator or backtick, and decodeURI restores the serialized catalog |
| Embedding.SearchLink | src/selection-tools.js:146 | the "not found" search link is the Wiktionary search URL followed by a query that decodes to the original selected text |
| Language.GetLanguage | src/selection-tools.js:12-19 | the language subtag when the locale parses, "en" when parsing throws; the function never fails |
| Language.DefaultTranslateLanguage | src/selection-tools.js:27 | the first locale match, or "en" when there is none |
| Language.DefaultIsSupported | src/selection-tools.js:26-27 | if the matcher returns only supported codes, the default is a supported code ("en" is in the list) |
| Language.Catalog | src/selection-tools.js:28 | one catalog pair per supported code, in list order |
| WikiLinks.IndexOf | src/selection-tools.js:167 | the first occurrence of a pattern at or after a position, or None when it occurs nowhere there |
| WikiLinks.RemovePrefix | src/selection-tools.js:167 | `replace('/wiki/', '')` on a link that starts with "/wiki/" takes off exactly that prefix |
| WikiLinks.FirstIndex | src/selection-tools.js:167 | the position of the first occurrence of a character |
| WikiLinks.SplitOn | src/selection-tools.js:167 | `split('#')` yields at least one piece, no piece contains "#", and the pieces joined with "#" give the input back |
| WikiLinks.ReplaceAll | src/selection-tools.js:172 | same length, with every "_" replaced by a space and every other character kept |
| WikiLinks.ClassifyClick | src/selection-tools.js:162-176 | a click is intercepted only on an A element whose href starts with "/wiki/"; every other click navigates normally |
| WikiLinks.SplitHead | src/selection-tools.js:167 | the first piece of the split is the text before the first "#"; there is a second piece exactly when there is a "#", and it is the text between the first and second "#" |
| WikiLinks.PrefixBeforeHash | src/selection-tools.js:167-168 | a prefix without "#" starts the page name exactly when it starts the part before the first "#" |
| WikiLinks.NamespaceShape | src/selection-tools.js:155-160 | every listed namespace starts with an upper-case letter and contains no "#" |
| WikiLinks.NamespaceLinkFollowed | src/selection-tools.js:155-169 | a /wiki/ link whose page name starts with a listed namespace and ":" or "_talk:" is never intercepted |
| WikiLinks.ArticleLinkLookedUp | src/selection-tools.js:167-172 | any other /wiki/ link is intercepted: the word is the text before the first "#" with "_" turned into spaces, and the hint is the text between the first and second "#", absent without a "#" |
| WikiLinks.NotPrefixWhereDiffers | src/selection-tools.js:168 | a string that differs from p within p's length does not start with p |
| WikiLinks.ColonFreeWordOutsideNamespaces | src/selection-tools.js:168-169 | a page name without ":" is never in an excluded namespace |
| WikiLinks.LowerCaseInitialOutsideNamespaces | src/selection-tools.js:168-169 | the namespace test is case-sensitive: a page name starting with a lower-case letter is never excluded |
| WikiLinks.TalkPageLinkFollowed | src/selection-tools.js:162-176 | "/wiki/Talk:Foo" navigates normally |
| WikiLinks.ArticleLinkExample | src/selection-tools.js:162-176 | "/wiki/Bar" becomes a lookup of "Bar" without a hint |
| WikiLinks.LowerCaseTalkLinkLookedUp | src/selection-tools.js:162-176 | "/wiki/talk:Foo" becomes a lookup of "talk:Foo" |
| Navigation.DecidePolicy | src/selection-tools.js:316-328 | the handler ignores the decision exactly for navigation and new-window actions outside "foliate:"; it then returns true and launches that URI once, and otherwise launches nothing |
| Navigation.DocumentLoadAllowed | src/selection-tools.js:340 | loading a generated document under "foliate:selection-tool" is never vetoed or launched, whatever the decision type |
| Navigation.ResolveInDictionary | src/selection-tools.js:76 | a "/…" link in the dictionary resolves under https://en.wiktionary.org/ |
| Navigation.DictionaryLinkOpensExternally | src/selection-tools.js:316-328 | following a relative link of the dictionary document vetoes the navigation and launches the resolved https URI exactly once |
| Navigation.WikiLinkIsPathAbsolute | src/selection-tools.js:166 | a link starting with "/wiki/" is a path-absolute reference |
| Navigation.NamespaceLinkLaunched | src/selection-tools.js:321-324 | a click on a link into an excluded namespace is not intercepted, the link is path-absolute, and its navigation goes to the external launcher |
| Translate.JoinFirstComponents | src/selection-tools.js:276 | no segments give the empty translation |
| Translate.JoinAppend | src/selection-tools.js:276 | joining a concatenation of segment lists concatenates their translations |
| Translate.JoinFromIsJoin | src/selection-tools.js:276 | the left-to-right accumulation that `join` performs equals the recursive concatenation |
| Translate.SegmentPlacement | src/selection-tools.js:276 | the output is the text of segments 0..k-1, then segment k's text, then the text of the later segments |
| Translate.OutputText | src/selection-tools.js:275-281 | the output shows the joined translation, or the failure label unchanged when the request fails or `json[0]` is not an array |
| Dictionary.ValueOf | src/selection-tools.js:105 | `json[key]` is absent exactly when no key matches, and is otherwise the value of the first matching key |
| Dictionary.FirstWithKeyShift | src/selection-tools.js:105 | a first match in the tail of the response is a first match in the whole response when the head's key differs |
| Dictionary.ValueOfDistinct | src/selection-tools.js:105 | on a response with distinct keys, as a parsed object has, `json[key]` is the value stored under that key |
| Dictionary.FindByLanguageName | src/selection-tools.js:106-107 | the `find` is absent exactly when no entry array has an item in that language, and is otherwise the first such array |
| Dictionary.FirstMentioningShift | src/selection-tools.js:106-107 | a first mentioning array in the tail is the first in the whole response when the head does not mention the language |
| Dictionary.SelectResults | src/selection-tools.js:105-108 | with a truthy language code, that code's entry; otherwise, with a truthy hint, the first array mentioning the hint; otherwise the "en" entry; each absent exactly when nothing matches |
| Dictionary.Recover | src/selection-tools.js:137-150 | after a failed lookup: without a language code `toLocaleLowerCase(null)` throws; with one, a retry happens exactly when lowering changes the word (lowered word, same code, no hint), and otherwise the lookup gives up |
| Dictionary.IntendedRecover | src/selection-tools.js:139-140 | the corrected recovery (`language ?? undefined`) never throws; it retries exactly when lowering in the code's locale, or the default locale without a code, changes the word |
| Dictionary.IntendedAgreesWithLanguage | src/selection-tools.js:139-140 | for a lookup with a language code, the corrected recovery equals the code as written |
| Dictionary.FetchChain | src/selection-tools.js:137-140 | a lookup's fetches start with its own word, and there is at most one fetch per failed attempt plus one |
| Dictionary.AtMostTwoFetches | src/selection-tools.js:137-150 | with idempotent lowering a lookup fetches at most twice, and a second fetch needs a language code and is for the lowered, different word |
| Dictionary.ClickLookupFetchesOnce | src/selection-tools.js:172 | a lookup started by a click (null language code) fetches exactly once, whatever the outcome |
| Dictionary.IntendedAtMostTwoFetches | src/selection-tools.js:139-140 | with idempotent lowering, the corrected recovery fetches at most twice, for click lookups too |
| Dictionary.ClickRetryLost | src/selection-tools.js:139 | for "/wiki/Bar" and a lowering that maps "Bar" to "bar", the click lookup throws where the corrected code would look up "bar" |
| Dictionary.ThreeFetchesWithoutIdempotence | src/selection-tools.js:139-140 | a lowering that needs two steps makes three fetches, so the bound needs idempotence |
| Dictionary.DictionaryDocument.constructor | src/selection-tools.js:178 | the first lookup is for the selected text itself, in the resolved language, without a hint; the state is "loading" with one fetch |
| Dictionary.DictionaryDocument.Lookup | src/selection-tools.js:100-102 | a lookup sets the state to "loading" and issues exactly one fetch, for its word |
| Dictionary.DictionaryDocument.Settle | src/selection-tools.js:103-151 | found results are appended (heading, then sections), the footer link points at /wiki/word, and the state becomes "loaded"; otherwise, with a language code, the lowered word is fetched once, and without a change the "not found" notice links a search for the original selection and the state becomes "error"; without a language code nothing changes but the pending fetch, which is gone, so the page stays "loading"; a retried lookup never fetches again under idempotent lowering |
| Dictionary.DictionaryDocument.RenderResults | src/selection-tools.js:109-133 | main gains the heading with results[0].language, then one part-of-speech section per entry with its definitions and their examples, in order |
| Dictionary.FailedClickLookup | src/selection-tools.js:137-140 | a followed cross-reference whose fetch fails leaves the page empty and "loading" with nothing in flight, after exactly one new fetch |
| Dictionary.DictionaryDocument.Click | src/selection-tools.js:162-176 | an intercepted click clears the content and starts a lookup of the link's word, with a null language code and the link's hint; any other click changes nothing |

## Findings

| source | as written | input that shows it | evidently intended | confidence | as-written member | corrected member |
|---|---|---|---|---|---|---|
| src/selection-tools.js:139 | the retry lowers the word with `toLocaleLowerCase(language)`, and a click lookup (:172) passes `language` as null; `toLocaleLowerCase(null)` throws a TypeError (ECMA-402 CanonicalizeLocaleList applies ToObject to null), so the page stays "loading" with no retry and no "not found" notice | a click on "/wiki/Bar" whose definition fetch fails, where "Bar" lowers to "bar" | lower in the default locale when there is no code (`language ?? undefined`), then retry or show the notice as the first lookup does | high, not executed | Dictionary.ClickRetryLost | Dictionary.IntendedRecover |

`DictionaryDocument` models the code as written: its `Settle` uses `Recover`. `IntendedRecover`, `IntendedAgreesWithLanguage` and `IntendedAtMostTwoFetches` state the corrected behaviour.

## Left out

- GTK popover, menu and action-group wiring, signals and the memoized singletons (lines 304-378): UI plumbing built on modules that are not part of this model (`utils.js`, `webview.js`).
- WebKit settings, `loadHTML` and the opacity fade (lines 307-315, 339-343): calls into the browser engine. Only the document URI they use appears, in `DocumentLoadAllowed`.
- All `fetch` calls: responses are parameters of `Settle` and `OutputText`. The dictionary records fetched words; the `encodeURI(word)` in the URL is not applied there, because a Dafny string holds no unpaired surrogate, so that encoding cannot fail.
- DOM construction and CSS: the page content is a list of blocks (heading, part-of-speech sections, "not found" notice), not a DOM tree. `innerHTML` is not modelled.
- `Intl.Locale`, `Intl.DisplayNames`, `toLocaleLowerCase` and `matchLocales` are locale-dependent or not part of this model. They are abstract functions or given result lists.
- Dictionary.AtMostTwoFetches: the two-fetch bound is proved only for an idempotent lowering; `ThreeFetchesWithoutIdempotence` shows it fails otherwise.
- Dictionary.Recover: a well-formed language code is assumed. The page's codes come from `Intl.Locale(…).language`; an ill-formed tag would make `toLocaleLowerCase` throw a RangeError, which the abstract `Lowering` does not model.
- Language.Catalog: its contract states the codes and their order but not the display names, which come from the abstract `displayName`.
- Gettext labels interpolated without escaping (lines 96, 146, 202, 234, 269) are not claimed safe. Only labels passed through `encodeURIComponent` are covered.
- Concurrency: a click while a fetch is in flight replaces the pending request in the model. In the source the earlier fetch still settles and can also write to the page.
- The encyclopedia tool's fetch and rendering (lines 203-238) are left out; only its string embeddings are covered, by `EmbeddedString` and `ComponentLiteralSafe`. The translation tool's language picker, its refetch on change and its request URL (lines 271-298) are left out too, apart from the catalog default and the result extraction.
- JavaScript strings are modelled as code points rather than UTF-16 code units. A surrogate pair is one code point, and a lone surrogate is a surrogate value.
- A word taken from a clicked link is used as written in the href, without percent-decoding, as the source does.
