/**
 * The click handler of the dictionary document: which clicked links are
 * cross-references to follow inside the document (a new lookup), and which
 * are left to navigate normally.
 */
module WikiLinks {
  import opened Wrappers

  const WikiPrefix := "/wiki/"

  /** Wiktionary's non-article namespaces; a link into one of them, or into its talk namespace, is not a lookup. */
  const Namespaces: seq<string> := [
    "Media", "Special", "Talk", "User", "Wiktionary", "File", "MediaWiki",
    "Template", "Help", "Category",
    "Summary", "Appendix", "Concordance", "Index", "Rhymes", "Transwiki",
    "Thesaurus", "Citations", "Sign"
  ]

  predicate StartsWith(s: string, p: string) { |p| <= |s| && s[..|p|] == p }

  predicate OccursAt(s: string, pat: string, k: nat) { k + |pat| <= |s| && s[k..k + |pat|] == pat }

  /** The first position at which pat occurs in s, searching from position `from`. */
  function IndexOf(s: string, pat: string, from: nat): (r: Option<nat>)
    requires from <= |s|
    ensures r.Some? ==> (from <= r.value && OccursAt(s, pat, r.value)
      && forall j :: from <= j < r.value ==> !OccursAt(s, pat, j))
    ensures r.None? ==> forall j :: from <= j <= |s| ==> !OccursAt(s, pat, j)
    decreases |s| - from
  {
    if OccursAt(s, pat, from) then Some(from)
    else if from == |s| then None
    else IndexOf(s, pat, from + 1)
  }

  /** `s.replace(pat, '')` with a string pattern: removes the first occurrence only. */
  function RemoveFirst(s: string, pat: string): string {
    match IndexOf(s, pat, 0)
    case None => s
    case Some(k) => s[..k] + s[k + |pat|..]
  }

  /** On a string that starts with the pattern, the removal takes off that prefix. */
  lemma RemovePrefix(s: string, pat: string)
    requires StartsWith(s, pat)
    ensures RemoveFirst(s, pat) == s[|pat|..]
  {
    assert OccursAt(s, pat, 0);
  }

  /** The first position of a character, if any. */
  function FirstIndex(s: string, c: char): (k: nat)
    requires c in s
    ensures k < |s| && s[k] == c && c !in s[..k]
  {
    if s[0] == c then 0
    else
      var k := FirstIndex(s[1..], c) + 1;
      assert s[..k] == [s[0]] + s[1..][..k - 1];
      k
  }

  function JoinWith(parts: seq<string>, sep: char): string
    requires |parts| >= 1
  {
    if |parts| == 1 then parts[0] else parts[0] + [sep] + JoinWith(parts[1..], sep)
  }

  /**
   * `s.split(sep)` with a one-character separator: the pieces between
   * separators, in order. It is the only decomposition of s into pieces free of
   * the separator that joins back to s.
   */
  function SplitOn(s: string, sep: char): (parts: seq<string>)
    ensures |parts| >= 1
    ensures forall i :: 0 <= i < |parts| ==> sep !in parts[i]
    ensures JoinWith(parts, sep) == s
    decreases |s|
  {
    if sep !in s then [s]
    else
      var k := FirstIndex(s, sep);
      var rest := SplitOn(s[k + 1..], sep);
      assert s == s[..k] + [sep] + s[k + 1..];
      [s[..k]] + rest
  }

  /** `s.replaceAll(from, to)` for one-character strings. */
  function ReplaceAll(s: string, from: char, to: char): (r: string)
    ensures |r| == |s|
    ensures forall i :: 0 <= i < |s| ==> r[i] == if s[i] == from then to else s[i]
  {
    seq(|s|, i requires 0 <= i < |s| => if s[i] == from then to else s[i])
  }

  /** The `every` test over the namespaces: no "NS:" and no "NS_talk:" prefix, case-sensitively. */
  predicate OutsideNamespaces(word: string) {
    forall i :: 0 <= i < |Namespaces| ==>
      !StartsWith(word, Namespaces[i] + ":") && !StartsWith(word, Namespaces[i] + "_talk:")
  }

  datatype LinkAction =
    | FollowLink                                           // default navigation proceeds
    | LookUp(word: string, languageName: Option<string>)   // preventDefault, clear, look the word up

  /**
   * The click listener: `isAnchor` is whether the event target is an A
   * element, `href` its href attribute (None when absent, where the listener
   * throws and the click proceeds).
   */
  function ClassifyClick(isAnchor: bool, href: Option<string>): (a: LinkAction)
    ensures a.LookUp? ==> isAnchor && href.Some? && StartsWith(href.value, WikiPrefix)
  {
    if !isAnchor || href.None? || !StartsWith(href.value, WikiPrefix) then FollowLink
    else
      var parts := SplitOn(RemoveFirst(href.value, WikiPrefix), '#');
      var word := parts[0];
      if OutsideNamespaces(word) then
        LookUp(ReplaceAll(word, '_', ' '), if |parts| > 1 then Some(parts[1]) else None)
      else FollowLink
  }

  /** The part of a page name before the first "#". */
  function BeforeHash(page: string): string {
    if '#' in page then page[..FirstIndex(page, '#')] else page
  }

  /** The text between the first and the second "#", absent without a "#". */
  function HashHint(page: string): Option<string> {
    if '#' in page then Some(BeforeHash(page[FirstIndex(page, '#') + 1..])) else None
  }

  lemma {:induction false} SplitHead(s: string)
    ensures SplitOn(s, '#')[0] == BeforeHash(s)
    ensures |SplitOn(s, '#')| > 1 <==> '#' in s
    ensures '#' in s ==> SplitOn(s, '#')[1] == BeforeHash(s[FirstIndex(s, '#') + 1..])
  {
    if '#' in s {
      var k := FirstIndex(s, '#');
      SplitHead(s[k + 1..]);
    }
  }

  /** A prefix free of "#" survives the split: the page name starts with it iff the word does. */
  lemma PrefixBeforeHash(page: string, p: string)
    requires '#' !in p
    ensures StartsWith(page, p) <==> StartsWith(BeforeHash(page), p)
  {
    if '#' in page && StartsWith(page, p) {
      assert BeforeHash(page)[..|p|] == page[..|p|];
    }
  }

  /**
   * A /wiki/ link into an excluded namespace (case-sensitive, tested on the page
   * name before underscores become spaces) is never intercepted.
   */
  lemma NamespaceLinkFollowed(href: string, i: nat)
    requires StartsWith(href, WikiPrefix) && i < |Namespaces|
    requires var page := href[|WikiPrefix|..];
      StartsWith(page, Namespaces[i] + ":") || StartsWith(page, Namespaces[i] + "_talk:")
    ensures ClassifyClick(true, Some(href)) == FollowLink
  {
    var page := href[|WikiPrefix|..];
    RemovePrefix(href, WikiPrefix);
    SplitHead(page);
    NamespaceShape(i);
    PrefixBeforeHash(page, Namespaces[i] + ":");
    PrefixBeforeHash(page, Namespaces[i] + "_talk:");
  }

  /** Every namespace name starts with an upper-case letter and contains no "#". */
  lemma NamespaceShape(i: nat)
    requires i < |Namespaces|
    ensures |Namespaces[i]| > 0 && 'A' <= Namespaces[i][0] <= 'Z'
    ensures '#' !in Namespaces[i] + ":" && '#' !in Namespaces[i] + "_talk:"
  {
    if i < 10 {
      assert Namespaces[i] in ["Media", "Special", "Talk", "User", "Wiktionary", "File", "MediaWiki", "Template", "Help", "Category"];
    } else {
      assert Namespaces[i] in ["Summary", "Appendix", "Concordance", "Index", "Rhymes", "Transwiki", "Thesaurus", "Citations", "Sign"];
    }
  }

  /**
   * Every other /wiki/ link is intercepted: the word is the page name up to the
   * first "#" with each "_" turned into a space, the hint the text between the
   * first and second "#".
   */
  lemma ArticleLinkLookedUp(href: string)
    requires StartsWith(href, WikiPrefix)
    requires OutsideNamespaces(BeforeHash(href[|WikiPrefix|..]))
    ensures var page := href[|WikiPrefix|..];
      ClassifyClick(true, Some(href)) == LookUp(ReplaceAll(BeforeHash(page), '_', ' '), HashHint(page))
  {
    RemovePrefix(href, WikiPrefix);
    SplitHead(href[|WikiPrefix|..]);
  }

  /** A string cannot start with p when it differs from p at some position of p. */
  lemma NotPrefixWhereDiffers(s: string, p: string, k: nat)
    requires k < |p| && (k < |s| ==> s[k] != p[k])
    ensures !StartsWith(s, p)
  {
    if |p| <= |s| {
      assert s[..|p|][k] != p[k];
    }
  }

  /** Every excluded prefix ends in ":", so a word without a colon is always looked up. */
  lemma ColonFreeWordOutsideNamespaces(word: string)
    requires ':' !in word
    ensures OutsideNamespaces(word)
  {
    forall i | 0 <= i < |Namespaces|
      ensures !StartsWith(word, Namespaces[i] + ":") && !StartsWith(word, Namespaces[i] + "_talk:")
    {
      var ns := Namespaces[i];
      NotPrefixWhereDiffers(word, ns + ":", |ns|);
      NotPrefixWhereDiffers(word, ns + "_talk:", |ns| + 5);
    }
  }

  /** The test is case-sensitive: a word starting with a lower-case letter is never in a namespace. */
  lemma LowerCaseInitialOutsideNamespaces(word: string)
    requires |word| > 0 && 'a' <= word[0] <= 'z'
    ensures OutsideNamespaces(word)
  {
    forall i | 0 <= i < |Namespaces|
      ensures !StartsWith(word, Namespaces[i] + ":") && !StartsWith(word, Namespaces[i] + "_talk:")
    {
      NamespaceShape(i);
      NotPrefixWhereDiffers(word, Namespaces[i] + ":", 0);
      NotPrefixWhereDiffers(word, Namespaces[i] + "_talk:", 0);
    }
  }

  /** A talk page link is left alone. */
  lemma TalkPageLinkFollowed()
    ensures ClassifyClick(true, Some("/wiki/Talk:Foo")) == FollowLink
  {
    NamespaceLinkFollowed("/wiki/Talk:Foo", 2);
  }

  /** An article link becomes a lookup of its title, without a hint. */
  lemma ArticleLinkExample()
    ensures ClassifyClick(true, Some("/wiki/Bar")) == LookUp("Bar", None)
  {
    var page := "Bar";
    assert "/wiki/Bar"[6..] == page;
    assert '#' !in page;
    assert BeforeHash(page) == page && HashHint(page) == None;
    assert ReplaceAll(page, '_', ' ') == page;
    ColonFreeWordOutsideNamespaces(page);
    ArticleLinkLookedUp("/wiki/Bar");
  }

  /** "talk:" in lower case names no namespace. */
  lemma LowerCaseTalkLinkLookedUp()
    ensures ClassifyClick(true, Some("/wiki/talk:Foo")) == LookUp("talk:Foo", None)
  {
    var page := "talk:Foo";
    assert "/wiki/talk:Foo"[6..] == page;
    assert '#' !in page;
    assert BeforeHash(page) == page && HashHint(page) == None;
    assert ReplaceAll(page, '_', ' ') == page;
    LowerCaseInitialOutsideNamespaces(page);
    ArticleLinkLookedUp("/wiki/talk:Foo");
  }
}
