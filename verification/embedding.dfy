/**
 * How the host embeds strings into the documents it generates: the selected
 * text and the translated labels go in as `decodeURIComponent("…")` around
 * `encodeURIComponent(…)`, the translation catalog as `decodeURI("…")` around
 * `encodeURI(…)`, and the search links put `encodeURIComponent(text)` inside
 * an HTML attribute within a template literal.
 */
module Embedding {
  import opened Wrappers
  import Utf8
  import opened UriCoding

  /** A Dafny string as the code points of the JavaScript string (a char is never a surrogate). */
  function CodePoints(s: string): (t: Text)
    ensures |t| == |s| && NoLoneSurrogates(t)
    ensures forall i :: 0 <= i < |s| ==> t[i] == s[i] as int
  {
    seq(|s|, i requires 0 <= i < |s| => s[i] as int)
  }

  function FromCodePoints(t: Text): (s: string)
    requires NoLoneSurrogates(t)
    ensures CodePoints(s) == t
  {
    seq(|t|, i requires 0 <= i < |t| => t[i] as char)
  }

  lemma CodePointsInjective(a: string, b: string)
    requires CodePoints(a) == CodePoints(b)
    ensures a == b
  {
    assert |a| == |b|;
    forall i | 0 <= i < |a| ensures a[i] == b[i] {
      assert CodePoints(a)[i] == CodePoints(b)[i];
    }
  }

  /**
   * What the generated script sees of a host string s written as
   * `decodeURIComponent("${encodeURIComponent(s)}")`: exactly s.
   */
  function EmbeddedString(s: string): (r: string)
    ensures r == s
  {
    DecodeEncode(Component, CodePoints(s));
    var decoded := DecodeUriComponent(EncodeUriComponent(CodePoints(s)).value).value;
    CodePointsInjective(FromCodePoints(decoded), s);
    FromCodePoints(decoded)
  }

  /** A character that ends or alters a "…" string literal (or a double-quoted attribute): quote, backslash, line terminators. */
  predicate BreaksDoubleQuoted(c: int) {
    c in {'"' as int, '\\' as int, '\n' as int, '\r' as int, 0x2028, 0x2029}
  }

  /** A character that ends or alters a `…` template literal: backtick, backslash, and "$" (which may open "${"). */
  predicate BreaksTemplate(c: int) {
    c in {'`' as int, '\\' as int, '$' as int}
  }

  /** The characters an encoded string is made of break neither kind of literal (encodeURI's may include "$"). */
  lemma AlphabetSafe(f: Flavor, c: int)
    requires Unescaped(f, c) || c == Percent || IsUpperHexDigit(c)
    ensures !BreaksDoubleQuoted(c) && c != '`' as int
    ensures f == Component ==> !BreaksTemplate(c)
  {
    if IsMark(c) {
      assert c in {'-' as int, '_' as int, '.' as int, '!' as int, '~' as int, '*' as int, '\'' as int, '(' as int, ')' as int};
    } else if f == WholeUri && IsReservedOrHash(c) {
      assert c in {';' as int, '/' as int, '?' as int, ':' as int, '@' as int, '&' as int, '=' as int, '+' as int, '$' as int, ',' as int, '#' as int};
    }
  }

  /**
   * encodeURIComponent of host text either throws (an unpaired surrogate; the
   * tool then produces no document) or yields letters, digits, - _ . ! ~ * ' ( )
   * and "%XX" triplets only, none of which can end or alter a "…" literal, a
   * `…` template literal or a double-quoted attribute.
   */
  lemma ComponentLiteralSafe(text: Text)
    ensures EncodeUriComponent(text).Failure? <==> !NoLoneSurrogates(text)
    ensures EncodeUriComponent(text).Success? ==>
      var e := EncodeUriComponent(text).value;
      Escaped(Component, e) &&
      forall i :: 0 <= i < |e| ==> !BreaksDoubleQuoted(e[i]) && !BreaksTemplate(e[i])
  {
    if EncodeUriComponent(text).Success? {
      var e := EncodeUriComponent(text).value;
      EscapedAlphabet(Component, e);
      forall i | 0 <= i < |e| ensures !BreaksDoubleQuoted(e[i]) && !BreaksTemplate(e[i]) {
        AlphabetSafe(Component, e[i]);
      }
    }
  }

  /**
   * The translation catalog goes through encodeURI: the result cannot end a
   * "…" literal, and decodeURI gives the serialized catalog back. ("$" may
   * survive encodeURI; it is harmless inside "…".)
   */
  lemma CatalogTransport(json: Text)
    requires NoLoneSurrogates(json)
    ensures EncodeUri(json).Success?
    ensures var e := EncodeUri(json).value;
      (forall i :: 0 <= i < |e| ==> !BreaksDoubleQuoted(e[i]) && e[i] != '`' as int)
      && DecodeUri(e) == Success(json)
  {
    DecodeEncode(WholeUri, json);
    var e := EncodeUri(json).value;
    EscapedAlphabet(WholeUri, e);
    forall i | 0 <= i < |e| ensures !BreaksDoubleQuoted(e[i]) && e[i] != '`' as int {
      AlphabetSafe(WholeUri, e[i]);
    }
  }

  /** The search link of the dictionary's "not found" fallback, with the percent-encoded selected text as its query. */
  const WiktionarySearch := "https://en.wiktionary.org/w/index.php?search="

  function SearchLink(text: string): (url: Text)
    ensures |url| >= |WiktionarySearch| && url[..|WiktionarySearch|] == CodePoints(WiktionarySearch)
    ensures DecodeUriComponent(url[|WiktionarySearch|..]) == Success(CodePoints(text))
  {
    DecodeEncode(Component, CodePoints(text));
    var url := CodePoints(WiktionarySearch) + EncodeUriComponent(CodePoints(text)).value;
    assert url[|WiktionarySearch|..] == EncodeUriComponent(CodePoints(text)).value;
    url
  }
}
