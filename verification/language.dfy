/**
 * Language helpers of the host: the language subtag of the selection's
 * locale, and the default target language of the translation tool.
 */
module Language {
  import opened Wrappers

  /**
   * getLanguage: the language subtag of a locale identifier, "en" when the
   * identifier cannot be parsed. `parse` stands for `new Intl.Locale(lang).language`,
   * None where that constructor throws; a parse failure never escapes.
   */
  function GetLanguage(parse: string -> Option<string>, lang: string): (r: string)
    ensures parse(lang).None? ==> r == "en"
    ensures parse(lang).Some? ==> r == parse(lang).value
  {
    match parse(lang)
    case Some(language) => language
    case None => "en"
  }

  /** The codes of the languages the translation service supports, in catalog order. */
  const TranslateLanguages: seq<string> :=
    ["af", "sq", "am", "ar", "hy", "as", "ay", "az", "bm", "eu", "be", "bn", "bho", "bs", "bg", "ca"] +
    ["ceb", "zh-CN", "zh-TW", "co", "hr", "cs", "da", "dv", "doi", "nl", "en", "eo", "et", "ee", "fil", "fi"] +
    ["fr", "fy", "gl", "ka", "de", "el", "gn", "gu", "ht", "ha", "haw", "he", "hi", "hmn", "hu", "is"] +
    ["ig", "ilo", "id", "ga", "it", "ja", "jv", "kn", "kk", "km", "rw", "gom", "ko", "kri", "ku", "ckb"] +
    ["ky", "lo", "la", "lv", "ln", "lt", "lg", "lb", "mk", "mai", "mg", "ms", "ml", "mt", "mi", "mr"] +
    ["mni-Mtei", "lus", "mn", "my", "ne", "no", "ny", "or", "om", "ps", "fa", "pl", "pt", "pa", "qu", "ro"] +
    ["ru", "sm", "sa", "gd", "nso", "sr", "st", "sn", "sd", "si", "sk", "sl", "so", "es", "su", "sw"] +
    ["sv", "tl", "tg", "ta", "tt", "te", "th", "ti", "ts", "tr", "tk", "ak", "uk", "ur", "ug", "uz"] +
    ["vi", "cy", "xh", "yi", "yo", "zu"]

  /**
   * The default target language: the best match of the user's locales among
   * the supported codes (`matchLocales(langs)`, given here as its result
   * list, best first), or "en" when nothing matches.
   */
  function DefaultTranslateLanguage(matches: seq<string>): (r: string)
    ensures matches != [] ==> r == matches[0]
    ensures matches == [] ==> r == "en"
  {
    if matches != [] then matches[0] else "en"
  }

  /**
   * Whenever the matcher only returns supported codes, the default is a
   * supported code: "en" itself is in the catalog.
   */
  lemma DefaultIsSupported(matches: seq<string>)
    requires forall m :: m in matches ==> m in TranslateLanguages
    ensures DefaultTranslateLanguage(matches) in TranslateLanguages
  {
    if matches == [] {
      assert TranslateLanguages[26] == "en";
    } else {
      assert matches[0] in matches;
    }
  }

  /**
   * The catalog the picker is built from: one (code, display name) pair per
   * supported code, in the same order; `displayName` stands for `Intl.DisplayNames.of`.
   */
  function Catalog(displayName: string -> string): (c: seq<(string, string)>)
    ensures |c| == |TranslateLanguages|
    ensures forall i :: 0 <= i < |c| ==> c[i].0 == TranslateLanguages[i]
  {
    seq(|TranslateLanguages|, i requires 0 <= i < |TranslateLanguages| => (TranslateLanguages[i], displayName(TranslateLanguages[i])))
  }
}
