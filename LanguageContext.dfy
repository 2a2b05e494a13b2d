/**
 * frontend/contexts/LanguageContext.js: the languages table, the language
 * chosen on mount and `changeLanguage`. `navigator.language` and the saved
 * `language` entry of `localStorage` are inputs; router pushes are recorded
 * in order.
 */
module LanguageContext {
  import opened Wrappers
  import opened Text
  import opened Router

  datatype Language = Language(name: string, locale: string)

  const LANGUAGES: map<string, Language> := map[
    "en" := Language("English", "en-US"),
    "vi" := Language("Tiếng Việt", "vi-VN")
  ]

  const SUPPORTED_LANGS: seq<string> := ["en", "vi"]

  /** `navigator.language.split('-')[0]`: the primary subtag. */
  function BrowserLang(navigatorLanguage: string): (r: string)
    ensures '-' !in r
    ensures StartsWith(navigatorLanguage, r)
    ensures |r| < |navigatorLanguage| ==> navigatorLanguage[|r|] == '-'
  {
    var parts := Split(navigatorLanguage, '-');
    JoinSplit(navigatorLanguage, '-');
    assert parts[0] in parts;
    JoinHead(parts);
    parts[0]
  }

  lemma JoinHead(parts: seq<string>)
    ensures |parts| > 1 ==> Join(parts, '-') == parts[0] + "-" + Join(parts[1..], '-')
  {
  }

  /** `supportedLangs.includes(browserLang) ? browserLang : 'en'`. */
  function DefaultLang(navigatorLanguage: string): (r: string)
    ensures r in SUPPORTED_LANGS
    ensures BrowserLang(navigatorLanguage) in SUPPORTED_LANGS ==> r == BrowserLang(navigatorLanguage)
    ensures BrowserLang(navigatorLanguage) !in SUPPORTED_LANGS ==> r == "en"
  {
    var b := BrowserLang(navigatorLanguage);
    if b in SUPPORTED_LANGS then b else "en"
  }

  /** `savedLang || defaultLang`. */
  function InitialLang(saved: Option<string>, navigatorLanguage: string): (r: string)
    ensures saved.Some? && saved.value != "" ==> r == saved.value
    ensures !(saved.Some? && saved.value != "") ==> r == DefaultLang(navigatorLanguage)
  {
    if saved.Some? && saved.value != "" then saved.value else DefaultLang(navigatorLanguage)
  }

  /** The initial language is supported whenever the saved preference is absent, empty or itself supported. */
  lemma InitialLangSupported(saved: Option<string>, navigatorLanguage: string)
    requires saved.None? || saved.value == "" || saved.value in SUPPORTED_LANGS
    ensures InitialLang(saved, navigatorLanguage) in SUPPORTED_LANGS
  {
  }

  /** A saved value is taken as it is, supported or not. */
  lemma SavedNotChecked()
    ensures InitialLang(Some("fr"), "en-US") == "fr"
    ensures "fr" !in SUPPORTED_LANGS
  {
  }

  /** The supported list and the table agree, and each table locale resolves back to its own code. */
  lemma TableLocalesResolve(code: string)
    requires code in LANGUAGES
    ensures code in SUPPORTED_LANGS
    ensures BrowserLang(LANGUAGES[code].locale) == code
    ensures DefaultLang(LANGUAGES[code].locale) == code
  {
    var tag := LANGUAGES[code].locale;
    assert tag == code + "-" + tag[3..];
    SplitAround(code, tag[3..], '-');
  }

  /** The provider: its language state, the saved preferences, the router it reads and the pushes it made. */
  class LanguageProvider {
    const router: RouterState
    var currentLanguage: string
    var storage: map<string, string>
    var pushes: seq<Push>

    /** `useState('en')`. */
    constructor(router: RouterState, storage: map<string, string>)
      ensures this.router == router && this.storage == storage
      ensures currentLanguage == "en" && pushes == []
    {
      this.router := router;
      this.storage := storage;
      currentLanguage := "en";
      pushes := [];
    }

    /** `localStorage.getItem('language')`. */
    function SavedLanguage(): (r: Option<string>)
      reads this
      ensures r.Some? <==> "language" in storage
      ensures r.Some? ==> r.value == storage["language"]
    {
      if "language" in storage then Some(storage["language"]) else None
    }

    /** The mount effect: pick the initial language and push it with the current path. */
    method Mount(navigatorLanguage: string)
      modifies this
      ensures currentLanguage == InitialLang(old(SavedLanguage()), navigatorLanguage)
      ensures pushes == old(pushes) + [Push(Path(router.pathname), router.asPath, currentLanguage)]
      ensures storage == old(storage)
    {
      var initialLang := InitialLang(SavedLanguage(), navigatorLanguage);
      currentLanguage := initialLang;
      pushes := pushes + [Push(Path(router.pathname), router.asPath, initialLang)];
    }

    /** `changeLanguage(locale)`: one push with the page unchanged; the state and the saved preference stay as they are. */
    method ChangeLanguage(locale: string)
      modifies this
      ensures pushes == old(pushes) + [Push(PathQuery(router.pathname, router.query), router.asPath, locale)]
      ensures currentLanguage == old(currentLanguage) && storage == old(storage)
    {
      pushes := pushes + [Push(PathQuery(router.pathname, router.query), router.asPath, locale)];
    }
  }
}
