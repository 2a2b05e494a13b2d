/** frontend/components/LanguageSwitcher.js: the en/vi toggle button. */
module LanguageSwitcher {
  import opened Wrappers
  import opened Router

  /** `router.locale === 'en' ? 'vi' : 'en'`. */
  function NewLocale(locale: Option<string>): (r: string)
    ensures r == "en" || r == "vi"
    ensures r == "vi" <==> locale == Some("en")
  {
    if locale == Some("en") then "vi" else "en"
  }

  /** The navigation `toggleLanguage` requests: same page, same query, the other locale. */
  function ToggleLanguage(router: RouterState): (p: Push)
    ensures p.url == PathQuery(router.pathname, router.query) && p.asPath == router.asPath
    ensures p.locale == NewLocale(router.locale)
  {
    Push(PathQuery(router.pathname, router.query), router.asPath, NewLocale(router.locale))
  }

  const EN_LABEL: string := "EN 🇬🇧"
  const VI_LABEL: string := "VI 🇻🇳"

  /** The button text. */
  function Label(locale: Option<string>): (r: string)
    ensures r == EN_LABEL <==> locale == Some("en")
    ensures r == EN_LABEL || r == VI_LABEL
  {
    if locale == Some("en") then EN_LABEL else VI_LABEL
  }

  /** From either supported locale, two toggles come back to it. */
  lemma ToggleTwice(l: string)
    requires l == "en" || l == "vi"
    ensures NewLocale(Some(NewLocale(Some(l)))) == l
  {
  }

  /** The label names the current locale: the button shows `EN` exactly when a click switches to `vi`. */
  lemma LabelNamesCurrent(locale: Option<string>)
    ensures Label(locale) == EN_LABEL <==> NewLocale(locale) == "vi"
  {
  }
}
