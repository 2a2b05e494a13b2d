/**
 * frontend/components/ThemeProvider.js: dark mode. The state is the
 * `isDarkMode` flag, the `localStorage` entries, the class list of the root
 * element and its `data-theme` attribute; the `prefers-color-scheme` query is
 * an input.
 */
module ThemeProvider {
  import opened Wrappers

  datatype Theme = Theme(isDark: bool, storage: map<string, string>, rootClasses: set<string>, dataTheme: Option<string>)

  function ThemeName(isDark: bool): (r: string)
    ensures r == "dark" <==> isDark
    ensures r == "dark" || r == "light"
  {
    if isDark then "dark" else "light"
  }

  /** The mode chosen on mount: a saved non-empty theme decides, else the media query. */
  function InitialDark(saved: Option<string>, prefersDark: bool): (r: bool)
    ensures saved.Some? && saved.value != "" ==> (r <==> saved.value == "dark")
    ensures !(saved.Some? && saved.value != "") ==> r == prefersDark
  {
    if saved.Some? && saved.value != "" then saved.value == "dark" else prefersDark
  }

  /** `applyTheme(isDark)` on a theme state: the `dark` class and `data-theme` follow `isDark`; nothing else changes. */
  function Apply(t: Theme, isDark: bool): (r: Theme)
    ensures ("dark" in r.rootClasses <==> isDark) && r.dataTheme == Some(ThemeName(isDark))
    ensures forall c :: c != "dark" ==> (c in r.rootClasses <==> c in t.rootClasses)
    ensures r.isDark == t.isDark && r.storage == t.storage
  {
    t.(rootClasses := if isDark then t.rootClasses + {"dark"} else t.rootClasses - {"dark"},
       dataTheme := Some(ThemeName(isDark)))
  }

  function SavedTheme(t: Theme): Option<string>
  {
    if "theme" in t.storage then Some(t.storage["theme"]) else None
  }

  /** The page agrees with the flag. */
  predicate Applied(t: Theme)
  {
    ("dark" in t.rootClasses <==> t.isDark) && t.dataTheme == Some(ThemeName(t.isDark))
  }

  /** The mount effect. */
  function InitStep(t: Theme, prefersDark: bool): (r: Theme)
    ensures Applied(r) && r.storage == t.storage
    ensures r.isDark == InitialDark(SavedTheme(t), prefersDark)
  {
    var dark := InitialDark(SavedTheme(t), prefersDark);
    Apply(t.(isDark := dark), dark)
  }

  /** `toggleDarkMode()`. */
  function ToggleStep(t: Theme): (r: Theme)
    ensures Applied(r) && r.isDark == !t.isDark
    ensures r.storage == t.storage["theme" := ThemeName(r.isDark)]
  {
    var newValue := !t.isDark;
    Apply(t.(isDark := newValue, storage := t.storage["theme" := ThemeName(newValue)]), newValue)
  }

  /** Two toggles restore the mode and the page, and leave the stored theme naming it. */
  lemma ToggleTwice(t: Theme)
    requires Applied(t)
    ensures var r := ToggleStep(ToggleStep(t));
      r.isDark == t.isDark && Applied(r) && r.storage == t.storage["theme" := ThemeName(t.isDark)] &&
      (forall c :: c in r.rootClasses <==> c in t.rootClasses) && r.dataTheme == t.dataTheme
  {
    var r := ToggleStep(ToggleStep(t));
    assert r.storage == t.storage["theme" := ThemeName(!t.isDark)]["theme" := ThemeName(t.isDark)];
  }

  /** After any toggle, reloading the page comes back in the mode the toggle set. */
  lemma ToggleSurvivesReload(t: Theme, prefersDark: bool)
    ensures InitStep(ToggleStep(t), prefersDark).isDark == ToggleStep(t).isDark
  {
  }

  class ThemeProviderState {
    var isDarkMode: bool
    var storage: map<string, string>
    var rootClasses: set<string>
    var dataTheme: Option<string>

    function State(): Theme
      reads this
    {
      Theme(isDarkMode, storage, rootClasses, dataTheme)
    }

    /** `useState(false)` over the page's current storage and root element. */
    constructor(storage: map<string, string>, rootClasses: set<string>, dataTheme: Option<string>)
      ensures State() == Theme(false, storage, rootClasses, dataTheme)
    {
      isDarkMode := false;
      this.storage := storage;
      this.rootClasses := rootClasses;
      this.dataTheme := dataTheme;
    }

    method ApplyTheme(isDark: bool)
      modifies this
      ensures State() == Apply(old(State()), isDark)
    {
      if isDark {
        rootClasses := rootClasses + {"dark"};
      } else {
        rootClasses := rootClasses - {"dark"};
      }
      dataTheme := Some(if isDark then "dark" else "light");
    }

    /** The mount effect; it reads storage and never writes it. */
    method Init(prefersDark: bool)
      modifies this
      ensures State() == InitStep(old(State()), prefersDark)
      ensures storage == old(storage)
    {
      var savedTheme := if "theme" in storage then Some(storage["theme"]) else None;
      if savedTheme.Some? && savedTheme.value != "" {
        isDarkMode := savedTheme.value == "dark";
        ApplyTheme(savedTheme.value == "dark");
      } else {
        isDarkMode := prefersDark;
        ApplyTheme(prefersDark);
      }
    }

    method ToggleDarkMode()
      modifies this
      ensures State() == ToggleStep(old(State()))
    {
      var newValue := !isDarkMode;
      storage := storage["theme" := if newValue then "dark" else "light"];
      ApplyTheme(newValue);
      isDarkMode := newValue;
    }
  }
}
