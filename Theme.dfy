/** The dark/light theme hook: a flag that starts dark, is resolved once
    from the saved preference, is persisted to local storage and mirrored
    as a class on the page body, and is flipped by the theme toggle. */
module Theme {
  import opened Optional

  /** The local-storage key of the saved theme. */
  const ThemeKey: string := "theme"
  /** The body class present exactly in dark mode. */
  const DarkClass: string := "dark-mode"

  /** The value persisted for a flag. */
  function ThemeName(dark: bool): string
  {
    if dark then "dark" else "light"
  }

  /** The first effect's decision, from the current flag, the saved theme
      (absent when nothing is stored) and the system's dark-scheme
      preference: a saved "light" wins, a saved "dark" wins, and with
      anything else saved the system preference can only turn dark on. */
  function Resolve(current: bool, saved: Option<string>, systemPrefersDark: bool): (r: bool)
    ensures saved == Some("light") ==> !r
    ensures saved == Some("dark") ==> r
    ensures saved != Some("light") && saved != Some("dark") ==> r == (current || systemPrefersDark)
  {
    if saved != Some("light") && (saved == Some("dark") || systemPrefersDark) then true
    else if saved == Some("light") then false
    else current
  }

  /** Starting from the initial dark flag, the theme is dark exactly when
      the saved theme is not "light"; the system preference never matters. */
  lemma InitialResolution(saved: Option<string>, systemPrefersDark: bool)
    ensures Resolve(true, saved, systemPrefersDark) == (saved != Some("light"))
  {
  }

  /** Resolving from the value the persistence effect stored gives back the
      flag that was stored. */
  lemma ResolveRoundTrip(current: bool, dark: bool, systemPrefersDark: bool)
    ensures Resolve(current, Some(ThemeName(dark)), systemPrefersDark) == dark
  {
  }

  class ThemeController {
    var darkMode: bool
    /** The browser's local storage. */
    var storage: map<string, string>
    /** The class list of the page body. */
    var bodyClasses: set<string>

    /** Storage and body class agree with the flag. */
    ghost predicate Persisted()
      reads this
    {
      && ThemeKey in storage && storage[ThemeKey] == ThemeName(darkMode)
      && (DarkClass in bodyClasses <==> darkMode)
    }

    /** The hook's first render: the flag starts dark; storage and body are
        whatever the page already has. */
    constructor (storage: map<string, string>, bodyClasses: set<string>)
      ensures darkMode
      ensures this.storage == storage && this.bodyClasses == bodyClasses
    {
      darkMode := true;
      this.storage := storage;
      this.bodyClasses := bodyClasses;
    }

    /** `localStorage.getItem('theme')`: absent when nothing is stored. */
    function SavedTheme(): (r: Option<string>)
      reads this
      ensures r.Some? <==> ThemeKey in storage
      ensures r.Some? ==> r.value == storage[ThemeKey]
    {
      if ThemeKey in storage then Some(storage[ThemeKey]) else None
    }

    /** The persistence effect: store the theme name and add or remove the
        body class; every other stored entry and body class stays. */
    method ApplyTheme()
      modifies this`storage, this`bodyClasses
      ensures Persisted()
      ensures storage == old(storage)[ThemeKey := ThemeName(darkMode)]
      ensures bodyClasses == if darkMode then old(bodyClasses) + {DarkClass} else old(bodyClasses) - {DarkClass}
    {
      if darkMode {
        bodyClasses := bodyClasses + {DarkClass};
        storage := storage[ThemeKey := "dark"];
      } else {
        bodyClasses := bodyClasses - {DarkClass};
        storage := storage[ThemeKey := "light"];
      }
    }

    /** Mounting the hook. The resolution effect reads the saved theme
        first; the persistence effect then runs with the first render's
        (dark) flag; if resolution changed the flag, the next render runs
        the persistence effect again. */
    method Mount(systemPrefersDark: bool)
      requires darkMode
      modifies this
      ensures darkMode == (old(SavedTheme()) != Some("light"))
      ensures Persisted()
      ensures storage == old(storage)[ThemeKey := ThemeName(darkMode)]
      ensures bodyClasses == if darkMode then old(bodyClasses) + {DarkClass} else old(bodyClasses) - {DarkClass}
    {
      var saved := SavedTheme();
      var resolved := Resolve(darkMode, saved, systemPrefersDark);
      ApplyTheme();
      if resolved != darkMode {
        darkMode := resolved;
        ApplyTheme();
      }
    }

    /** The theme toggle: flip the flag; the flag changed, so the
        persistence effect runs. */
    method ToggleDarkMode()
      modifies this
      ensures darkMode == !old(darkMode)
      ensures Persisted()
      ensures storage == old(storage)[ThemeKey := ThemeName(darkMode)]
      ensures bodyClasses == if darkMode then old(bodyClasses) + {DarkClass} else old(bodyClasses) - {DarkClass}
    {
      darkMode := !darkMode;
      ApplyTheme();
    }
  }

  /** Toggling twice from a persisted state restores the flag, the storage
      and the body classes. */
  method ToggleTwice(c: ThemeController)
    requires c.Persisted()
    modifies c
    ensures c.darkMode == old(c.darkMode)
    ensures c.storage == old(c.storage) && c.bodyClasses == old(c.bodyClasses)
  {
    c.ToggleDarkMode();
    c.ToggleDarkMode();
  }

  /** Reloading the page: a new hook mounted over the storage a persisted
      hook left behind comes up with the same theme, whatever the system
      preference. */
  method Reload(c: ThemeController, systemPrefersDark: bool) returns (dark: bool)
    requires c.Persisted()
    ensures dark == c.darkMode
  {
    var next := new ThemeController(c.storage, c.bodyClasses);
    next.Mount(systemPrefersDark);
    dark := next.darkMode;
  }
}
