/** The colour theme: the initial value read from storage, the setter that
    persists, the class the effect puts on the document root, and the
    toggle button's next-theme rule and label. Storage, the
    `prefers-color-scheme: dark` media query and the root's class list are
    inputs and outputs. A theme is any string at run time: the stored value
    is cast to the three-valued type without a check. */
module Theme {
  import opened Wrappers

  const Light: string := "light"
  const Dark: string := "dark"
  const System: string := "system"

  /** The provider's properties `defaultTheme` and `storageKey`. */
  datatype Config = Config(defaultTheme: string, storageKey: string)

  /** The properties' defaults. */
  const DefaultConfig: Config := Config("system", "vite-ui-theme")

  /** `localStorage`, as a map from keys to stored strings. */
  type Storage = map<string, string>

  /** The provider's state and the storage it writes to. */
  datatype ThemeState = ThemeState(theme: string, storage: Storage)

  /** `getItem(key) || defaultTheme`: a missing or empty stored value falls
      back to the default. */
  function InitialTheme(storage: Storage, config: Config): (r: string)
    ensures config.storageKey in storage && storage[config.storageKey] != "" ==> r == storage[config.storageKey]
    ensures config.storageKey !in storage || storage[config.storageKey] == "" ==> r == config.defaultTheme
  {
    if config.storageKey in storage && storage[config.storageKey] != "" then storage[config.storageKey]
    else config.defaultTheme
  }

  function InitialState(storage: Storage, config: Config): (r: ThemeState)
    ensures r.storage == storage
    ensures r.theme == InitialTheme(storage, config)
  {
    ThemeState(InitialTheme(storage, config), storage)
  }

  /** `setTheme(t)`: store under the key, then install as state. */
  function SetTheme(state: ThemeState, config: Config, t: string): (r: ThemeState)
    ensures r.theme == t
    ensures config.storageKey in r.storage && r.storage[config.storageKey] == r.theme
    ensures forall k :: k in state.storage && k != config.storageKey ==> k in r.storage && r.storage[k] == state.storage[k]
    ensures forall k :: k in r.storage ==> k in state.storage || k == config.storageKey
  {
    ThemeState(t, state.storage[config.storageKey := t])
  }

  /** A theme that was set comes back on the next load. */
  lemma SetThemeSurvivesReload(state: ThemeState, config: Config, t: string)
    requires t != ""
    ensures InitialTheme(SetTheme(state, config, t).storage, config) == t
  {
  }

  /** Without a stored theme a fresh page uses `system`, stored under
      `vite-ui-theme`. */
  lemma DefaultInitialTheme(storage: Storage)
    requires "vite-ui-theme" !in storage
    ensures InitialTheme(storage, DefaultConfig) == System
  {
  }

  // ---------------------------------------------------------------------
  // The effect on the root's class list.
  // ---------------------------------------------------------------------

  /** The class the effect adds: `system` follows the media query. */
  function Resolve(theme: string, prefersDark: bool): (r: string)
    ensures theme == System ==> (r == Dark <==> prefersDark) && (r == Light <==> !prefersDark)
    ensures theme != System ==> r == theme
  {
    if theme == System then (if prefersDark then Dark else Light) else theme
  }

  predicate IsAsciiWhitespace(c: char)
  {
    c == ' ' || c == '\t' || c == '\n' || c == '\r' || c == '\U{000C}'
  }

  /** `DOMTokenList.add` rejects an empty token and one holding whitespace. */
  predicate ValidToken(token: string)
  {
    token != "" && forall i :: 0 <= i < |token| ==> !IsAsciiWhitespace(token[i])
  }

  /** The effect: remove `light` and `dark`, then add the resolved class.
      `None` is the exception `add` throws for an invalid token; the
      removal has happened by then. */
  function ApplyTheme(classes: set<string>, theme: string, prefersDark: bool): (r: Option<set<string>>)
    ensures r.Some? <==> ValidToken(Resolve(theme, prefersDark))
    ensures r.Some? ==> Resolve(theme, prefersDark) in r.value
    ensures r.Some? ==> forall c :: c != Resolve(theme, prefersDark) ==> (c in r.value <==> c in classes && c != Light && c != Dark)
  {
    var token := Resolve(theme, prefersDark);
    var cleared := classes - {Light, Dark};
    if ValidToken(token) then Some(cleared + {token}) else None
  }

  /** The class list after the effect, or what is left when `add` throws. */
  function ClassesAfter(classes: set<string>, theme: string, prefersDark: bool): (r: set<string>)
    ensures Light !in r || Dark !in r
  {
    match ApplyTheme(classes, theme, prefersDark)
    case Some(c) => c
    case None => classes - {Light, Dark}
  }

  lemma LightValid()
    ensures ValidToken(Light) && ValidToken(Dark)
  {
  }

  /** For the three themes exactly one of `light` and `dark` is on the root
      afterwards: `dark` exactly when the theme is `dark`, or `system` with
      the dark preference. */
  lemma ApplyThemeExclusive(classes: set<string>, theme: string, prefersDark: bool)
    requires theme == Light || theme == Dark || theme == System
    ensures ApplyTheme(classes, theme, prefersDark).Some?
    ensures var r := ApplyTheme(classes, theme, prefersDark).value;
            && (Light in r <==> Dark !in r)
            && (Dark in r <==> theme == Dark || (theme == System && prefersDark))
  {
    LightValid();
  }

  /** Any other stored value that is a valid class token (non-empty, no
      ASCII whitespace) becomes a class of its own, and neither `light` nor
      `dark` remains. */
  lemma ApplyOtherTheme(classes: set<string>, theme: string, prefersDark: bool)
    requires theme != Light && theme != Dark && theme != System
    requires ValidToken(theme)
    ensures ApplyTheme(classes, theme, prefersDark) == Some(classes - {Light, Dark} + {theme})
    ensures Light !in ApplyTheme(classes, theme, prefersDark).value
    ensures Dark !in ApplyTheme(classes, theme, prefersDark).value
  {
  }

  /** A stored value with a space is not a valid token: `add` throws, so
      the effect yields no class list. */
  lemma ApplySpacedThemeThrows(classes: set<string>, prefersDark: bool)
    ensures ApplyTheme(classes, "a b", prefersDark).None?
  {
    assert IsAsciiWhitespace("a b"[1]);
  }

  /** Running the effect again changes nothing. */
  lemma ApplyThemeIdempotent(classes: set<string>, theme: string, prefersDark: bool)
    requires ApplyTheme(classes, theme, prefersDark).Some?
    ensures ApplyTheme(ApplyTheme(classes, theme, prefersDark).value, theme, prefersDark)
         == ApplyTheme(classes, theme, prefersDark)
  {
    var token := Resolve(theme, prefersDark);
    var once := ApplyTheme(classes, theme, prefersDark).value;
    var twice := ApplyTheme(once, theme, prefersDark).value;
    assert forall c :: c in twice <==> c in once;
    assert twice == once;
  }

  // ---------------------------------------------------------------------
  // The toggle button.
  // ---------------------------------------------------------------------

  /** The theme a click installs: `light` goes to `dark`, anything else to
      `light`. */
  function NextTheme(theme: string): (r: string)
    ensures r == Light || r == Dark
    ensures r == Dark <==> theme == Light
  {
    if theme == Light then Dark else Light
  }

  /** The click handler. */
  function Toggle(state: ThemeState, config: Config): (r: ThemeState)
    ensures r.theme == NextTheme(state.theme)
    ensures config.storageKey in r.storage && r.storage[config.storageKey] == r.theme
  {
    SetTheme(state, config, NextTheme(state.theme))
  }

  /** Toggling twice restores exactly `light` and `dark`; `system` and any
      other value go to `light` and then to `dark`. */
  lemma NextThemeTwice(theme: string)
    ensures NextTheme(NextTheme(theme)) == theme <==> theme == Light || theme == Dark
    ensures theme != Light && theme != Dark ==> NextTheme(NextTheme(theme)) == Dark
  {
    assert |Light| != |Dark|;
    assert NextTheme(Light) == Dark && NextTheme(Dark) == Light;
  }

  lemma ToggleTwiceFromLight(state: ThemeState, config: Config)
    requires state.theme == Light
    ensures Toggle(Toggle(state, config), config).theme == Light
    ensures Toggle(Toggle(state, config), config).storage[config.storageKey] == Light
  {
  }

  /** After a toggle the root carries exactly the class of the new theme. */
  lemma ToggleShowsNewTheme(state: ThemeState, config: Config, classes: set<string>, prefersDark: bool)
    ensures var t := Toggle(state, config).theme;
            var r := ClassesAfter(classes, t, prefersDark);
            t in r && (if t == Dark then Light !in r else Dark !in r)
  {
    LightValid();
  }

  /** The label expression as written: `+` binds tighter than `===`, so the
      comparison is between `'Switch to ' + theme` and `'light'`. */
  function AriaLabelAsWritten(theme: string): string
  {
    if "Switch to " + theme == Light then Dark else Light + "mode"
  }

  /** As written the label never depends on the theme. */
  lemma AriaLabelAsWrittenConstant(theme: string)
    ensures AriaLabelAsWritten(theme) == "lightmode"
    ensures AriaLabelAsWritten(Light) == AriaLabelAsWritten(Dark)
  {
    assert |"Switch to " + theme| >= 10;
    assert |"Switch to " + Light| >= 10;
    assert |"Switch to " + Dark| >= 10;
  }

  /** The corrected label: names the theme a click switches to. */
  function AriaLabel(theme: string): (r: string)
    ensures |r| == 10 + |NextTheme(theme)| + 5
  {
    "Switch to " + NextTheme(theme) + " mode"
  }

  /** The corrected label names exactly the theme the click installs, so
      the labels for `light` and `dark` differ. */
  lemma AriaLabelNamesToggle(state: ThemeState, config: Config)
    ensures var l := AriaLabel(state.theme);
            l[..10] == "Switch to " && l[|l| - 5..] == " mode"
            && l[10..|l| - 5] == Toggle(state, config).theme
    ensures AriaLabel(Light) != AriaLabel(Dark)
  {
    var l := AriaLabel(state.theme);
    assert l == "Switch to " + NextTheme(state.theme) + " mode";
    assert AriaLabel(Light)[10] == 'd';
    assert AriaLabel(Dark)[10] == 'l';
  }
}
