/** The colour-scheme context of the web front end (ThemeContext.js): the
    current mode and the copy kept in `localStorage` under
    "parkingAppTheme". The state is observed after React has run the
    effect that writes the copy, so both fields move together. The 'auto'
    choice reads the system preference, which is passed in. */
module ThemeMode {
  import opened Base

  datatype ThemeState = ThemeState(mode: string, persisted: string)

  const LIGHT: string := "light"
  const DARK: string := "dark"
  const AUTO: string := "auto"

  /** The effect has caught up: storage holds the current mode. */
  predicate Synced(t: ThemeState) {
    t.persisted == t.mode
  }

  /** `useState(() => savedTheme || 'light')`: a missing or empty saved
      value falls back to light; any other saved text is taken as is. */
  function Initial(saved: Option<string>): (t: ThemeState)
    ensures Synced(t)
    ensures saved.Some? && saved.value != [] ==> t.mode == saved.value
    ensures saved.None? || saved.value == [] ==> t.mode == LIGHT
  {
    var m := if saved.Some? && saved.value != [] then saved.value else LIGHT;
    ThemeState(m, m)
  }

  /** The state after `setThemeMode(m)` and the effect it triggers. */
  function Become(m: string): ThemeState {
    ThemeState(m, m)
  }

  /** `toggleTheme()`: light goes to dark, every other mode to light. */
  function Toggle(t: ThemeState): (r: ThemeState)
    ensures Synced(r)
    ensures t.mode == LIGHT ==> r.mode == DARK
    ensures t.mode != LIGHT ==> r.mode == LIGHT
  {
    Become(if t.mode == LIGHT then DARK else LIGHT)
  }

  /** `setTheme(mode)`: light and dark are taken; 'auto' follows the system
      preference at the moment of the call; anything else is ignored. */
  function SetTheme(t: ThemeState, mode: string, prefersDark: bool): (r: ThemeState)
    ensures mode == LIGHT || mode == DARK ==> r.mode == mode && Synced(r)
    ensures mode == AUTO ==> r.mode == (if prefersDark then DARK else LIGHT) && Synced(r)
    ensures mode != LIGHT && mode != DARK && mode != AUTO ==> r == t
  {
    if mode == LIGHT || mode == DARK then Become(mode)
    else if mode == AUTO then Become(if prefersDark then DARK else LIGHT)
    else t
  }

  /** `isDark`. */
  predicate IsDark(t: ThemeState) {
    t.mode == DARK
  }

  /** Toggling twice from light or dark comes back to the start. */
  lemma ToggleTwice(t: ThemeState)
    requires Synced(t) && (t.mode == LIGHT || t.mode == DARK)
    ensures Toggle(Toggle(t)) == t
  {
  }

  /** From any other saved mode, two toggles end in dark, not where they
      began. */
  lemma ToggleTwiceFromOther(t: ThemeState)
    requires t.mode != LIGHT && t.mode != DARK
    ensures Toggle(Toggle(t)).mode == DARK && Toggle(Toggle(t)) != t
  {
  }

  /** One toggle flips `isDark` exactly when the mode was light or dark. */
  lemma ToggleFlipsDark(t: ThemeState)
    ensures IsDark(Toggle(t)) <==> t.mode == LIGHT
    ensures (t.mode == LIGHT || t.mode == DARK) ==> (IsDark(Toggle(t)) <==> !IsDark(t))
  {
  }

  /** Setting a mode twice is setting it once. */
  lemma SetThemeIdempotent(t: ThemeState, mode: string, prefersDark: bool)
    ensures SetTheme(SetTheme(t, mode, prefersDark), mode, prefersDark) == SetTheme(t, mode, prefersDark)
  {
  }

  /** Storage always mirrors the mode: the initial state is synced and
      every change keeps it so. */
  lemma ChangesKeepSynced(t: ThemeState, mode: string, prefersDark: bool)
    requires Synced(t)
    ensures Synced(Toggle(t)) && Synced(SetTheme(t, mode, prefersDark))
  {
  }

  /** A reload restores the mode: starting from what was persisted gives
      the same mode back, for every mode a change can produce. */
  lemma ReloadRestores(t: ThemeState, mode: string, prefersDark: bool)
    requires Synced(t) && t.mode != []
    ensures Initial(Some(t.persisted)) == t
    ensures Initial(Some(Toggle(t).persisted)) == Toggle(t)
    ensures Initial(Some(SetTheme(t, mode, prefersDark).persisted)) == SetTheme(t, mode, prefersDark)
  {
  }
}
