/**
 * The light/dark switch in the browser: the mode is read from local storage, else from the
 * page's `colorMode` value, else "system"; the toggle cycles light, dark, system; dark is
 * applied for "dark", or for "system" when the operating system prefers dark. The OS
 * preference is a parameter; the request that stores the mode on the server is recorded.
 */
module ColorMode {
  import opened Wrappers

  /** `getCurrentMode`: an empty string counts as missing, as JavaScript's `||` treats it. */
  function CurrentMode(stored: Option<string>, value: string): (m: string)
    ensures m != ""
    ensures stored.Some? && stored.value != "" ==> m == stored.value
    ensures (stored.None? || stored.value == "") && value != "" ==> m == value
    ensures (stored.None? || stored.value == "") && value == "" ==> m == "system"
  {
    if stored.Some? && stored.value != "" then stored.value
    else if value != "" then value
    else "system"
  }

  /** The next mode of `toggle`: light to dark, dark to system, anything else to light. */
  function NextMode(current: string): (m: string)
    ensures m in {"light", "dark", "system"}
    ensures current == "light" ==> m == "dark"
    ensures current == "dark" ==> m == "system"
    ensures current != "light" && current != "dark" ==> m == "light"
  {
    if current == "light" then "dark"
    else if current == "dark" then "system"
    else "light"
  }

  /** Three toggles come back to a mode of the cycle; any other stored value joins the cycle at light. */
  lemma ToggleCycles(m: string)
    ensures m in {"light", "dark", "system"} ==> NextMode(NextMode(NextMode(m))) == m
    ensures !(m in {"light", "dark", "system"}) ==> NextMode(m) == "light"
    ensures NextMode(m) != m
  {
  }

  /** `applyTheme`: whether the document gets the `dark` class. */
  predicate AppliesDark(mode: string, prefersDark: bool) {
    mode == "dark" || (mode == "system" && prefersDark)
  }

  /** The switch's state: local storage, the controller value, whether `dark` is applied, and server syncs sent. */
  class Switch {
    var stored: Option<string>
    var value: string
    var dark: bool
    var synced: seq<string>

    /** The document matches the current mode under the given OS preference. */
    ghost predicate Applied(prefersDark: bool)
      reads this
    {
      dark == AppliesDark(CurrentMode(stored, value), prefersDark)
    }

    /** `connect`: the theme is applied from what is stored. */
    constructor (stored: Option<string>, value: string, prefersDark: bool)
      ensures this.stored == stored && this.value == value && synced == [] && Applied(prefersDark)
    {
      this.stored := stored;
      this.value := value;
      dark := AppliesDark(CurrentMode(stored, value), prefersDark);
      synced := [];
    }

    /** `applyTheme`. */
    method Apply(prefersDark: bool)
      modifies this
      ensures Applied(prefersDark) && stored == old(stored) && value == old(value) && synced == old(synced)
    {
      dark := AppliesDark(CurrentMode(stored, value), prefersDark);
    }

    /**
     * `setMode`: the mode is stored locally and as the controller value before it is applied,
     * and sent to the server when the page carries a CSRF token (a signed-in user).
     */
    method SetMode(mode: string, prefersDark: bool, signedIn: bool)
      modifies this
      ensures stored == Some(mode) && value == mode && Applied(prefersDark)
      ensures mode != "" ==> CurrentMode(stored, value) == mode
      ensures synced == old(synced) + (if signedIn then [mode] else [])
    {
      stored := Some(mode);
      value := mode;
      Apply(prefersDark);
      if signedIn {
        synced := synced + [mode];
      }
    }

    /** `toggle`: the next mode after the current one is set. */
    method Toggle(prefersDark: bool, signedIn: bool)
      modifies this
      ensures stored == Some(NextMode(old(CurrentMode(stored, value))))
      ensures CurrentMode(stored, value) == NextMode(old(CurrentMode(stored, value)))
      ensures Applied(prefersDark)
      ensures synced == old(synced) + (if signedIn then [NextMode(old(CurrentMode(stored, value)))] else [])
    {
      SetMode(NextMode(CurrentMode(stored, value)), prefersDark, signedIn);
    }

    /** `handleSystemChange`: a new OS preference is applied only in system mode. */
    method SystemChanged(prefersDark: bool)
      modifies this
      ensures stored == old(stored) && value == old(value) && synced == old(synced)
      ensures CurrentMode(stored, value) == "system" ==> Applied(prefersDark)
      ensures CurrentMode(stored, value) != "system" ==> dark == old(dark)
    {
      if CurrentMode(stored, value) == "system" {
        Apply(prefersDark);
      }
    }
  }

  /** Outside system mode the OS preference does not matter: an applied theme stays applied. */
  lemma OsPreferenceOnlyInSystemMode(mode: string, before: bool, after: bool)
    requires mode != "system"
    ensures AppliesDark(mode, before) == AppliesDark(mode, after)
  {
  }
}
