/**
 * The user preference store: a small key/value map holding the dark-mode
 * flag and the selected language. Reads fall back to defaults when a key is
 * absent; the two writers each set one key; the reset clears the map but
 * puts back a language that was stored.
 */
module Preferences {
  import opened Wrappers

  /** The two preference keys, `dark_mode` and `selected_language`. */
  datatype Key = DarkMode | SelectedLanguage

  /** A stored value: the store keeps booleans and strings. */
  datatype Value = BoolValue(b: bool) | StringValue(s: string)

  type Store = map<Key, Value>

  /** The language shown when none has been stored. */
  const DefaultLanguage: string := "Русский"

  /** Each key holds a value of its own type (the keys are typed in the store). */
  ghost predicate WellTyped(p: Store)
  {
    && (DarkMode in p ==> p[DarkMode].BoolValue?)
    && (SelectedLanguage in p ==> p[SelectedLanguage].StringValue?)
  }

  /** `darkModeFlow`'s value: dark mode is on exactly when `true` is stored. */
  function ReadDarkMode(p: Store): (on: bool)
    requires WellTyped(p)
    ensures on <==> DarkMode in p && p[DarkMode] == BoolValue(true)
  {
    if DarkMode in p then p[DarkMode].b else false
  }

  /** `languageFlow`'s value: the stored language, or the default when none is stored. */
  function ReadLanguage(p: Store): (language: string)
    requires WellTyped(p)
    ensures SelectedLanguage in p ==> p[SelectedLanguage] == StringValue(language)
    ensures SelectedLanguage !in p ==> language == DefaultLanguage
  {
    if SelectedLanguage in p then p[SelectedLanguage].s else DefaultLanguage
  }

  /** The store after `saveDarkMode(isEnabled)`. */
  function WithDarkMode(p: Store, isEnabled: bool): (r: Store)
    requires WellTyped(p)
    ensures WellTyped(r)
    ensures ReadDarkMode(r) == isEnabled
    ensures r.Keys == p.Keys + {DarkMode}
    ensures SelectedLanguage in p ==> r[SelectedLanguage] == p[SelectedLanguage]
    ensures ReadLanguage(r) == ReadLanguage(p)
  {
    p[DarkMode := BoolValue(isEnabled)]
  }

  /** The store after `saveSelectedLanguage(language)`. */
  function WithLanguage(p: Store, language: string): (r: Store)
    requires WellTyped(p)
    ensures WellTyped(r)
    ensures ReadLanguage(r) == language
    ensures r.Keys == p.Keys + {SelectedLanguage}
    ensures DarkMode in p ==> r[DarkMode] == p[DarkMode]
    ensures ReadDarkMode(r) == ReadDarkMode(p)
  {
    p[SelectedLanguage := StringValue(language)]
  }

  /**
   * The store after `resetSettings`: everything is cleared except a stored
   * language, which is kept exactly; without one, the language key stays absent.
   */
  function Reset(p: Store): (r: Store)
    requires WellTyped(p)
    ensures WellTyped(r)
    ensures r.Keys <= {SelectedLanguage}
    ensures !ReadDarkMode(r)
    ensures SelectedLanguage in r <==> SelectedLanguage in p
    ensures SelectedLanguage in p ==> r[SelectedLanguage] == p[SelectedLanguage]
    ensures ReadLanguage(r) == ReadLanguage(p)
  {
    if SelectedLanguage in p then map[SelectedLanguage := p[SelectedLanguage]] else map[]
  }

  /** A second reset changes nothing. */
  lemma ResetIdempotent(p: Store)
    requires WellTyped(p)
    ensures Reset(Reset(p)) == Reset(p)
  {
  }

  /** A reset after changing only dark mode gives the same store as a reset before it. */
  lemma ResetForgetsDarkMode(p: Store, isEnabled: bool)
    requires WellTyped(p)
    ensures Reset(WithDarkMode(p, isEnabled)) == Reset(p)
  {
  }

  /**
   * The preferences of one app install. Its methods change the stored map
   * the way the `edit` blocks of `UserPreferences.kt` do.
   */
  class UserPreferences {
    var data: Store

    ghost predicate Valid()
      reads this
    {
      WellTyped(data)
    }

    /** A store nothing has been written to yet: both reads give their defaults. */
    constructor ()
      ensures Valid() && data == map[]
      ensures !ReadDarkMode(data) && ReadLanguage(data) == DefaultLanguage
    {
      data := map[];
    }

    method SaveDarkMode(isEnabled: bool)
      requires Valid()
      modifies this
      ensures Valid()
      ensures data == WithDarkMode(old(data), isEnabled)
      ensures ReadDarkMode(data) == isEnabled
      ensures ReadLanguage(data) == ReadLanguage(old(data))
    {
      data := data[DarkMode := BoolValue(isEnabled)];
    }

    method SaveSelectedLanguage(language: string)
      requires Valid()
      modifies this
      ensures Valid()
      ensures data == WithLanguage(old(data), language)
      ensures ReadLanguage(data) == language
      ensures ReadDarkMode(data) == ReadDarkMode(old(data))
    {
      data := data[SelectedLanguage := StringValue(language)];
    }

    /** Reads the stored language, clears the map, then restores the language if there was one. */
    method ResetSettings()
      requires Valid()
      modifies this
      ensures Valid()
      ensures data == Reset(old(data))
      ensures !ReadDarkMode(data)
      ensures ReadLanguage(data) == ReadLanguage(old(data))
    {
      var currentLanguage := if SelectedLanguage in data then Some(data[SelectedLanguage]) else None;
      data := map[];
      if currentLanguage.Some? {
        data := data[SelectedLanguage := currentLanguage.value];
      }
    }
  }
}
