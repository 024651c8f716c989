// Preferences: the key-value preference store both settings classes keep
// their values in, and its typed reads with a default.

module Preferences {
  /** A value in the preference store. */
  datatype PrefValue = Str(s: string) | Bool(b: bool) | Int(i: int)

  type Prefs = map<string, PrefValue>

  /** `getString(key, default)`. */
  function GetString(prefs: Prefs, key: string, default: string): (v: string)
    ensures key !in prefs ==> v == default
    ensures key in prefs && prefs[key].Str? ==> v == prefs[key].s
  {
    if key in prefs && prefs[key].Str? then prefs[key].s else default
  }

  /** `getBoolean(key, default)`. */
  function GetBool(prefs: Prefs, key: string, default: bool): (v: bool)
    ensures key !in prefs ==> v == default
    ensures key in prefs && prefs[key].Bool? ==> v == prefs[key].b
  {
    if key in prefs && prefs[key].Bool? then prefs[key].b else default
  }

  /** `getInt(key, default)`. */
  function GetInt(prefs: Prefs, key: string, default: int): (v: int)
    ensures key !in prefs ==> v == default
    ensures key in prefs && prefs[key].Int? ==> v == prefs[key].i
  {
    if key in prefs && prefs[key].Int? then prefs[key].i else default
  }
}
