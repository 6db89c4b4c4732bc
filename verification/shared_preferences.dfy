/**
 * The application's default SharedPreferences: a persisted map from keys to
 * typed values. The typed readers behave as Android's do: an absent key
 * yields the caller's default, and a key holding a value of another type
 * throws ClassCastException, modelled as `Failure(key)`.
 */
module SharedPrefs {
  import opened Wrappers
  import opened JavaLang

  /** A stored value; float and string-set values are not used by the activities. */
  datatype Value = BoolV(b: bool) | IntV(i: Int32) | LongV(l: Int64) | StringV(s: string)

  type Store = map<string, Value>

  /** `getBoolean(key, default)`. */
  function GetBoolean(m: Store, key: string, default: bool): (r: Result<bool, string>)
    ensures key !in m ==> r == Success(default)
    ensures key in m && m[key].BoolV? ==> r == Success(m[key].b)
    ensures r.Failure? <==> key in m && !m[key].BoolV?
    ensures r.Failure? ==> r.error == key
  {
    if key !in m then Success(default)
    else match m[key]
      case BoolV(b) => Success(b)
      case _ => Failure(key)
  }

  /** `getInt(key, default)`. */
  function GetInt(m: Store, key: string, default: Int32): (r: Result<Int32, string>)
    ensures key !in m ==> r == Success(default)
    ensures key in m && m[key].IntV? ==> r == Success(m[key].i)
    ensures r.Failure? <==> key in m && !m[key].IntV?
    ensures r.Failure? ==> r.error == key
  {
    if key !in m then Success(default)
    else match m[key]
      case IntV(i) => Success(i)
      case _ => Failure(key)
  }

  /** `getLong(key, default)`. */
  function GetLong(m: Store, key: string, default: Int64): (r: Result<Int64, string>)
    ensures key !in m ==> r == Success(default)
    ensures key in m && m[key].LongV? ==> r == Success(m[key].l)
    ensures r.Failure? <==> key in m && !m[key].LongV?
    ensures r.Failure? ==> r.error == key
  {
    if key !in m then Success(default)
    else match m[key]
      case LongV(l) => Success(l)
      case _ => Failure(key)
  }

  /** The preferences object shared by every activity of the process. */
  class Preferences {
    var entries: Store

    constructor (initial: Store)
      ensures entries == initial
    {
      entries := initial;
    }

    /**
     * `edit().put…(…)….apply()`: every key of `edits` is written in one
     * atomic step; readers see either none or all of them.
     */
    method Commit(edits: Store)
      modifies this
      ensures entries == old(entries) + edits
      ensures entries.Keys == old(entries).Keys + edits.Keys
      ensures forall k :: k in old(entries) && k !in edits ==> entries[k] == old(entries)[k]
    {
      entries := entries + edits;
    }
  }
}

/** The constants the build compiles into the manager. */
module BuildConfig {
  import opened JavaLang

  /** `BuildConfig.DEBUG`, `VERSION_CODE`, `VERSION_NAME` and `BUILD_TIME` (epoch seconds). */
  datatype Config = Config(debug: bool, versionCode: Int32, versionName: string, buildTime: Int64)
}
