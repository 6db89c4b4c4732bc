/**
 * BaseActivity: the lazily initialised shared preferences with their DNS
 * over HTTPS default, and the verdict on whether the manager and the
 * framework service disagree on their version.
 */
module BaseActivity {
  import opened Wrappers
  import opened JavaLang
  import opened SharedPrefs
  import opened BuildConfig

  const DOH := "doh"
  const CHINA := "CN"

  /**
   * The defaulting applied when the preferences are first obtained: in China
   * `doh` becomes true unless the user already chose a value.
   */
  function DohDefault(m: Store, country: string): (r: Store)
    ensures forall k :: k in m ==> k in r && r[k] == m[k]
    ensures r.Keys <= m.Keys + {DOH}
    ensures country == CHINA ==> DOH in r
  {
    if country == CHINA && DOH !in m then m[DOH := BoolV(true)] else m
  }

  /** In China an absent `doh` becomes true and nothing else changes. */
  lemma DohDefaultInChina(m: Store)
    requires DOH !in m
    ensures DohDefault(m, CHINA) == m[DOH := BoolV(true)]
    ensures DohDefault(m, CHINA).Keys == m.Keys + {DOH}
  {
  }

  /** A stored `doh` choice, true or false, is never overwritten. */
  lemma DohChoiceKept(m: Store, country: string)
    requires DOH in m
    ensures DohDefault(m, country) == m
  {
  }

  /** Outside China the store is left as it is. */
  lemma DohDefaultElsewhere(m: Store, country: string)
    requires country != CHINA
    ensures DohDefault(m, country) == m
  {
  }

  /** Defaulting twice is defaulting once. */
  lemma DohDefaultIdempotent(m: Store, country: string)
    ensures DohDefault(DohDefault(m, country), country) == DohDefault(m, country)
  {
  }

  /** The static `preferences` field of BaseActivity, null until first use. */
  class PreferencesHolder {
    var preferences: Preferences?

    constructor ()
      ensures preferences == null
    {
      preferences := null;
    }

    /**
     * `getPreferences()`. `backing` is the default SharedPreferences of the
     * application and `country` the default locale's country; both are only
     * consulted on the first call, which caches `backing` and applies the
     * `doh` default to it. Later calls return the cached object and write nothing.
     */
    method GetPreferences(backing: Preferences, country: string) returns (p: Preferences)
      modifies this, backing
      ensures preferences == p
      ensures old(preferences) != null ==> p == old(preferences) && unchanged(backing)
      ensures old(preferences) == null ==>
        p == backing && backing.entries == DohDefault(old(backing.entries), country)
    {
      if preferences == null {
        preferences := backing;
        if country == CHINA {
          if DOH !in backing.entries {
            backing.Commit(map[DOH := BoolV(true)]);
          }
        }
      }
      p := preferences;
    }
  }

  /** The message of the version-mismatch dialog. */
  datatype MismatchMessage = OutdatedCore | OutdatedManager

  /**
   * The check at the end of `onCreate`: no dialog in a debug build, without
   * a live binder, or when both sides report the same version name;
   * otherwise `outdated_core` when the manager's name is the greater in
   * `String.compareTo` order, `outdated_manager` when it is not.
   */
  function VersionMismatch(build: Config, binderAlive: bool, serviceVersion: string): (r: Option<MismatchMessage>)
    ensures r.Some? ==> !build.debug && binderAlive && build.versionName != serviceVersion
  {
    if build.debug then None
    else if !binderAlive then None
    else if build.versionName == serviceVersion then None
    else if CompareTo(build.versionName, serviceVersion) > 0 then Some(OutdatedCore)
    else Some(OutdatedManager)
  }

  /** A dialog appears exactly for a release build, a live binder and differing names. */
  lemma MismatchShownIffNamesDiffer(build: Config, binderAlive: bool, serviceVersion: string)
    ensures VersionMismatch(build, binderAlive, serviceVersion).Some?
      <==> !build.debug && binderAlive && build.versionName != serviceVersion
  {
  }

  /**
   * When shown, the dialog blames the side whose name is smaller: the core
   * when the service's name sorts first, the manager when the manager's does.
   */
  lemma MismatchBlamesOlderSide(build: Config, binderAlive: bool, serviceVersion: string)
    requires VersionMismatch(build, binderAlive, serviceVersion).Some?
    ensures VersionMismatch(build, binderAlive, serviceVersion) == Some(OutdatedCore)
      <==> CompareTo(serviceVersion, build.versionName) < 0
    ensures VersionMismatch(build, binderAlive, serviceVersion) == Some(OutdatedManager)
      <==> CompareTo(build.versionName, serviceVersion) < 0
    ensures VersionMismatch(build, binderAlive, serviceVersion) == Some(OutdatedCore)
      <==> LexLess(serviceVersion, build.versionName)
    ensures VersionMismatch(build, binderAlive, serviceVersion) == Some(OutdatedManager)
      <==> LexLess(build.versionName, serviceVersion)
  {
    CompareToAntisymmetric(build.versionName, serviceVersion);
    CompareToZeroIffEqual(build.versionName, serviceVersion);
    CompareToLex(serviceVersion, build.versionName);
    CompareToLex(build.versionName, serviceVersion);
  }
}
