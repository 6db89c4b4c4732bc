/**
 * The routing decision of MainActivity's `handleIntent`: which navigation, if
 * any, an incoming intent triggers, given whether the privileged service's
 * binder is alive and whether Magisk is installed.
 */
module IntentRouting {
  import opened Wrappers
  import opened JavaLang

  const APPLICATION_PREFERENCES := "android.intent.action.APPLICATION_PREFERENCES"
  const MODULE_PACKAGE_NAME := "modulePackageName"
  const MODULE_USER_ID := "moduleUserId"

  /** An extra as stored in the intent's bundle; `OtherExtra` is a value of any other type. */
  datatype Extra = StringExtra(s: string) | IntExtra(i: Int32) | NullExtra | OtherExtra

  /** The parts of an intent the router reads: action, extras and data string (`None` is null). */
  datatype Intent = Intent(action: Option<string>, extras: map<string, Extra>, dataString: Option<string>)

  /** The navigation targets `handleIntent` can reach. */
  datatype Destination =
    | Settings
    | AppList(modulePackageName: Option<string>, moduleUserId: Int32)
    | Modules
    | Logs
    | Repo

  /** `getStringExtra(key)`: null when absent or not a string. */
  function GetStringExtra(extras: map<string, Extra>, key: string): (r: Option<string>)
    ensures r.Some? <==> key in extras && extras[key].StringExtra?
    ensures r.Some? ==> extras[key] == StringExtra(r.value)
  {
    if key in extras && extras[key].StringExtra? then Some(extras[key].s) else None
  }

  /** `getIntExtra(key, default)`: the default when absent or not an int. */
  function GetIntExtra(extras: map<string, Extra>, key: string, default: Int32): (r: Int32)
    ensures key in extras && extras[key].IntExtra? ==> extras[key] == IntExtra(r)
    ensures !(key in extras && extras[key].IntExtra?) ==> r == default
  {
    if key in extras && extras[key].IntExtra? then extras[key].i else default
  }

  /** `TextUtils.isEmpty`: null or the empty string. */
  predicate IsEmpty(s: Option<string>)
    ensures IsEmpty(s) <==> s.None? || |s.value| == 0
  {
    s.None? || s.value == ""
  }

  /** Whether a destination's service precondition holds. */
  predicate Admitted(d: Destination, binderAlive: bool, magiskInstalled: bool)
  {
    match d
    case Settings => true
    case Repo => binderAlive || magiskInstalled
    case _ => binderAlive
  }

  /** The switch over the data string: only the three known routes, each behind its gate. */
  function DataRoute(data: string, binderAlive: bool, magiskInstalled: bool): (r: Option<Destination>)
    ensures r.Some? ==> Admitted(r.value, binderAlive, magiskInstalled) && r.value in {Modules, Logs, Repo}
    ensures r.Some? <==>
      || ((data == "modules" || data == "logs") && binderAlive)
      || (data == "repo" && (binderAlive || magiskInstalled))
  {
    if data == "modules" then (if binderAlive then Some(Modules) else None)
    else if data == "logs" then (if binderAlive then Some(Logs) else None)
    else if data == "repo" then (if binderAlive || magiskInstalled then Some(Repo) else None)
    else None
  }

  /**
   * `handleIntent`: the destination navigated to, or `None` when nothing
   * happens. Every destination reached has its precondition met.
   */
  function HandleIntent(intent: Option<Intent>, binderAlive: bool, magiskInstalled: bool): (r: Option<Destination>)
    ensures r.Some? ==> Admitted(r.value, binderAlive, magiskInstalled)
    ensures r == Some(Settings) <==> intent.Some? && intent.value.action == Some(APPLICATION_PREFERENCES)
  {
    match intent
    case None => None
    case Some(it) =>
      if it.action == Some(APPLICATION_PREFERENCES) then Some(Settings)
      else if MODULE_PACKAGE_NAME in it.extras && binderAlive then
        Some(AppList(GetStringExtra(it.extras, MODULE_PACKAGE_NAME), GetIntExtra(it.extras, MODULE_USER_ID, -1)))
      else if !IsEmpty(it.dataString) then DataRoute(it.dataString.value, binderAlive, magiskInstalled)
      else None
  }

  /** The settings action wins over every other rule and needs no service. */
  lemma SettingsActionFirst(it: Intent, binderAlive: bool, magiskInstalled: bool)
    requires it.action == Some(APPLICATION_PREFERENCES)
    ensures HandleIntent(Some(it), binderAlive, magiskInstalled) == Some(Settings)
  {
  }

  /** With the binder alive a module intent opens the app list of that package; the user id defaults to -1. */
  lemma ModuleIntentOpensAppList(it: Intent, magiskInstalled: bool)
    requires it.action != Some(APPLICATION_PREFERENCES)
    requires MODULE_PACKAGE_NAME in it.extras
    ensures HandleIntent(Some(it), true, magiskInstalled)
      == Some(AppList(GetStringExtra(it.extras, MODULE_PACKAGE_NAME),
                      if MODULE_USER_ID in it.extras && it.extras[MODULE_USER_ID].IntExtra?
                      then it.extras[MODULE_USER_ID].i else -1))
  {
  }

  /** With the binder dead the module extra is ignored and the data string decides. */
  lemma ModuleIntentFallsThrough(it: Intent, magiskInstalled: bool)
    requires it.action != Some(APPLICATION_PREFERENCES)
    ensures HandleIntent(Some(it), false, magiskInstalled)
      == HandleIntent(Some(it.(extras := map[])), false, magiskInstalled)
    ensures HandleIntent(Some(it), false, magiskInstalled).Some? ==> it.dataString == Some("repo") && magiskInstalled
  {
  }

  /** The data string routes exactly "modules", "logs" and "repo", each behind its gate. */
  lemma DataStringGates(it: Intent, binderAlive: bool, magiskInstalled: bool)
    requires it.action != Some(APPLICATION_PREFERENCES)
    requires !(MODULE_PACKAGE_NAME in it.extras && binderAlive)
    ensures var r := HandleIntent(Some(it), binderAlive, magiskInstalled);
      && (it.dataString == Some("modules") ==> r == (if binderAlive then Some(Modules) else None))
      && (it.dataString == Some("logs") ==> r == (if binderAlive then Some(Logs) else None))
      && (it.dataString == Some("repo") ==> r == (if binderAlive || magiskInstalled then Some(Repo) else None))
      && (it.dataString !in {Some("modules"), Some("logs"), Some("repo")} ==> r == None)
  {
  }

  /** A null intent navigates nowhere. */
  lemma NullIntentIgnored(binderAlive: bool, magiskInstalled: bool)
    ensures HandleIntent(None, binderAlive, magiskInstalled) == None
  {
  }

  /** More service availability never cancels a navigation (it may change its target). */
  lemma RoutingMonotonic(intent: Option<Intent>, b: bool, m: bool, b': bool, m': bool)
    requires (b ==> b') && (m ==> m')
    requires HandleIntent(intent, b, m).Some?
    ensures HandleIntent(intent, b', m').Some?
  {
  }
}
