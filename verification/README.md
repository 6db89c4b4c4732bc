# LSPosed manager: update-freshness oracle and intent router

This project models the decision logic in two activities of the LSPosed
manager app, and proves properties of that model.

**MainActivity**
- `loadRemoteVersion` fetches the latest GitHub release. Its two callbacks
  record the outcome in the app's shared preferences. `onResponse` stores
  `latest_version`, `latest_check` and `checked` in one atomic `apply()`.
  `onFailure` sets `checked` unless it is already true; a stored false is overwritten.
- `needUpdate` reads those keys back and decides whether to show an
  "update available" prompt. Nothing is reported until `checked` is true.
  After a successful check it nags when that check is more than thirty days
  old, or when the `latest_version` found is greater than the build's
  `VERSION_CODE`. When there is no successful check, it nags once the build
  itself is more than thirty days old.
- `handleIntent` maps an incoming intent to a navigation destination.
  Settings needs no gate. The app list, `"modules"` and `"logs"` need the
  framework's binder to be alive. `"repo"` needs the binder to be alive or
  Magisk to be installed.

**BaseActivity**
- `getPreferences` initialises the shared preferences lazily. In China it
  defaults `doh` (DNS over HTTPS) to true.
- `onCreate` decides whether to warn that the manager and the framework
  service disagree on their version name, and which side to call outdated.

The model is organised by module:

- `Wrappers`: `Option` and `Result`.
- `JavaLang`: the Java behaviour the decisions depend on.
  - `int` and `long` ranges.
  - `String.split(sep, limit)` with a positive limit. The last field keeps
    the rest of the input, and empty fields are kept.
  - `Integer.parseInt`: an optional sign, decimal digits, 32-bit range.
  - `String.compareTo`.
- `SharedPrefs`: the preferences as a `map<string, Value>` inside a
  `Preferences` object, whose `Commit` is one `edit()…apply()`. The typed
  readers behave like Android's: an absent key gives the default, and a
  value of the wrong type gives the ClassCastException, as `Failure(key)`.
- `BuildConfig`: `DEBUG`, `VERSION_CODE`, `VERSION_NAME`, `BUILD_TIME`.
- `UpdateCheck` (MainActivity):
  - `NeedUpdate` and the `AfterResponse`/`AfterFailure` store transitions.
  - The callbacks `OnResponse` and `OnFailure` as methods on the shared
    `Preferences`.
  - A `FreshnessRecord` view of the store, with the update policy stated on
    it.
- `IntentRouting` (MainActivity): `HandleIntent` as a pure function
  returning `Option<Destination>`.
- `BaseActivity`: the `doh` defaulting and the `PreferencesHolder` class.
  The class holds the static `preferences` field that `GetPreferences`
  fills once. `VersionMismatch` gives the dialog verdict.

Inputs that the source gets from the environment are parameters here:
- the current `Instant` (`now`), including nanoseconds;
- the outcome of the HTTP call, reduced to the success flag, body presence
  and the extracted asset name;
- the two availability probes;
- the locale's country;
- the service's version name;
- the default preferences object.

The model follows the code in these places, which are easy to misread:
- A non-2xx response, a missing body, a JSON error or an unparseable
  version writes nothing, not even `checked`. Only `onFailure`, a transport
  failure, sets `checked`.
- With the binder dead, an intent that carries `modulePackageName` is not
  simply dropped. It falls through to the data-string rules, so
  `"repo"` can still route.
- "A successful check exists" means `latest_check > 0`. A check stored at a
  non-positive epoch second is treated like no check.
- `now` carries nanoseconds and the thirty-day deadline does not. So at
  exactly thirty days, `needUpdate` is false only when the nanosecond part
  is zero (`ThirtyDaysBoundary`).
- Version names are compared lexicographically. A manager "1.10" against a
  service "1.9" is therefore reported as the outdated side
  (`CompareToIsNotNumeric`).

## Model

| member | source | states |
|---|---|---|
| `JavaLang.IndexOf` | app/src/main/java/org/lsposed/manager/ui/activity/MainActivity.java:120 | the search `split` performs gives a position holding the separator, or -1 |
| `JavaLang.IndexOfFirst` | app/src/main/java/org/lsposed/manager/ui/activity/MainActivity.java:120 | the separator search `split` performs finds a position exactly when the separator occurs, and no earlier position holds it |
| `JavaLang.Split` | app/src/main/java/org/lsposed/manager/ui/activity/MainActivity.java:120 | `split("-", 4)` gives at least one field and at most `limit` fields |
| `JavaLang.SplitFieldsFree` | app/src/main/java/org/lsposed/manager/ui/activity/MainActivity.java:120 | no field of a split but the last contains the separator, and the last contains one only when the limit was reached |
| `JavaLang.SplitJoin` | app/src/main/java/org/lsposed/manager/ui/activity/MainActivity.java:120 | joining the fields of a split with the separator gives back the input |
| `JavaLang.JoinSplit` | app/src/main/java/org/lsposed/manager/ui/activity/MainActivity.java:120 | conversely, any field list split could have produced is recovered by splitting its join |
| `JavaLang.SplitLength` | app/src/main/java/org/lsposed/manager/ui/activity/MainActivity.java:120 | the number of fields is the number of separators plus one, capped at the limit |
| `JavaLang.ParseInt` | app/src/main/java/org/lsposed/manager/ui/activity/MainActivity.java:120 | an accepted string ends in a digit, and a negative result needs a leading '-' |
| `JavaLang.ParseIntValue` | app/src/main/java/org/lsposed/manager/ui/activity/MainActivity.java:120 | an accepted string is an optional sign followed by one or more digits, and its result is their decimal value, negated under '-' |
| `JavaLang.ParseIntRejectsNonDigit` | app/src/main/java/org/lsposed/manager/ui/activity/MainActivity.java:120 | any character that is not a digit, other than a leading sign, makes `parseInt` throw (e.g. "1a2") |
| `JavaLang.ParseIntRejectsNoDigits` | app/src/main/java/org/lsposed/manager/ui/activity/MainActivity.java:120 | the empty string and a sign alone make `parseInt` throw |
| `JavaLang.ParseIntAcceptsInRange` | app/src/main/java/org/lsposed/manager/ui/activity/MainActivity.java:120 | a numeral up to 2^31 - 1 is accepted with its value, unsigned, after '+' ("+7" is 7), or negated after '-' |
| `JavaLang.ParseIntRejectsOutOfRange` | app/src/main/java/org/lsposed/manager/ui/activity/MainActivity.java:120 | a numeral above 2^31 - 1 (e.g. "2147483648") is rejected unsigned or after '+', and one above 2^31 is rejected after '-' |
| `JavaLang.ParseIntLeadingZero` | app/src/main/java/org/lsposed/manager/ui/activity/MainActivity.java:120 | leading zeros do not change the result ("007" is 7) |
| `JavaLang.ParseIntExamples` | app/src/main/java/org/lsposed/manager/ui/activity/MainActivity.java:120 | "1a2" is rejected; "+7" and "007" give 7; "-0" gives 0 |
| `JavaLang.ParseIntToString` | app/src/main/java/org/lsposed/manager/ui/activity/MainActivity.java:120 | every 32-bit integer written in decimal parses back to itself |
| `JavaLang.CompareTo` | app/src/main/java/org/lsposed/manager/ui/activity/base/BaseActivity.java:132 | when one name is a prefix of the other, `compareTo` is the difference of the lengths |
| `JavaLang.CompareToLex` | app/src/main/java/org/lsposed/manager/ui/activity/base/BaseActivity.java:132 | `compareTo` is negative exactly when the first string sorts first lexicographically: it is a proper prefix, or holds the smaller character at the first difference |
| `JavaLang.CompareToZeroIffEqual` | app/src/main/java/org/lsposed/manager/ui/activity/base/BaseActivity.java:130-132 | `compareTo` is zero exactly when the strings are equal |
| `JavaLang.CompareToAntisymmetric` | app/src/main/java/org/lsposed/manager/ui/activity/base/BaseActivity.java:132 | swapping the operands of `compareTo` negates the result |
| `JavaLang.CompareToIsNotNumeric` | app/src/main/java/org/lsposed/manager/ui/activity/base/BaseActivity.java:132 | the order is lexicographic: "1.10" sorts before "1.9" |
| `SharedPrefs.GetBoolean` | app/src/main/java/org/lsposed/manager/ui/activity/MainActivity.java:144 | `getBoolean` gives the default for an absent key, the stored boolean otherwise, and throws ClassCastException exactly when the key holds another type |
| `SharedPrefs.GetLong` | app/src/main/java/org/lsposed/manager/ui/activity/MainActivity.java:147 | `getLong` gives the default for an absent key, the stored long otherwise, and throws ClassCastException exactly when the key holds another type |
| `SharedPrefs.GetInt` | app/src/main/java/org/lsposed/manager/ui/activity/MainActivity.java:152 | `getInt` gives the default for an absent key, the stored int otherwise, and throws ClassCastException exactly when the key holds another type |
| `SharedPrefs.Preferences.Commit` | app/src/main/java/org/lsposed/manager/ui/activity/MainActivity.java:122-126 | an `edit()…apply()` writes all its keys in one step and leaves every other key as it was |
| `UpdateCheck.ThirtyDaysElapsed` | app/src/main/java/org/lsposed/manager/ui/activity/MainActivity.java:150 | `plusDays(30)…isBefore(now)` holds exactly when the deadline, counted in nanoseconds, is earlier than `now` counted in nanoseconds |
| `UpdateCheck.ThirtyDaysBoundary` | app/src/main/java/org/lsposed/manager/ui/activity/MainActivity.java:150 | the 30-day test is strict: at whole seconds, exactly 30 days is not elapsed; at the deadline second, only a non-zero nanosecond part makes it elapsed |
| `UpdateCheck.NeedUpdate` | app/src/main/java/org/lsposed/manager/ui/activity/MainActivity.java:142-156 | `needUpdate` throws only for one of its three keys holding a value of another type, and reports an update only once `checked` is true |
| `UpdateCheck.NeedUpdateFalseUntilChecked` | app/src/main/java/org/lsposed/manager/ui/activity/MainActivity.java:144 | with `checked` absent or false, `needUpdate` is false whatever the times and versions |
| `UpdateCheck.NeedUpdateStaleCheck` | app/src/main/java/org/lsposed/manager/ui/activity/MainActivity.java:147-151 | with a positive `latest_check` whose 30-day deadline is before now (the `isBefore` test, nanoseconds included), `needUpdate` is true, even if `latest_version` is missing or of another type |
| `UpdateCheck.NeedUpdateRecentCheck` | app/src/main/java/org/lsposed/manager/ui/activity/MainActivity.java:148-153 | within 30 days of a positive `latest_check`, `needUpdate` is `latest_version > VERSION_CODE`, with a missing `latest_version` read as 0 |
| `UpdateCheck.NeedUpdateNeverSucceeded` | app/src/main/java/org/lsposed/manager/ui/activity/MainActivity.java:147-155 | with `checked` set and `latest_check` absent or non-positive, `needUpdate` is true iff `BUILD_TIME + 2592000 < now` (strict) |
| `UpdateCheck.NeedUpdateTotal` | app/src/main/java/org/lsposed/manager/ui/activity/MainActivity.java:142-156 | on a store whose three keys have the expected types, `needUpdate` never throws |
| `UpdateCheck.NeedUpdateImplementsPolicy` | app/src/main/java/org/lsposed/manager/ui/activity/MainActivity.java:142-156 | on a well-typed store, `needUpdate` equals the policy stated on the freshness record: checked, and either stale-or-newer after a successful check, or an old build without one |
| `UpdateCheck.VersionFromAssetName` | app/src/main/java/org/lsposed/manager/ui/activity/MainActivity.java:120 | a version is extracted only from a name with at least two hyphens |
| `UpdateCheck.VersionNeedsTwoHyphens` | app/src/main/java/org/lsposed/manager/ui/activity/MainActivity.java:120 | an asset name with fewer than two hyphens has no third field, so no version is extracted |
| `UpdateCheck.AssetNameRoundTrip` | app/src/main/java/org/lsposed/manager/ui/activity/MainActivity.java:120 | a non-negative version written as the third hyphen-separated field is extracted, whatever the first two fields hold, whether the name ends there or a fourth field follows |
| `UpdateCheck.ThirdFieldIsLast` | app/src/main/java/org/lsposed/manager/ui/activity/MainActivity.java:120 | with exactly two hyphens the third field is the last, and the extracted version is exactly `parseInt` of it |
| `UpdateCheck.ThirdFieldBeforeRest` | app/src/main/java/org/lsposed/manager/ui/activity/MainActivity.java:120 | with a fourth field, the extracted version is exactly `parseInt` of the third field, whatever the fourth holds, hyphens included |
| `UpdateCheck.ThirdFieldDecides` | app/src/main/java/org/lsposed/manager/ui/activity/MainActivity.java:120 | when the first three fields hold no hyphen, the extracted version is exactly `parseInt` of the third field, with or without a fourth field |
| `UpdateCheck.BadThirdField` | app/src/main/java/org/lsposed/manager/ui/activity/MainActivity.java:120 | a third field that `parseInt` rejects (non-digit, no digits, out of range) yields no version, with or without a fourth field |
| `UpdateCheck.BadVersionWritesNothing` | app/src/main/java/org/lsposed/manager/ui/activity/MainActivity.java:119-127 | a successful response whose asset name has an unparseable third field, last or not, leaves every preference as it was |
| `UpdateCheck.ExampleTrailingLetter` | app/src/main/java/org/lsposed/manager/ui/activity/MainActivity.java:120 | "a-b-12x" yields no version |
| `UpdateCheck.ExampleAssetName` | app/src/main/java/org/lsposed/manager/ui/activity/MainActivity.java:119-120 | "xposed-v1-1234-release.zip" yields version 1234 |
| `UpdateCheck.AfterResponse` | app/src/main/java/org/lsposed/manager/ui/activity/MainActivity.java:113-130 | the store changes only for a successful response with a body and a parseable version, and then gains exactly the three freshness keys at most |
| `UpdateCheck.ResponseAllOrNothing` | app/src/main/java/org/lsposed/manager/ui/activity/MainActivity.java:114-129 | a response either changes nothing, exactly when it is unsuccessful, bodiless, nameless or unparseable, or writes exactly `latest_version`, `latest_check`, `checked` together; other keys never change |
| `UpdateCheck.ResponseFreshness` | app/src/main/java/org/lsposed/manager/ui/activity/MainActivity.java:120-126 | after a parsed response, the record is checked, holds the new version, and holds the check time when that time is positive |
| `UpdateCheck.AfterFailure` | app/src/main/java/org/lsposed/manager/ui/activity/MainActivity.java:133-137 | `onFailure` throws exactly when `checked` holds a non-boolean; otherwise `checked` ends true and only that key may be added |
| `UpdateCheck.FailureMarksChecked` | app/src/main/java/org/lsposed/manager/ui/activity/MainActivity.java:135-136 | a transport failure leaves `checked` true and every other key unchanged |
| `UpdateCheck.FailureIdempotent` | app/src/main/java/org/lsposed/manager/ui/activity/MainActivity.java:135-136 | handling a failure twice equals handling it once |
| `UpdateCheck.CheckedIsMonotonic` | app/src/main/java/org/lsposed/manager/ui/activity/MainActivity.java:122-136 | once `checked` is true, no response or failure turns it back, and a failure changes nothing |
| `UpdateCheck.CallbacksPreserveInvariant` | app/src/main/java/org/lsposed/manager/ui/activity/MainActivity.java:111-137 | both callbacks keep the freshness keys well typed and never leave a check time without a version and `checked` |
| `UpdateCheck.OnResponse` | app/src/main/java/org/lsposed/manager/ui/activity/MainActivity.java:113-130 | the callback leaves the shared preferences equal to `AfterResponse` of the old ones |
| `UpdateCheck.OnFailure` | app/src/main/java/org/lsposed/manager/ui/activity/MainActivity.java:133-137 | the callback leaves the preferences equal to `AfterFailure` of the old ones, or unchanged when it throws |
| `IntentRouting.HandleIntent` | app/src/main/java/org/lsposed/manager/ui/activity/MainActivity.java:196-234 | every destination reached has its service precondition met, and settings is reached exactly for the `APPLICATION_PREFERENCES` action |
| `IntentRouting.GetStringExtra` | app/src/main/java/org/lsposed/manager/ui/activity/MainActivity.java:217 | `getStringExtra` gives the extra exactly when it is present and a string, and null otherwise |
| `IntentRouting.GetIntExtra` | app/src/main/java/org/lsposed/manager/ui/activity/MainActivity.java:217 | `getIntExtra` gives the extra when it is present and an int, and the default otherwise |
| `IntentRouting.IsEmpty` | app/src/main/java/org/lsposed/manager/ui/activity/MainActivity.java:218 | `TextUtils.isEmpty` is true exactly for a null or empty data string |
| `IntentRouting.DataRoute` | app/src/main/java/org/lsposed/manager/ui/activity/MainActivity.java:218-232 | the data string routes only to modules, logs or repo, always with its gate met, and routes exactly for "modules"/"logs" with the binder alive or "repo" with the binder alive or Magisk installed |
| `IntentRouting.NullIntentIgnored` | app/src/main/java/org/lsposed/manager/ui/activity/MainActivity.java:197-199 | a null intent gives no navigation |
| `IntentRouting.SettingsActionFirst` | app/src/main/java/org/lsposed/manager/ui/activity/MainActivity.java:214-215 | the `APPLICATION_PREFERENCES` action routes to settings ahead of every other rule, with no gate |
| `IntentRouting.ModuleIntentOpensAppList` | app/src/main/java/org/lsposed/manager/ui/activity/MainActivity.java:216-217 | with the binder alive, a `modulePackageName` extra routes to the app list with that package and `moduleUserId`, which defaults to -1 |
| `IntentRouting.ModuleIntentFallsThrough` | app/src/main/java/org/lsposed/manager/ui/activity/MainActivity.java:216-232 | with the binder dead, the extras are ignored; only `"repo"` with Magisk installed can then route |
| `IntentRouting.DataStringGates` | app/src/main/java/org/lsposed/manager/ui/activity/MainActivity.java:218-232 | `"modules"` and `"logs"` route only with the binder alive, `"repo"` with the binder alive or Magisk installed, and any other or empty data string routes nowhere |
| `IntentRouting.RoutingMonotonic` | app/src/main/java/org/lsposed/manager/ui/activity/MainActivity.java:214-232 | making a service available never cancels a navigation |
| `BaseActivity.DohDefault` | app/src/main/java/org/lsposed/manager/ui/activity/base/BaseActivity.java:110-113 | the `doh` default never changes or removes an existing key, adds at most `doh`, and in China guarantees `doh` is present |
| `BaseActivity.DohDefaultInChina` | app/src/main/java/org/lsposed/manager/ui/activity/base/BaseActivity.java:110-113 | in China an absent `doh` becomes true and no other key changes |
| `BaseActivity.DohChoiceKept` | app/src/main/java/org/lsposed/manager/ui/activity/base/BaseActivity.java:111 | an existing `doh` value, true or false, is never overwritten |
| `BaseActivity.DohDefaultElsewhere` | app/src/main/java/org/lsposed/manager/ui/activity/base/BaseActivity.java:110 | outside China the store is unchanged |
| `BaseActivity.DohDefaultIdempotent` | app/src/main/java/org/lsposed/manager/ui/activity/base/BaseActivity.java:110-113 | applying the default twice equals applying it once |
| `BaseActivity.PreferencesHolder.GetPreferences` | app/src/main/java/org/lsposed/manager/ui/activity/base/BaseActivity.java:105-120 | the first call caches the default preferences and applies the `doh` default to them; later calls return the cached object and write nothing |
| `BaseActivity.VersionMismatch` | app/src/main/java/org/lsposed/manager/ui/activity/base/BaseActivity.java:127-133 | a mismatch dialog is only shown for a release build with a live binder and differing version names |
| `BaseActivity.MismatchShownIffNamesDiffer` | app/src/main/java/org/lsposed/manager/ui/activity/base/BaseActivity.java:127-130 | a mismatch dialog appears iff the build is not debug, the binder is alive and the version names differ |
| `BaseActivity.MismatchBlamesOlderSide` | app/src/main/java/org/lsposed/manager/ui/activity/base/BaseActivity.java:132-133 | the dialog says `outdated_core` iff the service's name sorts before the manager's, and `outdated_manager` iff the manager's sorts before the service's, both as `compareTo < 0` and as lexicographic order |

## Left out

- The OkHttp client and its 50 MiB cache, the DoH resolver, the `User-Agent` and logging interceptors, the release URL and `enqueue`: library wrappers and network I/O. The model starts from a delivered response or a transport failure.
- Gson parsing of the release JSON: `Response.assetName` is `assets[0].name`, or `None` when the body does not yield one.
- Reflection: `getResources`, `getComponentName`, `getApplicationInfo` and `ActivityThread.currentApplication` are foreign calls. The RuntimeException `getPreferences` throws when reflection fails is not modelled; the default preferences object is a parameter.
- Theming, window insets and navigation-bar colour: UI with floating-point density maths.
- The destination-changed visibility listener, `restart()`, the input-dispatch overrides, `onSupportNavigateUp`, `newIntent`, and the `onCreate`/`onNewIntent` lifecycle plumbing: UI plumbing. The nav-host-fragment null check in `handleIntent` is assumed to pass.
- Building the AlertDialog and `NavUtil.startURL`: only the chosen message is modelled.
- Thread safety of the static lazy fields, and the asynchronous write to disk behind `apply()`: the store is the in-memory map that `apply()` updates at once.
- The availability probes are read once per decision. The source calls `isBinderAlive` up to twice in `handleIntent` (MainActivity.java:216, then :221, :225 or :229); the model reads the probe once, so a binder that dies or revives between the two calls is not captured.
- `ConfigManager.getXposedVersionName` is not part of this model. Its result is taken to be a non-null string; the NullPointerException that a null would cause in `compareTo` is not modelled.
- Preference values of type float and string set never occur under the keys read here and are not represented.
- Log calls.
- JavaLang.ParseInt: accepts only ASCII digits. Java's `Character.digit` also accepts other Unicode decimal digits, such as fullwidth ones.
- JavaLang.CompareTo: compares Unicode scalar values, while Java compares UTF-16 code units. The two orders differ only between supplementary characters and characters from U+E000 to U+FFFF.
- UpdateCheck.NeedUpdate: does not model the DateTimeException `java.time` throws for instants past the year 999,999,999. Stored check times come from the clock, far from that limit.
