/**
 * The update-freshness oracle of MainActivity: the store updates made by the
 * two callbacks of `loadRemoteVersion`, and the `needUpdate` verdict read
 * back from the store.
 */
module UpdateCheck {
  import opened Wrappers
  import opened JavaLang
  import opened SharedPrefs
  import opened BuildConfig

  const CHECKED := "checked"
  const LATEST_CHECK := "latest_check"
  const LATEST_VERSION := "latest_version"

  /** `plusDays(30)` at UTC offset: thirty days of 86400 seconds. */
  const THIRTY_DAYS: int := 30 * 24 * 60 * 60

  type Nano = n: int | 0 <= n < 1_000_000_000

  /** A `java.time.Instant`: whole epoch seconds plus a nanosecond adjustment. */
  datatype Instant = Instant(epochSecond: Int64, nano: Nano)

  /**
   * `Instant.ofEpochSecond(start).atOffset(UTC).plusDays(30).toInstant().isBefore(now)`.
   * The deadline has no fractional part, so at exactly thirty days the
   * nanoseconds of `now` decide.
   */
  predicate ThirtyDaysElapsed(start: int, now: Instant)
    ensures ThirtyDaysElapsed(start, now)
      <==> (start + THIRTY_DAYS) * 1_000_000_000 < now.epochSecond * 1_000_000_000 + now.nano
  {
    var deadline := start + THIRTY_DAYS;
    deadline < now.epochSecond || (deadline == now.epochSecond && 0 < now.nano)
  }

  /** Measured in whole seconds, the comparison is strict: exactly thirty days is not yet elapsed. */
  lemma ThirtyDaysBoundary(start: int, now: Instant)
    ensures now.nano == 0 ==> (ThirtyDaysElapsed(start, now) <==> start + THIRTY_DAYS < now.epochSecond)
    ensures now.epochSecond == start + THIRTY_DAYS ==> (ThirtyDaysElapsed(start, now) <==> now.nano > 0)
    ensures now.epochSecond < start + THIRTY_DAYS ==> !ThirtyDaysElapsed(start, now)
  {
  }

  // ---------------------------------------------------------------------------
  // needUpdate()
  // ---------------------------------------------------------------------------

  /**
   * `needUpdate()`. A `Failure(key)` is the ClassCastException thrown when
   * `key` holds a value of another type than the one read.
   */
  function NeedUpdate(m: Store, build: Config, now: Instant): (r: Result<bool, string>)
    ensures r.Failure? ==> r.error in {CHECKED, LATEST_CHECK, LATEST_VERSION} && r.error in m
    ensures r == Success(true) ==> Checked(m)
  {
    var checked :- GetBoolean(m, CHECKED, false);
    if !checked then Success(false)
    else
      var check :- GetLong(m, LATEST_CHECK, 0);
      if check > 0 then
        if ThirtyDaysElapsed(check, now) then Success(true)
        else
          var code :- GetInt(m, LATEST_VERSION, 0);
          Success(code > build.versionCode)
      else Success(ThirtyDaysElapsed(build.buildTime, now))
  }

  /** The three freshness keys hold the types their readers expect. */
  predicate WellTyped(m: Store)
  {
    && (CHECKED in m ==> m[CHECKED].BoolV?)
    && (LATEST_CHECK in m ==> m[LATEST_CHECK].LongV?)
    && (LATEST_VERSION in m ==> m[LATEST_VERSION].IntV?)
  }

  /** `checked` is stored and true. */
  predicate Checked(m: Store)
  {
    CHECKED in m && m[CHECKED] == BoolV(true)
  }

  /** Before any check has completed, no update is ever reported. */
  lemma NeedUpdateFalseUntilChecked(m: Store, build: Config, now: Instant)
    requires !Checked(m) && (CHECKED in m ==> m[CHECKED].BoolV?)
    ensures NeedUpdate(m, build, now) == Success(false)
  {
  }

  /** A successful check older than thirty days forces the verdict, whatever the versions. */
  lemma NeedUpdateStaleCheck(m: Store, build: Config, now: Instant, check: Int64)
    requires Checked(m)
    requires LATEST_CHECK in m && m[LATEST_CHECK] == LongV(check) && check > 0
    requires ThirtyDaysElapsed(check, now)
    ensures NeedUpdate(m, build, now) == Success(true)
  {
  }

  /** Within thirty days of a successful check the verdict compares version codes, 0 when none is stored. */
  lemma NeedUpdateRecentCheck(m: Store, build: Config, now: Instant, check: Int64)
    requires Checked(m)
    requires LATEST_CHECK in m && m[LATEST_CHECK] == LongV(check) && check > 0
    requires !ThirtyDaysElapsed(check, now)
    requires LATEST_VERSION in m ==> m[LATEST_VERSION].IntV?
    ensures var latest := if LATEST_VERSION in m then m[LATEST_VERSION].i else 0;
      NeedUpdate(m, build, now) == Success(latest > build.versionCode)
  {
  }

  /** Without a positive check time the build's own age decides, strictly after thirty days. */
  lemma NeedUpdateNeverSucceeded(m: Store, build: Config, now: Instant)
    requires Checked(m)
    requires LATEST_CHECK in m ==> m[LATEST_CHECK].LongV? && m[LATEST_CHECK].l <= 0
    ensures NeedUpdate(m, build, now) == Success(ThirtyDaysElapsed(build.buildTime, now))
    ensures now.nano == 0 ==>
      NeedUpdate(m, build, now) == Success(build.buildTime + THIRTY_DAYS < now.epochSecond)
  {
  }

  /** On a well-typed store `needUpdate` never throws. */
  lemma NeedUpdateTotal(m: Store, build: Config, now: Instant)
    requires WellTyped(m)
    ensures NeedUpdate(m, build, now).Success?
  {
  }

  // ---------------------------------------------------------------------------
  // The freshness record the keys stand for, and the policy stated on it
  // ---------------------------------------------------------------------------

  /** What the store says about update checks: whether one finished, when one last succeeded, what it found. */
  datatype FreshnessRecord = FreshnessRecord(checked: bool, lastCheckedAt: Option<int>, latestVersionCode: int)

  /** The record a store stands for; a non-positive check time reads as no successful check. */
  function Freshness(m: Store): FreshnessRecord
  {
    FreshnessRecord(
      Checked(m),
      if LATEST_CHECK in m && m[LATEST_CHECK].LongV? && m[LATEST_CHECK].l > 0
      then Some(m[LATEST_CHECK].l) else None,
      if LATEST_VERSION in m && m[LATEST_VERSION].IntV? then m[LATEST_VERSION].i else 0)
  }

  /**
   * The update policy on the record: never before a check has finished;
   * after a successful check, when it is stale or found a newer release;
   * otherwise when the build itself is older than thirty days.
   */
  predicate NeedsUpdatePolicy(rec: FreshnessRecord, build: Config, now: Instant)
  {
    rec.checked &&
    match rec.lastCheckedAt
    case Some(t) => ThirtyDaysElapsed(t, now) || rec.latestVersionCode > build.versionCode
    case None => ThirtyDaysElapsed(build.buildTime, now)
  }

  /** `needUpdate` on a well-typed store decides the policy on the record the store stands for. */
  lemma NeedUpdateImplementsPolicy(m: Store, build: Config, now: Instant)
    requires WellTyped(m)
    ensures NeedUpdate(m, build, now) == Success(NeedsUpdatePolicy(Freshness(m), build, now))
  {
  }

  // ---------------------------------------------------------------------------
  // onResponse: version extraction and the atomic success update
  // ---------------------------------------------------------------------------

  /** A delivered HTTP response, reduced to what the callback looks at. */
  datatype Response = Response(
    isSuccessful: bool,
    hasBody: bool,
    /** `assets[0].name` of the JSON body; `None` when the body does not yield one. */
    assetName: Option<string>)

  /** `Integer.parseInt(name.split("-", 4)[2])`; `None` when the index is out of bounds or the parse fails. */
  function VersionFromAssetName(name: string): (v: Option<Int32>)
    ensures v.Some? ==> Count(name, '-') >= 2
  {
    SplitLength(name, '-', 4);
    var parts := Split(name, '-', 4);
    if |parts| < 3 then None else ParseInt(parts[2])
  }

  /** A name with fewer than two hyphens has no third field and yields no version. */
  lemma VersionNeedsTwoHyphens(name: string)
    requires Count(name, '-') < 2
    ensures VersionFromAssetName(name) == None
  {
    SplitLength(name, '-', 4);
  }

  /**
   * An asset name whose first three fields are `a`, `b` and `f`, followed by
   * a fourth field when `rest` is present and ending after `f` otherwise.
   */
  function AssetName(a: string, b: string, f: string, rest: Option<string>): string
  {
    match rest
    case None => Join([a, b, f], '-')
    case Some(r) => Join([a, b, f, r], '-')
  }

  /** With exactly two hyphens the third field is the last one, and the version is its parse. */
  lemma ThirdFieldIsLast(a: string, b: string, f: string)
    requires '-' !in a && '-' !in b && '-' !in f
    ensures VersionFromAssetName(Join([a, b, f], '-')) == ParseInt(f)
  {
    var fields := [a, b, f];
    assert [f][1..] == [] && InnerFieldsFree([f], '-');
    assert [b, f][1..] == [f] && InnerFieldsFree([b, f], '-');
    assert fields[1..] == [b, f] && InnerFieldsFree(fields, '-');
    JoinSplit(fields, '-', 4);
  }

  /** With a fourth field the version is the parse of the third, whatever the fourth holds. */
  lemma ThirdFieldBeforeRest(a: string, b: string, f: string, rest: string)
    requires '-' !in a && '-' !in b && '-' !in f
    ensures VersionFromAssetName(Join([a, b, f, rest], '-')) == ParseInt(f)
  {
    var fields := [a, b, f, rest];
    assert [rest][1..] == [] && InnerFieldsFree([rest], '-');
    assert [f, rest][1..] == [rest] && InnerFieldsFree([f, rest], '-');
    assert [b, f, rest][1..] == [f, rest] && InnerFieldsFree([b, f, rest], '-');
    assert fields[1..] == [b, f, rest] && InnerFieldsFree(fields, '-');
    JoinSplit(fields, '-', 4);
  }

  /**
   * When the first three fields are free of hyphens, the version is the
   * parse of the third field, whether it ends the name or more follows.
   */
  lemma ThirdFieldDecides(a: string, b: string, f: string, rest: Option<string>)
    requires '-' !in a && '-' !in b && '-' !in f
    ensures VersionFromAssetName(AssetName(a, b, f, rest)) == ParseInt(f)
  {
    match rest
    case None => ThirdFieldIsLast(a, b, f);
    case Some(r) => ThirdFieldBeforeRest(a, b, f, r);
  }

  /** Whatever the other fields hold, a non-negative version written as the third field is recovered. */
  lemma AssetNameRoundTrip(a: string, b: string, code: Int32, rest: Option<string>)
    requires '-' !in a && '-' !in b && code >= 0
    ensures VersionFromAssetName(AssetName(a, b, IntToString(code), rest)) == Some(code)
  {
    var digits := IntToString(code);
    assert AllDigits(digits);
    assert forall k :: 0 <= k < |digits| ==> digits[k] != '-';
    ThirdFieldDecides(a, b, digits, rest);
    ParseIntToString(code);
  }

  /** A third field that `parseInt` rejects (a non-digit, no digits, out of range) yields no version. */
  lemma BadThirdField(a: string, b: string, f: string, rest: Option<string>)
    requires '-' !in a && '-' !in b && '-' !in f && ParseInt(f) == None
    ensures VersionFromAssetName(AssetName(a, b, f, rest)) == None
  {
    ThirdFieldDecides(a, b, f, rest);
  }

  /** A release whose third name field does not parse leaves the store exactly as it was. */
  lemma BadVersionWritesNothing(m: Store, a: string, b: string, f: string, rest: Option<string>, now: Int64)
    requires '-' !in a && '-' !in b && '-' !in f && ParseInt(f) == None
    ensures AfterResponse(m, Response(true, true, Some(AssetName(a, b, f, rest))), now) == m
  {
    BadThirdField(a, b, f, rest);
  }

  /** "a-b-12x": a last field with a stray letter yields no version. */
  lemma ExampleTrailingLetter()
    ensures VersionFromAssetName("a-b-12x") == None
  {
    ParseIntRejectsNonDigit("12x", 2);
    assert Join(["a", "b", "12x"], '-') == "a-b-12x" by {
      JoinCons("b", ["12x"], '-');
      assert ["b"] + ["12x"] == ["b", "12x"];
      JoinCons("a", ["b", "12x"], '-');
      assert ["a"] + ["b", "12x"] == ["a", "b", "12x"];
    }
    ThirdFieldIsLast("a", "b", "12x");
  }

  lemma ExampleNameFields()
    ensures Join(["xposed", "v1", "1234", "release.zip"], '-') == "xposed-v1-1234-release.zip"
  {
    var f2: seq<string> := ["1234", "release.zip"];
    JoinCons("1234", ["release.zip"], '-');
    assert ["1234"] + ["release.zip"] == f2;
    JoinCons("v1", f2, '-');
    assert ["v1"] + f2 == ["v1", "1234", "release.zip"];
    JoinCons("xposed", ["v1"] + f2, '-');
    assert ["xposed"] + (["v1"] + f2) == ["xposed", "v1", "1234", "release.zip"];
  }

  /** The release asset name "xposed-v1-1234-release.zip" carries version 1234. */
  lemma ExampleAssetName()
    ensures VersionFromAssetName("xposed-v1-1234-release.zip") == Some(1234)
  {
    assert Digit(1) == '1' && Digit(2) == '2' && Digit(3) == '3' && Digit(4) == '4';
    assert NatToDigits(1) == "1";
    assert NatToDigits(12) == "12";
    assert NatToDigits(123) == "123";
    assert NatToDigits(1234) == "1234";
    assert IntToString(1234) == "1234";
    AssetNameRoundTrip("xposed", "v1", 1234, Some("release.zip"));
    ExampleNameFields();
  }

  /** The three keys a successful check writes together. */
  function SuccessEdits(code: Int32, now: Int64): Store
  {
    map[LATEST_VERSION := IntV(code), LATEST_CHECK := LongV(now), CHECKED := BoolV(true)]
  }

  /**
   * The store after `onResponse` at epoch second `now`. A non-2xx response, a
   * missing body, a body without an asset name, or a name without a
   * parseable version is logged and writes nothing.
   */
  function AfterResponse(m: Store, resp: Response, now: Int64): (r: Store)
    ensures r != m ==>
      (resp.isSuccessful && resp.hasBody && resp.assetName.Some?
       && VersionFromAssetName(resp.assetName.value).Some?)
    ensures r.Keys == m.Keys || r.Keys == m.Keys + {LATEST_VERSION, LATEST_CHECK, CHECKED}
  {
    if !resp.isSuccessful || !resp.hasBody then m
    else match resp.assetName
      case None => m
      case Some(name) =>
        match VersionFromAssetName(name)
        case None => m
        case Some(code) => m + SuccessEdits(code, now)
  }

  /** A response either leaves the store as it was or writes exactly the three keys, with the parsed version. */
  lemma ResponseAllOrNothing(m: Store, resp: Response, now: Int64)
    ensures var r := AfterResponse(m, resp, now);
      || (r == m && (!resp.isSuccessful || !resp.hasBody || resp.assetName.None?
                     || VersionFromAssetName(resp.assetName.value).None?))
      || (&& resp.isSuccessful && resp.hasBody && resp.assetName.Some?
          && VersionFromAssetName(resp.assetName.value).Some?
          && r.Keys == m.Keys + {LATEST_VERSION, LATEST_CHECK, CHECKED}
          && r[LATEST_VERSION] == IntV(VersionFromAssetName(resp.assetName.value).value)
          && r[LATEST_CHECK] == LongV(now)
          && r[CHECKED] == BoolV(true))
    ensures var r := AfterResponse(m, resp, now);
      forall k :: k in m && k !in {LATEST_VERSION, LATEST_CHECK, CHECKED} ==> r[k] == m[k]
  {
  }

  /** After a successful parse the record holds the new version, and the check time when it is positive. */
  lemma ResponseFreshness(m: Store, resp: Response, now: Int64, code: Int32)
    requires resp.isSuccessful && resp.hasBody && resp.assetName.Some?
    requires VersionFromAssetName(resp.assetName.value) == Some(code)
    ensures Freshness(AfterResponse(m, resp, now))
      == FreshnessRecord(true, if now > 0 then Some(now) else None, code)
  {
  }

  // ---------------------------------------------------------------------------
  // onFailure: the transport-failure update
  // ---------------------------------------------------------------------------

  /**
   * The store after `onFailure`: `checked` is set when it was not already
   * true. `Failure` is the ClassCastException of the read, which escapes
   * the callback before anything is written.
   */
  function AfterFailure(m: Store): (r: Result<Store, string>)
    ensures r.Failure? <==> CHECKED in m && !m[CHECKED].BoolV?
    ensures r.Success? ==> Checked(r.value) && r.value.Keys == m.Keys + {CHECKED}
  {
    var checked :- GetBoolean(m, CHECKED, false);
    if checked then Success(m) else Success(m[CHECKED := BoolV(true)])
  }

  /** A transport failure leaves `checked` true and every other key as it was. */
  lemma FailureMarksChecked(m: Store)
    requires CHECKED in m ==> m[CHECKED].BoolV?
    ensures AfterFailure(m).Success?
    ensures var r := AfterFailure(m).value;
      Checked(r) && r.Keys == m.Keys + {CHECKED}
      && forall k :: k in m && k != CHECKED ==> r[k] == m[k]
  {
  }

  /** Handling a second failure changes nothing more than the first did. */
  lemma FailureIdempotent(m: Store)
    requires AfterFailure(m).Success?
    ensures AfterFailure(AfterFailure(m).value) == AfterFailure(m)
  {
  }

  /** No callback ever turns `checked` back to false. */
  lemma CheckedIsMonotonic(m: Store, resp: Response, now: Int64)
    requires Checked(m)
    ensures Checked(AfterResponse(m, resp, now))
    ensures AfterFailure(m) == Success(m)
  {
  }

  /** Both callbacks keep the keys well typed, and a check time is never stored without a version. */
  lemma CallbacksPreserveInvariant(m: Store, resp: Response, now: Int64)
    requires WellTyped(m) && (LATEST_CHECK in m ==> LATEST_VERSION in m && Checked(m))
    ensures var r := AfterResponse(m, resp, now);
      WellTyped(r) && (LATEST_CHECK in r ==> LATEST_VERSION in r && Checked(r))
    ensures AfterFailure(m).Success?
    ensures var r := AfterFailure(m).value;
      WellTyped(r) && (LATEST_CHECK in r ==> LATEST_VERSION in r && Checked(r))
  {
  }

  // ---------------------------------------------------------------------------
  // The callbacks, acting on the shared preferences
  // ---------------------------------------------------------------------------

  /** `onResponse`, with `now` the epoch second read after the version was parsed. */
  method OnResponse(prefs: Preferences, resp: Response, now: Int64)
    modifies prefs
    ensures prefs.entries == AfterResponse(old(prefs.entries), resp, now)
  {
    if !resp.isSuccessful {
      return;
    }
    if !resp.hasBody {
      return;
    }
    if resp.assetName.None? {
      return;
    }
    var code := VersionFromAssetName(resp.assetName.value);
    if code.None? {
      return;
    }
    prefs.Commit(SuccessEdits(code.value, now));
  }

  /** `onFailure`; `thrown` reports the ClassCastException that escapes when `checked` is not a boolean. */
  method OnFailure(prefs: Preferences) returns (thrown: bool)
    modifies prefs
    ensures thrown <==> AfterFailure(old(prefs.entries)).Failure?
    ensures !thrown ==> prefs.entries == AfterFailure(old(prefs.entries)).value
    ensures thrown ==> prefs.entries == old(prefs.entries)
  {
    var checked := GetBoolean(prefs.entries, CHECKED, false);
    if checked.Failure? {
      return true;
    }
    thrown := false;
    if checked.value {
      return;
    }
    prefs.Commit(map[CHECKED := BoolV(true)]);
  }
}
