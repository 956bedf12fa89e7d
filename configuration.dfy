/**
 * `Configuration`: each setting is read from the environment, then from
 * `application.properties`, then falls back to its default. The environment and the
 * loaded properties are passed in as maps; a key that is absent stands for `null`.
 */
module Configuration {
  import opened Wrappers
  import opened Strings

  type Env = map<string, string>

  /** `Integer.MIN_VALUE` and `Integer.MAX_VALUE`. */
  const IntMin: int := -0x8000_0000
  const IntMax: int := 0x7FFF_FFFF

  predicate IsInt32(i: int) {
    IntMin <= i <= IntMax
  }

  /** A value that is present and not empty. */
  predicate IsSet(m: Env, key: string) {
    key in m && m[key] != ""
  }

  /** `Configuration.getProperty`. */
  function GetProperty(env: Env, props: Env, propertyKey: string, envKey: string, default: string): string {
    if IsSet(env, envKey) then env[envKey]
    else if IsSet(props, propertyKey) then props[propertyKey]
    else default
  }

  /**
   * `Integer.parseInt`: an optional sign, then at least one decimal digit, within the
   * range of `int`; anything else is a `NumberFormatException`, here `None`.
   */
  function ParseInt(s: string): (r: Option<int>)
    ensures r.Some? ==> IsInt32(r.value)
  {
    if s == [] then None
    else
      var digits := if s[0] == '-' || s[0] == '+' then s[1..] else s;
      if digits == [] || !AllDigits(digits) then None
      else
        var v: int := if s[0] == '-' then -(DigitsValue(digits) as int) else DigitsValue(digits);
        if IsInt32(v) then Some(v) else None
  }

  /** `Configuration.getIntProperty`: a value that does not parse gives the default. */
  function GetIntProperty(env: Env, props: Env, propertyKey: string, envKey: string, default: int): int {
    match ParseInt(GetProperty(env, props, propertyKey, envKey, IntToString(default)))
    case Some(v) => v
    case None => default
  }

  /** The boolean vocabulary, read after lower-casing and then trimming. */
  function ParseBoolean(s: string): Option<bool> {
    var v := Trim(ToLower(s));
    if v == "true" || v == "1" || v == "yes" then Some(true)
    else if v == "false" || v == "0" || v == "no" then Some(false)
    else None
  }

  /** `String.valueOf(boolean)`. */
  function BoolToString(b: bool): string {
    if b then "true" else "false"
  }

  /** `Configuration.getBooleanProperty`: a value outside the vocabulary gives the default. */
  function GetBooleanProperty(env: Env, props: Env, propertyKey: string, envKey: string, default: bool): bool {
    ParseBoolean(GetProperty(env, props, propertyKey, envKey, BoolToString(default))).GetOr(default)
  }

  /** The constants `Configuration` computes when the class is loaded. */
  datatype Settings = Settings(
    dbUrl: string,
    numThreads: int,
    delayBetweenRequestsMs: int,
    httpTimeoutSeconds: int,
    failedRetryIntervalSeconds: int,
    successRefreshIntervalSeconds: int,
    restrictToHost: bool)

  function Load(env: Env, props: Env): Settings {
    Settings(
      GetProperty(env, props, "db.url", "DB_URL", "jdbc:sqlite:crawler.db"),
      GetIntProperty(env, props, "num.threads", "NUM_THREADS", 4),
      GetIntProperty(env, props, "delay.between.requests.ms", "DELAY_BETWEEN_REQUESTS_MS", 1000),
      GetIntProperty(env, props, "http.timeout.seconds", "HTTP_TIMEOUT_SECONDS", 10),
      GetIntProperty(env, props, "failed.retry.interval.seconds", "FAILED_RETRY_INTERVAL_SECONDS", 300),
      GetIntProperty(env, props, "success.refresh.interval.seconds", "SUCCESS_REFRESH_INTERVAL_SECONDS", 86400),
      GetBooleanProperty(env, props, "restrict.to.host", "RESTRICT_TO_HOST", true))
  }

  // ---------------------------------------------------------------------------------
  // Properties

  /** A non-empty environment variable wins over the properties file and the default. */
  lemma EnvironmentWins(env: Env, props: Env, propertyKey: string, envKey: string, default: string)
    requires IsSet(env, envKey)
    ensures GetProperty(env, props, propertyKey, envKey, default) == env[envKey]
  {
  }

  /** Without a usable environment variable a non-empty property wins, and otherwise the default is used. */
  lemma PropertyThenDefault(env: Env, props: Env, propertyKey: string, envKey: string, default: string)
    requires !IsSet(env, envKey)
    ensures IsSet(props, propertyKey) ==> GetProperty(env, props, propertyKey, envKey, default) == props[propertyKey]
    ensures !IsSet(props, propertyKey) ==> GetProperty(env, props, propertyKey, envKey, default) == default
  {
  }

  /** Empty strings count as absent: a setting given only as empty strings has its default. */
  lemma EmptyIsAbsent(env: Env, props: Env, propertyKey: string, envKey: string, default: string)
    requires envKey in env ==> env[envKey] == ""
    requires propertyKey in props ==> props[propertyKey] == ""
    ensures GetProperty(env, props, propertyKey, envKey, default) == default
  {
  }

  lemma DigitsAreUnsigned(n: nat)
    ensures NatToString(n)[0] != '-' && NatToString(n)[0] != '+'
  {
  }

  /** `Integer.parseInt` reads back what `Integer.toString` writes, for every `int`. */
  lemma ParseIntRoundTrip(i: int)
    requires IsInt32(i)
    ensures ParseInt(IntToString(i)) == Some(i)
  {
    if i < 0 {
      var d := NatToString(-i);
      var s := "-" + d;
      assert s[0] == '-' && s[1..] == d;
      NatToStringRoundTrip(-i);
    } else {
      DigitsAreUnsigned(i);
      NatToStringRoundTrip(i);
    }
  }

  /** A text that is not a Java `int` literal, such as one that overflows, leaves the default. */
  lemma IntPropertyFallsBack(env: Env, props: Env, propertyKey: string, envKey: string, default: int)
    requires ParseInt(GetProperty(env, props, propertyKey, envKey, IntToString(default))).None?
    ensures GetIntProperty(env, props, propertyKey, envKey, default) == default
  {
  }

  /** An integer setting is always an `int`, and with nothing configured it is its default. */
  lemma IntPropertyRange(env: Env, props: Env, propertyKey: string, envKey: string, default: int)
    requires IsInt32(default)
    ensures IsInt32(GetIntProperty(env, props, propertyKey, envKey, default))
    ensures !IsSet(env, envKey) && !IsSet(props, propertyKey) ==>
              GetIntProperty(env, props, propertyKey, envKey, default) == default
  {
    ParseIntRoundTrip(default);
  }

  /** A configured `int` rendered in decimal is read as that number. */
  lemma IntPropertyReads(env: Env, props: Env, propertyKey: string, envKey: string, default: int, v: int)
    requires IsInt32(v)
    requires GetProperty(env, props, propertyKey, envKey, IntToString(default)) == IntToString(v)
    ensures GetIntProperty(env, props, propertyKey, envKey, default) == v
  {
    ParseIntRoundTrip(v);
  }

  lemma {:induction false} ToLowerKeepsTrimmable(w: string)
    requires AllTrimmable(w)
    ensures ToLower(w) == w && AllTrimmable(ToLower(w))
  {
  }

  /** Case and surrounding whitespace do not matter to the boolean vocabulary. */
  lemma ParseBooleanIgnoresCaseAndPadding(w1: string, s: string, w2: string)
    requires AllTrimmable(w1) && AllTrimmable(w2)
    ensures ParseBoolean(w1 + s + w2) == ParseBoolean(ToLower(s))
  {
    ToLowerAppend(w1 + s, w2);
    ToLowerAppend(w1, s);
    ToLowerKeepsTrimmable(w1);
    ToLowerKeepsTrimmable(w2);
    TrimPadding(w1, ToLower(s), w2);
    ToLowerIdempotent(s);
  }

  /** Every word of the vocabulary has its meaning, and everything else is no boolean. */
  lemma ParseBooleanVocabulary(s: string)
    ensures ParseBoolean(s) == Some(true) <==> Trim(ToLower(s)) in {"true", "1", "yes"}
    ensures ParseBoolean(s) == Some(false) <==> Trim(ToLower(s)) in {"false", "0", "no"}
  {
  }

  /** The default of a boolean setting, rendered and read back, is itself. */
  lemma BooleanDefaultRoundTrip(b: bool)
    ensures ParseBoolean(BoolToString(b)) == Some(b)
  {
    var s := BoolToString(b);
    assert ToLower(s) == s;
    assert s[0] != ' ' && s[|s| - 1] != ' ';
    TrimNoop(s);
  }

  /** With nothing configured, every setting has its documented default. */
  lemma DefaultSettings()
    ensures Load(map[], map[]) == Settings("jdbc:sqlite:crawler.db", 4, 1000, 10, 300, 86400, true)
  {
    IntPropertyRange(map[], map[], "num.threads", "NUM_THREADS", 4);
    IntPropertyRange(map[], map[], "delay.between.requests.ms", "DELAY_BETWEEN_REQUESTS_MS", 1000);
    IntPropertyRange(map[], map[], "http.timeout.seconds", "HTTP_TIMEOUT_SECONDS", 10);
    IntPropertyRange(map[], map[], "failed.retry.interval.seconds", "FAILED_RETRY_INTERVAL_SECONDS", 300);
    IntPropertyRange(map[], map[], "success.refresh.interval.seconds", "SUCCESS_REFRESH_INTERVAL_SECONDS", 86400);
    BooleanDefaultRoundTrip(true);
  }
}
