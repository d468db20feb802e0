/**
 * The environment schema: a map of environment strings is either turned
 * into a typed configuration or rejected with one issue per offending key,
 * in schema order. Loading `.env` files, printing and exiting are left out.
 */
module EnvConfig {
  import opened Results
  import opened Text

  type Env = map<string, string>

  datatype NodeEnv = Development | Production | Testing
  datatype AppStage = StageDev | StageProd | StageTest
  datatype SameSite = SameSiteStrict | SameSiteLax | SameSiteNone

  datatype Config = Config(
    nodeEnv: NodeEnv,
    appStage: AppStage,
    port: int,
    databaseUrl: string,
    postgresPassword: string,
    jwtAccessSecret: string,
    jwtRefreshSecret: string,
    jwtAccessExpiresIn: string,
    jwtRefreshExpiresIn: string,
    bcryptRounds: int,
    cookieDomain: Option<string>,
    cookieHttpOnly: bool,
    cookieSameSite: SameSite)

  /** One schema complaint: the key it is about and the message. */
  datatype Issue = Issue(path: string, message: string)

  const MissingString := "Invalid input: expected string, received undefined"
  const NotANumber := "Invalid input: expected number, received NaN"
  const DatabaseUrlPrefix := "postgresql://"
  const SecretMinLength := 32
  const MinBcryptRounds := 10
  const MaxBcryptRounds := 20
  const DefaultBcryptRounds := 12
  const DefaultPort := 3000
  const DefaultAccessExpiresIn := "15m"
  const DefaultRefreshExpiresIn := "7d"

  // ------------------------------------------------------------ enum keys

  function ParseNodeEnv(s: string): Option<NodeEnv> {
    if s == "development" then Some(Development)
    else if s == "production" then Some(Production)
    else if s == "test" then Some(Testing)
    else None
  }

  function ParseAppStage(s: string): Option<AppStage> {
    if s == "dev" then Some(StageDev)
    else if s == "prod" then Some(StageProd)
    else if s == "test" then Some(StageTest)
    else None
  }

  function ParseSameSite(s: string): Option<SameSite> {
    if s == "strict" then Some(SameSiteStrict)
    else if s == "lax" then Some(SameSiteLax)
    else if s == "none" then Some(SameSiteNone)
    else None
  }

  /** An enum key with a default: absent means the default, present must be one of the options. */
  function EnumField<T>(env: Env, key: string, parse: string -> Option<T>, default: T, options: string): (r: Result<T, Issue>)
    ensures r.Ok? <==> key !in env || parse(env[key]).Some?
    ensures key !in env ==> r == Ok(default)
    ensures key in env && parse(env[key]).Some? ==> r == Ok(parse(env[key]).value)
    ensures r.Err? ==> r.error.path == key
  {
    if key !in env then Ok(default)
    else match parse(env[key])
      case Some(v) => Ok(v)
      case None => Err(Issue(key, "Invalid option: expected one of " + options))
  }

  // ---------------------------------------------------------- number keys

  function DigitValue(c: char): nat
    requires IsDigit(c)
  {
    c as int - '0' as int
  }

  /** The value of a string of decimal digits. */
  function DigitsValue(s: string): nat
    requires AllDigits(s)
  {
    if |s| == 0 then 0 else 10 * DigitsValue(s[..|s| - 1]) + DigitValue(s[|s| - 1])
  }

  /**
   * `Number(s)` for the integer spellings: surrounding white space ignored,
   * the empty string reads as 0, an optional sign, then decimal digits.
   * Everything else reads as not-a-number.
   */
  function JsNumber(s: string): Option<int> {
    var t := Trim(s);
    if |t| == 0 then Some(0)
    else if (t[0] == '-' || t[0] == '+') && |t| > 1 && AllDigits(t[1..]) then
      Some(if t[0] == '-' then -(DigitsValue(t[1..]) as int) else DigitsValue(t[1..]))
    else if AllDigits(t) then Some(DigitsValue(t))
    else None
  }

  function PortField(env: Env): (r: Result<int, Issue>)
    ensures r.Ok? <==> "PORT" !in env || JsNumber(env["PORT"]).Some?
    ensures "PORT" !in env ==> r == Ok(DefaultPort)
    ensures "PORT" in env && JsNumber(env["PORT"]).Some? ==> r == Ok(JsNumber(env["PORT"]).value)
  {
    if "PORT" !in env then Ok(DefaultPort)
    else match JsNumber(env["PORT"])
      case Some(n) => Ok(n)
      case None => Err(Issue("PORT", NotANumber))
  }

  function BcryptRoundsField(env: Env): (r: Result<int, Issue>)
    ensures r.Ok? <==> "BCRYPT_ROUNDS" !in env
                       || (JsNumber(env["BCRYPT_ROUNDS"]).Some?
                           && MinBcryptRounds <= JsNumber(env["BCRYPT_ROUNDS"]).value <= MaxBcryptRounds)
    ensures r.Ok? ==> MinBcryptRounds <= r.value <= MaxBcryptRounds
    ensures "BCRYPT_ROUNDS" !in env ==> r == Ok(DefaultBcryptRounds)
    ensures "BCRYPT_ROUNDS" in env && r.Ok? ==> r.value == JsNumber(env["BCRYPT_ROUNDS"]).value
  {
    if "BCRYPT_ROUNDS" !in env then Ok(DefaultBcryptRounds)
    else match JsNumber(env["BCRYPT_ROUNDS"])
      case None => Err(Issue("BCRYPT_ROUNDS", NotANumber))
      case Some(n) =>
        if n < MinBcryptRounds then Err(Issue("BCRYPT_ROUNDS", "Too small: expected number to be >=10"))
        else if n > MaxBcryptRounds then Err(Issue("BCRYPT_ROUNDS", "Too big: expected number to be <=20"))
        else Ok(n)
  }

  // ---------------------------------------------------------- string keys

  /** A required string key that must have at least `min` characters. */
  function MinLengthField(env: Env, key: string, min: nat, message: string): (r: Result<string, Issue>)
    ensures r.Ok? <==> key in env && |env[key]| >= min
    ensures r.Ok? ==> r.value == env[key]
  {
    if key !in env then Err(Issue(key, MissingString))
    else if |env[key]| < min then Err(Issue(key, message))
    else Ok(env[key])
  }

  function DatabaseUrlField(env: Env): (r: Result<string, Issue>)
    ensures r.Ok? <==> "DATABASE_URL" in env && StartsWith(env["DATABASE_URL"], DatabaseUrlPrefix)
    ensures r.Ok? ==> r.value == env["DATABASE_URL"]
  {
    if "DATABASE_URL" !in env then Err(Issue("DATABASE_URL", MissingString))
    else if !StartsWith(env["DATABASE_URL"], DatabaseUrlPrefix) then
      Err(Issue("DATABASE_URL", "Invalid string: must start with \"postgresql://\""))
    else Ok(env["DATABASE_URL"])
  }

  /** The shape `^\d+[units]$`: one or more ASCII digits and then a single unit letter. */
  predicate DurationMatches(s: string, units: set<char>) {
    |s| >= 2 && AllDigits(s[..|s| - 1]) && s[|s| - 1] in units
  }

  function DurationField(env: Env, key: string, units: set<char>, default: string, message: string): (r: Result<string, Issue>)
    ensures r.Ok? <==> key !in env || DurationMatches(env[key], units)
    ensures r.Ok? ==> r.value == if key in env then env[key] else default
  {
    if key !in env then Ok(default)
    else if DurationMatches(env[key], units) then Ok(env[key])
    else Err(Issue(key, message))
  }

  /** An empty domain is the same as none. */
  function CookieDomainField(env: Env): (r: Option<string>)
    ensures r.None? <==> "COOKIE_DOMAIN" !in env || env["COOKIE_DOMAIN"] == ""
    ensures r.Some? ==> r.value == env["COOKIE_DOMAIN"]
  {
    if "COOKIE_DOMAIN" in env && |env["COOKIE_DOMAIN"]| > 0 then Some(env["COOKIE_DOMAIN"]) else None
  }

  /** Only the exact string "true" is true; absent means "true". */
  function CookieHttpOnlyField(env: Env): bool {
    var v := if "COOKIE_HTTP_ONLY" in env then env["COOKIE_HTTP_ONLY"] else "true";
    v == "true"
  }

  function IssueOf<T>(r: Result<T, Issue>): (issues: seq<Issue>)
    ensures |issues| == if r.Ok? then 0 else 1
  {
    if r.Ok? then [] else [r.error]
  }

  // -------------------------------------------------------------- schema

  /** Every key's rule, stated directly over the raw strings. */
  predicate EnvAcceptable(env: Env) {
    && ("NODE_ENV" !in env || env["NODE_ENV"] in {"development", "production", "test"})
    && ("APP_STAGE" !in env || env["APP_STAGE"] in {"dev", "prod", "test"})
    && ("PORT" !in env || JsNumber(env["PORT"]).Some?)
    && "DATABASE_URL" in env && StartsWith(env["DATABASE_URL"], DatabaseUrlPrefix)
    && "POSTGRES_PASSWORD" in env && |env["POSTGRES_PASSWORD"]| >= 1
    && "JWT_ACCESS_SECRET" in env && |env["JWT_ACCESS_SECRET"]| >= SecretMinLength
    && "JWT_REFRESH_SECRET" in env && |env["JWT_REFRESH_SECRET"]| >= SecretMinLength
    && ("JWT_ACCESS_EXPIRES_IN" !in env || DurationMatches(env["JWT_ACCESS_EXPIRES_IN"], {'m', 'h'}))
    && ("JWT_REFRESH_EXPIRES_IN" !in env || DurationMatches(env["JWT_REFRESH_EXPIRES_IN"], {'h', 'd'}))
    && ("BCRYPT_ROUNDS" !in env
        || (JsNumber(env["BCRYPT_ROUNDS"]).Some?
            && MinBcryptRounds <= JsNumber(env["BCRYPT_ROUNDS"]).value <= MaxBcryptRounds))
    && ("COOKIE_SAME_SITE" !in env || env["COOKIE_SAME_SITE"] in {"strict", "lax", "none"})
  }

  /** `envSchema.parse`: a typed configuration, or every issue in schema order. */
  function ValidateEnv(env: Env): (r: Result<Config, seq<Issue>>)
    ensures r.Ok? <==> EnvAcceptable(env)
    ensures r.Err? ==> |r.error| >= 1
  {
    var nodeEnv := EnumField(env, "NODE_ENV", ParseNodeEnv, Development, "\"development\"|\"production\"|\"test\"");
    var appStage := EnumField(env, "APP_STAGE", ParseAppStage, StageDev, "\"dev\"|\"prod\"|\"test\"");
    var port := PortField(env);
    var databaseUrl := DatabaseUrlField(env);
    var postgresPassword := MinLengthField(env, "POSTGRES_PASSWORD", 1, "POSTGRES_PASSWORD is required");
    var accessSecret := MinLengthField(env, "JWT_ACCESS_SECRET", SecretMinLength, "Must be 32 characters long");
    var refreshSecret := MinLengthField(env, "JWT_REFRESH_SECRET", SecretMinLength, "Must be 32 characters long");
    var accessExpires := DurationField(env, "JWT_ACCESS_EXPIRES_IN", {'m', 'h'}, DefaultAccessExpiresIn,
                                       "Must be a valid time format like '15m', '1h'");
    var refreshExpires := DurationField(env, "JWT_REFRESH_EXPIRES_IN", {'h', 'd'}, DefaultRefreshExpiresIn,
                                        "Must be a valid time format like '1h', '7d'");
    var rounds := BcryptRoundsField(env);
    var sameSite := EnumField(env, "COOKIE_SAME_SITE", ParseSameSite, SameSiteLax, "\"strict\"|\"lax\"|\"none\"");
    if && nodeEnv.Ok? && appStage.Ok? && port.Ok? && databaseUrl.Ok? && postgresPassword.Ok?
       && accessSecret.Ok? && refreshSecret.Ok? && accessExpires.Ok? && refreshExpires.Ok?
       && rounds.Ok? && sameSite.Ok?
    then
      Ok(Config(nodeEnv.value, appStage.value, port.value, databaseUrl.value, postgresPassword.value,
                accessSecret.value, refreshSecret.value, accessExpires.value, refreshExpires.value,
                rounds.value, CookieDomainField(env), CookieHttpOnlyField(env), sameSite.value))
    else
      Err(IssueOf(nodeEnv) + IssueOf(appStage) + IssueOf(port) + IssueOf(databaseUrl) + IssueOf(postgresPassword)
          + IssueOf(accessSecret) + IssueOf(refreshSecret) + IssueOf(accessExpires) + IssueOf(refreshExpires)
          + IssueOf(rounds) + IssueOf(sameSite))
  }

  /** An accepted configuration meets every bound and shape, and an absent key takes its default. */
  lemma AcceptedConfigHonoursRules(env: Env)
    requires ValidateEnv(env).Ok?
    ensures var c := ValidateEnv(env).value;
      && MinBcryptRounds <= c.bcryptRounds <= MaxBcryptRounds
      && |c.jwtAccessSecret| >= SecretMinLength && |c.jwtRefreshSecret| >= SecretMinLength
      && DurationMatches(c.jwtAccessExpiresIn, {'m', 'h'})
      && DurationMatches(c.jwtRefreshExpiresIn, {'h', 'd'})
      && StartsWith(c.databaseUrl, DatabaseUrlPrefix) && |c.postgresPassword| >= 1
    ensures var c := ValidateEnv(env).value;
      && ("BCRYPT_ROUNDS" !in env ==> c.bcryptRounds == DefaultBcryptRounds)
      && ("JWT_ACCESS_EXPIRES_IN" !in env ==> c.jwtAccessExpiresIn == DefaultAccessExpiresIn)
      && ("JWT_REFRESH_EXPIRES_IN" !in env ==> c.jwtRefreshExpiresIn == DefaultRefreshExpiresIn)
      && ("APP_STAGE" !in env ==> c.appStage == StageDev)
      && ("COOKIE_SAME_SITE" !in env ==> c.cookieSameSite == SameSiteLax)
    ensures var c := ValidateEnv(env).value;
      && (c.cookieHttpOnly <==> ("COOKIE_HTTP_ONLY" !in env || env["COOKIE_HTTP_ONLY"] == "true"))
      && (c.cookieDomain.None? <==> ("COOKIE_DOMAIN" !in env || env["COOKIE_DOMAIN"] == ""))
  {
  }

  /** An accepted configuration holds exactly what the environment says, and the default for every absent key. */
  lemma AcceptedConfigKeepsValues(env: Env)
    requires ValidateEnv(env).Ok?
    ensures var c := ValidateEnv(env).value;
      && c.databaseUrl == env["DATABASE_URL"] && c.postgresPassword == env["POSTGRES_PASSWORD"]
      && c.jwtAccessSecret == env["JWT_ACCESS_SECRET"] && c.jwtRefreshSecret == env["JWT_REFRESH_SECRET"]
    ensures var c := ValidateEnv(env).value;
      && c.port == (if "PORT" in env then JsNumber(env["PORT"]).value else DefaultPort)
      && c.bcryptRounds == (if "BCRYPT_ROUNDS" in env then JsNumber(env["BCRYPT_ROUNDS"]).value else DefaultBcryptRounds)
    ensures var c := ValidateEnv(env).value;
      && c.jwtAccessExpiresIn == (if "JWT_ACCESS_EXPIRES_IN" in env then env["JWT_ACCESS_EXPIRES_IN"] else DefaultAccessExpiresIn)
      && c.jwtRefreshExpiresIn == (if "JWT_REFRESH_EXPIRES_IN" in env then env["JWT_REFRESH_EXPIRES_IN"] else DefaultRefreshExpiresIn)
    ensures var c := ValidateEnv(env).value;
      && c.nodeEnv == (if "NODE_ENV" in env then ParseNodeEnv(env["NODE_ENV"]).value else Development)
      && c.appStage == (if "APP_STAGE" in env then ParseAppStage(env["APP_STAGE"]).value else StageDev)
      && c.cookieSameSite == (if "COOKIE_SAME_SITE" in env then ParseSameSite(env["COOKIE_SAME_SITE"]).value else SameSiteLax)
    ensures var c := ValidateEnv(env).value;
      "COOKIE_DOMAIN" in env && env["COOKIE_DOMAIN"] != "" ==> c.cookieDomain == Some(env["COOKIE_DOMAIN"])
  {
  }

  /** Before parsing, an absent or empty APP_STAGE is set to "dev". */
  function WithStageDefault(env: Env): (r: Env)
    ensures "APP_STAGE" in r && r["APP_STAGE"] != ""
    ensures r.Keys == env.Keys + {"APP_STAGE"}
    ensures r["APP_STAGE"] == (if "APP_STAGE" in env && env["APP_STAGE"] != "" then env["APP_STAGE"] else "dev")
    ensures forall k :: k in env && k != "APP_STAGE" ==> r[k] == env[k]
  {
    if "APP_STAGE" !in env || env["APP_STAGE"] == "" then env["APP_STAGE" := "dev"] else env
  }

  /** Loading the environment: stage defaulting, then the schema. */
  function LoadEnv(env: Env): (r: Result<Config, seq<Issue>>)
    ensures r.Ok? <==> EnvAcceptable(WithStageDefault(env))
    ensures "APP_STAGE" in env && env["APP_STAGE"] != "" ==> r == ValidateEnv(env)
    ensures r.Ok? && ("APP_STAGE" !in env || env["APP_STAGE"] == "") ==> r.value.appStage == StageDev
  {
    ValidateEnv(WithStageDefault(env))
  }

  /**
   * The access lifetime takes minutes or hours but never days; the refresh
   * lifetime takes hours or days but never minutes; an hour count suits both.
   */
  lemma DurationUnits(s: string)
    ensures DurationMatches(s, {'m', 'h'}) ==> s[|s| - 1] != 'd'
    ensures DurationMatches(s, {'h', 'd'}) ==> s[|s| - 1] != 'm'
    ensures DurationMatches(s, {'m', 'h'}) && DurationMatches(s, {'h', 'd'}) <==> DurationMatches(s, {'h'})
    ensures DurationMatches("15m", {'m', 'h'}) && DurationMatches("1h", {'m', 'h'})
    ensures !DurationMatches("7d", {'m', 'h'}) && !DurationMatches("m", {'m', 'h'})
    ensures DurationMatches("7d", {'h', 'd'}) && !DurationMatches("15m", {'h', 'd'})
  {
    assert "15m"[..2] == "15";
    assert "1h"[..1] == "1";
    assert "7d"[..1] == "7";
  }

  /** A rounds value outside [10, 20] is always refused, whatever else the environment holds. */
  lemma BcryptRoundsOutOfRangeRejected(env: Env, n: int)
    requires "BCRYPT_ROUNDS" in env && JsNumber(env["BCRYPT_ROUNDS"]) == Some(n)
    requires n < MinBcryptRounds || n > MaxBcryptRounds
    ensures ValidateEnv(env).Err?
    ensures Issue("BCRYPT_ROUNDS", if n < MinBcryptRounds then "Too small: expected number to be >=10"
                                   else "Too big: expected number to be <=20") in ValidateEnv(env).error
  {
  }
}
