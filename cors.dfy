/**
 * The request admission rules of the API server (server/src/index.ts): the
 * CORS origin decision and the rate limiter's exemption. The FRONTEND_URL
 * environment variable is a parameter; logging of refused origins is left out.
 */
module ServerPolicy {
  import opened Wrappers

  const DefaultFrontendUrl: string := "http://localhost:8081"
  const VercelSuffix: string := ".vercel.app"
  const NotAllowedMessage: string := "Not allowed by CORS"

  /** `process.env.FRONTEND_URL || default`: an unset or empty variable gives the default. */
  function FrontendUrl(env: Option<string>): (url: string)
    ensures env.Some? && env.value != "" ==> url == env.value
    ensures env.None? || env.value == "" ==> url == DefaultFrontendUrl
    ensures url != ""
  {
    if env.Some? && env.value != "" then env.value else DefaultFrontendUrl
  }

  /** The four entries of the allow-list, the last one configurable. */
  function AllowedOrigins(env: Option<string>): (list: seq<string>)
    ensures |list| == 4
    ensures list[3] == FrontendUrl(env)
  {
    ["http://localhost:8081", "http://10.0.0.42:8081", "https://track-the-deadline.vercel.app", FrontendUrl(env)]
  }

  /** String.prototype.endsWith. */
  predicate EndsWith(s: string, suffix: string)
  {
    |suffix| <= |s| && s[|s| - |suffix|..] == suffix
  }

  /** endsWith holds exactly when the string is some text followed by the suffix. */
  lemma EndsWithMeansSuffix(s: string, suffix: string)
    ensures EndsWith(s, suffix) <==> exists p :: s == p + suffix
  {
    if EndsWith(s, suffix) {
      var p := s[..|s| - |suffix|];
      assert s == p + suffix;
    }
    if exists p :: s == p + suffix {
      var p :| s == p + suffix;
      assert s[|s| - |suffix|..] == suffix;
    }
  }

  /** What the origin callback reports to the CORS middleware. */
  datatype Decision = Allow | Reject(message: string)

  /**
   * The origin callback: a missing (or empty) origin passes, then any
   * *.vercel.app origin, then the members of the allow-list; every other
   * origin is refused with an error.
   */
  function OriginDecision(origin: Option<string>, env: Option<string>): (d: Decision)
    ensures d.Allow? || d == Reject(NotAllowedMessage)
    ensures d.Allow? <==>
      || origin.None? || origin.value == ""
      || (exists p :: origin.value == p + VercelSuffix)
      || origin.value in {"http://localhost:8081", "http://10.0.0.42:8081",
                          "https://track-the-deadline.vercel.app", FrontendUrl(env)}
  {
    if origin.None? || origin.value == "" then Allow
    else
      EndsWithMeansSuffix(origin.value, VercelSuffix);
      if EndsWith(origin.value, VercelSuffix) then Allow
      else if origin.value in AllowedOrigins(env) then Allow
      else Reject(NotAllowedMessage)
  }

  /** A vercel.app origin passes whatever the allow-list holds. */
  lemma VercelOriginsAllowed(host: string, env: Option<string>)
    ensures OriginDecision(Some("https://" + host + VercelSuffix), env) == Allow
  {
    assert "https://" + host + VercelSuffix == ("https://" + host) + VercelSuffix;
  }

  /** Without FRONTEND_URL only the three fixed origins and vercel.app origins pass. */
  lemma DefaultListExample()
    ensures OriginDecision(Some("http://localhost:8081"), None) == Allow
    ensures OriginDecision(Some("http://localhost:3000"), None) == Reject(NotAllowedMessage)
  {
    var o := "http://localhost:3000";
    assert o[|o| - 1] != VercelSuffix[|VercelSuffix| - 1];
    EndsWithMeansSuffix(o, VercelSuffix);
  }

  const HealthPath: string := "/health"

  /**
   * The rate limiter's skip option, applied to the url the limiter sees: it
   * fires for the health path and for no other url.
   */
  function SkipRateLimit(url: string): (skip: bool)
    ensures skip <==> url == HealthPath
  {
    url == HealthPath
  }

  /**
   * The exemption compares the whole url, case included: a query string, a
   * trailing slash or another spelling is limited.
   */
  lemma SkipIsExactMatch()
    ensures SkipRateLimit(HealthPath)
    ensures !SkipRateLimit(HealthPath + "?probe=1") && !SkipRateLimit(HealthPath + "/")
    ensures !SkipRateLimit("/HEALTH")
  {
  }

  /** The path the limiter is mounted under. */
  const ApiMount: string := "/api"

  /**
   * The url a middleware mounted under ApiMount sees: None when the request
   * is not under the mount; otherwise the rest of the url after the mount
   * path, with a leading "/" added when the rest does not start with one.
   */
  function MountedUrl(url: string): (rest: Option<string>)
    ensures rest.Some? <==>
      && |ApiMount| <= |url| && url[..|ApiMount|] == ApiMount
      && (|url| == |ApiMount| || url[|ApiMount|] in {'/', '?'})
    ensures rest.Some? ==>
      && |rest.value| > 0 && rest.value[0] == '/'
      && (|| url == ApiMount + rest.value
          || (url == ApiMount + rest.value[1..] && (|url| == |ApiMount| || url[|ApiMount|] == '?')))
  {
    if |ApiMount| <= |url| && url[..|ApiMount|] == ApiMount && (|url| == |ApiMount| || url[|ApiMount|] in {'/', '?'}) then
      var tail := url[|ApiMount|..];
      assert url == ApiMount + tail;
      if |tail| > 0 && tail[0] == '/' then Some(tail)
      else
        assert ("/" + tail)[1..] == tail;
        Some("/" + tail)
    else None
  }

  /**
   * Whether the CORS middleware, which runs before the limiter, passes a
   * request on. A refused origin goes to the error handler, which skips the
   * limiter; a preflight request from an admitted origin is answered by the
   * middleware itself with status 200. Only the other requests go on.
   */
  function CorsPassesOn(verb: string, origin: Option<string>, env: Option<string>): (pass: bool)
    ensures pass ==> OriginDecision(origin, env).Allow?
    ensures pass <==> OriginDecision(origin, env).Allow? && verb != "OPTIONS"
  {
    match OriginDecision(origin, env)
    case Reject(_) => false
    case Allow => verb != "OPTIONS"
  }

  /**
   * Whether the limiter counts a request: the CORS middleware passes it on,
   * it is under the mount, and its mounted url is not the exempt one. Only
   * "/api/health" is exempt.
   */
  function RateLimited(verb: string, url: string, origin: Option<string>, env: Option<string>): (limited: bool)
    ensures limited <==>
      && OriginDecision(origin, env).Allow? && verb != "OPTIONS"
      && MountedUrl(url).Some? && url != ApiMount + HealthPath
  {
    CorsPassesOn(verb, origin, env) && LimitedOnceAdmitted(url)
  }

  /** Whether the limiter counts a request that the CORS middleware passed on. */
  function LimitedOnceAdmitted(url: string): (limited: bool)
    ensures limited <==> MountedUrl(url).Some? && url != ApiMount + HealthPath
  {
    match MountedUrl(url)
    case None => false
    case Some(rest) =>
      assert rest == HealthPath <==> url == ApiMount + HealthPath by {
        if url == ApiMount + HealthPath {
          assert url[|ApiMount|..] == HealthPath;
        }
      }
      !SkipRateLimit(rest)
  }

  /**
   * The health check endpoint is outside the mount, so the limiter never
   * sees it; the exemption fires only for "/api/health", which no route
   * serves. Any other url under the mount is counted once CORS lets it through.
   */
  lemma HealthCheckOutsideLimiter(verb: string, origin: Option<string>, env: Option<string>)
    ensures MountedUrl(HealthPath).None? && !RateLimited(verb, HealthPath, origin, env)
    ensures MountedUrl(ApiMount + HealthPath) == Some(HealthPath)
    ensures !RateLimited(verb, ApiMount + HealthPath, origin, env)
    ensures CorsPassesOn(verb, origin, env) ==>
      RateLimited(verb, "/api/deadlines", origin, env) && RateLimited(verb, "/api/health?probe=1", origin, env)
  {
    assert HealthPath[..|ApiMount|] != ApiMount by { assert HealthPath[1] != ApiMount[1]; }
    assert (ApiMount + HealthPath)[..|ApiMount|] == ApiMount;
    assert ("/api/deadlines")[..|ApiMount|] == ApiMount;
    assert ("/api/health?probe=1")[..|ApiMount|] == ApiMount;
  }

  /**
   * The CORS middleware stops requests before the limiter: a refused origin
   * and a preflight request are not counted, while a plain request without
   * an origin is.
   */
  lemma CorsGateBeforeLimiter()
    ensures !RateLimited("GET", "/api/deadlines", Some("http://localhost:3000"), None)
    ensures !RateLimited("OPTIONS", "/api/deadlines", Some("http://localhost:8081"), None)
    ensures RateLimited("GET", "/api/deadlines", None, None)
  {
    DefaultListExample();
    assert ("/api/deadlines")[..|ApiMount|] == ApiMount;
  }
}
