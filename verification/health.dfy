/** The health report of `src/api/health.py`: three probes, each turned into a
    status and a message, and `run_all_checks` folding them into an overall status.

    What each probe observed (the database's reply to `SELECT 1`, the PubMed HTTP
    status, the Gemini call) is a parameter; the probes' I/O is not modelled. */
module Health {
  import opened Wrappers
  import PyInt

  datatype Status = Healthy | Warning | Unhealthy

  /** The `{"status": ..., "message": ...}` dictionary a probe returns. */
  datatype CheckResult = CheckResult(status: Status, message: string)

  /** The dictionary `run_all_checks` returns. */
  datatype HealthReport = HealthReport(overall: Status, checks: map<string, CheckResult>)

  // ---------------------------------------------------------------------------
  // The probes

  /** What the database probe saw: a connection whose `SELECT 1` returned a row or
      not, or an exception. */
  datatype DbProbe = DbReached(gotRow: bool) | DbFailed(error: string)

  /** `check_database`. When the query returns no row the function falls off its end
      and returns `None`. */
  function CheckDatabase(p: DbProbe): (r: Option<CheckResult>)
    ensures r.None? <==> p == DbReached(false)
    ensures r.Some? ==> (r.value.status == Healthy <==> p.DbReached?)
    ensures r.Some? ==> r.value.status != Warning
    ensures p.DbFailed? ==> r == Some(CheckResult(Unhealthy, "Database connection failed: " + p.error))
  {
    match p
    case DbReached(gotRow) =>
      if gotRow then Some(CheckResult(Healthy, "Database connection successful")) else None
    case DbFailed(e) => Some(CheckResult(Unhealthy, "Database connection failed: " + e))
  }

  /** What the PubMed probe saw: an HTTP status code or an exception. */
  datatype HttpProbe = HttpReply(code: int) | HttpFailed(error: string)

  /** `check_pubmed_api`: healthy exactly on status 200. */
  function CheckPubmedApi(p: HttpProbe): (r: CheckResult)
    ensures r.status == Healthy <==> p == HttpReply(200)
    ensures r.status != Warning
    ensures p.HttpReply? && p.code != 200 ==> r.message == "PubMed API returned status " + PyInt.ShowInt(p.code)
    ensures p.HttpFailed? ==> r.message == "PubMed API check failed: " + p.error
  {
    match p
    case HttpReply(code) =>
      if code == 200 then CheckResult(Healthy, "PubMed API accessible")
      else CheckResult(Unhealthy, "PubMed API returned status " + PyInt.ShowInt(code))
    case HttpFailed(e) => CheckResult(Unhealthy, "PubMed API check failed: " + e)
  }

  /** What the Gemini probe saw: an answer or an exception. */
  datatype GeminiProbe = GeminiAnswered | GeminiFailed(error: string)

  /** Python's `not key` for an optional string. */
  predicate Unset(key: Option<string>) {
    key.None? || key.value == ""
  }

  /** `check_gemini_api`: without a key it warns and makes no call, so the probe's
      outcome does not matter. */
  function CheckGeminiApi(key: Option<string>, p: GeminiProbe): (r: CheckResult)
    ensures Unset(key) ==> r == CheckResult(Warning, "Gemini API key not configured")
    ensures r.status == Warning <==> Unset(key)
    ensures r.status == Healthy <==> !Unset(key) && p.GeminiAnswered?
    ensures !Unset(key) && p.GeminiFailed? ==> r.message == "Gemini API check failed: " + p.error
  {
    if Unset(key) then CheckResult(Warning, "Gemini API key not configured")
    else
      match p
      case GeminiAnswered => CheckResult(Healthy, "Gemini API accessible")
      case GeminiFailed(e) => CheckResult(Unhealthy, "Gemini API check failed: " + e)
  }

  // ---------------------------------------------------------------------------
  // The fold

  /** One step of the fold: `unhealthy` always wins; `warning` replaces only
      `healthy`. */
  function Combine(overall: Status, s: Status): (r: Status)
    ensures r == Unhealthy <==> overall == Unhealthy || s == Unhealthy
    ensures r == Healthy <==> overall == Healthy && s == Healthy
  {
    match s
    case Unhealthy => Unhealthy
    case Warning => if overall == Healthy then Warning else overall
    case Healthy => overall
  }

  /** Some entry of the first `n` holds a result with status `s`. */
  ghost predicate SomeHas(checks: seq<(string, Option<CheckResult>)>, n: nat, s: Status)
    requires n <= |checks|
  {
    exists i :: 0 <= i < n && checks[i].1.Some? && checks[i].1.value.status == s
  }

  /** No entry of the first `n` is missing. */
  ghost predicate AllPresent(checks: seq<(string, Option<CheckResult>)>, n: nat)
    requires n <= |checks|
  {
    forall i :: 0 <= i < n ==> checks[i].1.Some?
  }

  /** Entry `i` is the last one carrying its name. */
  ghost predicate LastOfName(checks: seq<(string, Option<CheckResult>)>, n: nat, i: nat)
    requires i < n <= |checks|
  {
    forall j :: i < j < n ==> checks[j].0 != checks[i].0
  }

  /** `run_all_checks` over the probes' results in dictionary order. A missing
      result makes `result["status"]` raise, so the whole run yields nothing.
      Otherwise the overall status is the worst one seen, and each name maps to the
      last result given under it. */
  method RunAllChecks(checks: seq<(string, Option<CheckResult>)>) returns (r: Option<HealthReport>)
    ensures r.None? <==> !AllPresent(checks, |checks|)
    ensures r.Some? ==> (r.value.overall == Unhealthy <==> SomeHas(checks, |checks|, Unhealthy))
    ensures r.Some? ==> (r.value.overall == Warning <==>
                           !SomeHas(checks, |checks|, Unhealthy) && SomeHas(checks, |checks|, Warning))
    ensures r.Some? ==> (r.value.overall == Healthy <==>
                           forall i :: 0 <= i < |checks| ==> checks[i].1.value.status == Healthy)
    ensures r.Some? ==> r.value.checks.Keys == set i | 0 <= i < |checks| :: checks[i].0
    ensures r.Some? ==> forall i :: 0 <= i < |checks| && LastOfName(checks, |checks|, i) ==>
                          r.value.checks[checks[i].0] == checks[i].1.value
  {
    var results: map<string, CheckResult> := map[];
    var overall := Healthy;
    var i := 0;
    while i < |checks|
      invariant 0 <= i <= |checks|
      invariant AllPresent(checks, i)
      invariant overall == Unhealthy <==> SomeHas(checks, i, Unhealthy)
      invariant overall == Warning <==> !SomeHas(checks, i, Unhealthy) && SomeHas(checks, i, Warning)
      invariant results.Keys == set k | 0 <= k < i :: checks[k].0
      invariant forall k :: 0 <= k < i && LastOfName(checks, i, k) ==> results[checks[k].0] == checks[k].1.value
    {
      var (name, result) := checks[i];
      if result.None? {
        return None;
      }
      results := results[name := result.value];
      overall := Combine(overall, result.value.status);
      i := i + 1;
    }
    r := Some(HealthReport(overall, results));
    assert r.value.overall == Healthy <==> forall k :: 0 <= k < |checks| ==> checks[k].1.value.status == Healthy by {
      if forall k :: 0 <= k < |checks| ==> checks[k].1.value.status == Healthy {
        assert !SomeHas(checks, |checks|, Unhealthy) && !SomeHas(checks, |checks|, Warning);
      } else {
        var k :| 0 <= k < |checks| && checks[k].1.value.status != Healthy;
        assert SomeHas(checks, |checks|, checks[k].1.value.status);
      }
    }
  }

  /** `get_health_status`: the three probes in the order the checker registers
      them. */
  method GetHealthStatus(db: DbProbe, pubmed: HttpProbe, geminiKey: Option<string>, gemini: GeminiProbe)
    returns (r: Option<HealthReport>)
    ensures r.None? <==> db == DbReached(false)
    ensures r.Some? ==> r.value.checks.Keys == {"database", "pubmed_api", "gemini_api"}
    ensures r.Some? ==> r.value.checks["database"] == CheckDatabase(db).value
    ensures r.Some? ==> r.value.checks["pubmed_api"] == CheckPubmedApi(pubmed)
    ensures r.Some? ==> r.value.checks["gemini_api"] == CheckGeminiApi(geminiKey, gemini)
    ensures r.Some? ==> (r.value.overall == Healthy <==>
                           db.DbReached? && pubmed == HttpReply(200) && !Unset(geminiKey) && gemini.GeminiAnswered?)
    ensures r.Some? ==> (r.value.overall == Warning <==>
                           db.DbReached? && pubmed == HttpReply(200) && Unset(geminiKey))
  {
    var checks := [("database", CheckDatabase(db)),
                   ("pubmed_api", Some(CheckPubmedApi(pubmed))),
                   ("gemini_api", Some(CheckGeminiApi(geminiKey, gemini)))];
    r := RunAllChecks(checks);
    if r.Some? {
      ThreeNames(checks);
      ThreeStatuses(checks, Unhealthy);
      ThreeStatuses(checks, Warning);
    }
  }

  lemma ThreeNames(checks: seq<(string, Option<CheckResult>)>)
    requires |checks| == 3
    requires checks[0].0 == "database" && checks[1].0 == "pubmed_api" && checks[2].0 == "gemini_api"
    ensures (set i | 0 <= i < |checks| :: checks[i].0) == {"database", "pubmed_api", "gemini_api"}
    ensures LastOfName(checks, 3, 0) && LastOfName(checks, 3, 1) && LastOfName(checks, 3, 2)
  {
  }

  lemma ThreeStatuses(checks: seq<(string, Option<CheckResult>)>, s: Status)
    requires |checks| == 3 && AllPresent(checks, 3)
    ensures SomeHas(checks, 3, s) <==>
              checks[0].1.value.status == s || checks[1].1.value.status == s || checks[2].1.value.status == s
  {
  }
}
