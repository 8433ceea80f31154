/**
 What each policy rule reports about the posture manifest: the evaluation functions of
 internal/auditspec/engine.go and the raw-HTML exceptions of internal/auditspec/rawhtml.go.
 */
module AuditRules {
  import opened Text
  import opened AuditTypes
  import opened AuditCodes
  import opened AuditMatch
  import opened Dedupe
  import opened HttpMethods

  function CodeSourceFor(policy: Policy, rule: Rule): CodeSource {
    if policy.builtin then BaselineDefault
    else if rule.code == "" || rule.code == RuleDefaultCode(rule.kind) then RuleDefault
    else if rule.kind == RequireCSRF && rule.code in RuleAllowedCodes(RequireCSRF) then RuleDefault
    else PolicyOverride
  }

  function MakeFinding(env: Env, rule: Rule, policy: Policy, target: string, source: string, message: Message): Finding {
    Finding(rule.code, SeverityFor(env, rule.code), CodeSourceFor(policy, rule), target, policy.name, Some(rule.kind),
            env.wording(message), source, None)
  }

  function When(condition: bool, f: Finding): seq<Finding> {
    if condition then [f] else []
  }

  /** The findings of every rule, in rule order. */
  function ForRules(rules: seq<Rule>, eval: Rule -> seq<Finding>): seq<Finding> {
    if rules == [] then [] else eval(rules[0]) + ForRules(rules[1..], eval)
  }

  lemma {:induction false} ForRulesHas(rules: seq<Rule>, eval: Rule -> seq<Finding>, f: Finding)
    ensures f in ForRules(rules, eval) <==> exists r :: r in rules && f in eval(r)
  {
    if rules != [] {
      ForRulesHas(rules[1..], eval, f);
      assert rules == [rules[0]] + rules[1..];
    }
  }

  lemma {:induction false} ForRulesFresh(env: Env, rules: seq<Rule>, eval: Rule -> seq<Finding>)
    ensures (forall rule | rule in rules :: AllFresh(env, eval(rule))) ==> AllFresh(env, ForRules(rules, eval))
  {
    if rules != [] {
      ForRulesFresh(env, rules[1..], eval);
      assert rules == [rules[0]] + rules[1..];
      assert eval(rules[0]) + ForRules(rules[1..], eval) == ForRules(rules, eval);
    }
  }

  // ----------------------------------------------------------------- endpoints

  predicate MethodRequiresCSRF(env: Env, httpMethod: string) {
    RequiresCSRF(env.upper(TrimSpace(httpMethod)))
  }

  function CsrfCodeForKind(kind: string): string {
    if kind == "api" then API_MISSING_CSRF else if kind == "command" then COMMAND_MISSING_CSRF else ACTION_MISSING_CSRF
  }

  function EndpointTarget(e: Endpoint): string {
    e.kind + ":" + e.id
  }

  const TWO63 := 0x8000_0000_0000_0000
  const TWO64 := 0x1_0000_0000_0000_0000

  /** Two's complement wrap-around of int64. */
  function Wrap64(n: int): int {
    (n + TWO63) % TWO64 - TWO63
  }

  function ParseNumber(digits: string, number: int): Option<int> {
    if digits == "" then Some(number)
    else if !IsDigit(digits[0]) then None
    else ParseNumber(digits[1..], Wrap64(Wrap64(number * 10) + DigitValue(digits[0])))
  }

  /** The suffixes kb, mb and gb, by their first letter. */
  predicate EndsInUnit(s: string, letter: char) {
    |s| >= 2 && s[|s| - 2] == letter && s[|s| - 1] == 'b'
  }

  /** The unit a size text ends in: its number of bytes and the length of its name. */
  function UnitOf(value: string): (r: (int, nat))
    ensures r.1 <= |value|
  {
    if EndsInUnit(value, 'k') then (1024, 2)
    else if EndsInUnit(value, 'm') then (1024 * 1024, 2)
    else if EndsInUnit(value, 'g') then (1024 * 1024 * 1024, 2)
    else if value != "" && value[|value| - 1] == 'b' then (1, 1)
    else (1, 0)
  }

  /** parseSize on lower-cased, trimmed text. */
  function ParseSizeText(value: string): Option<int> {
    var (multiplier, length) := UnitOf(value);
    var number := ParseNumber(TrimSpace(value[..|value| - length]), 0);
    if value == "" || number.None? then None else Some(Wrap64(number.value * multiplier))
  }

  function ParseSize(env: Env, value: string): Option<int> {
    ParseSizeText(env.lower(TrimSpace(value)))
  }

  function EvalRequestLimits(env: Env, rule: Rule, policy: Policy, e: Endpoint): (r: seq<Finding>)
    ensures AllFresh(env, r)
  {
    LimitCodesPlain();
    var limits := e.requestLimits;
    var raw := if limits.rawBodyBytes == 0 then e.bodyLimitBytes else limits.rawBodyBytes;
    if raw <= 0 then
      [MakeFinding(env, rule.(code := LIMIT_MISSING), policy, EndpointTarget(e), e.source, NoRequestLimit(e.kind, e.id))]
    else if limits.rawBodyBytes <= 0 then []
    else
      When(!limits.installedBeforeParse,
           MakeFinding(env, rule.(code := LIMIT_PHASE), policy, EndpointTarget(e), e.source, LimitAfterParse(e.kind, e.id)))
      + When(limits.multipartEnabled && limits.multipartMaxBytes <= 0,
             MakeFinding(env, rule.(code := LIMIT_MULTIPART), policy, EndpointTarget(e), e.source, UnboundedMultipart(e.kind, e.id)))
  }

  predicate Unverified(g: GuardEvidence) {
    g.bindingStatus == "unverified-app-owned" || g.runtimeTestFixture == "unverified-app-owned"
  }

  function EvalGuardEvidence(env: Env, rule: Rule, policy: Policy, target: string, source: string, guards: seq<GuardEvidence>): (r: seq<Finding>)
    ensures PlainCode(rule.code) ==> AllFresh(env, r)
  {
    if guards == [] then []
    else
      When(Unverified(guards[0]),
           MakeFinding(env, rule, policy, target + "#guard:" + guards[0].id, source, GuardUnverified(guards[0].id)))
      + EvalGuardEvidence(env, rule, policy, target, source, guards[1..])
  }

  function EvalEndpointRule(env: Env, e: Endpoint, policy: Policy, rule: Rule): (r: seq<Finding>)
    ensures PlainCode(rule.code) ==> AllFresh(env, r)
  {
    AccessCodesPlain();
    match rule.kind
    case RequireCSRF =>
      var csrf := if rule.code == "" then rule.(code := CsrfCodeForKind(e.kind)) else rule;
      var exempt := policy.builtin && e.kind == "api" && csrf.code == API_MISSING_CSRF && !MethodRequiresCSRF(env, e.httpMethod);
      When(!exempt && !e.csrf, MakeFinding(env, csrf, policy, EndpointTarget(e), e.source, NoCSRF(e.kind, e.id)))
    case RequireAnyGuard =>
      When(e.defaultDeny, MakeFinding(env, rule, policy, EndpointTarget(e), e.source, EndpointDenied(e.kind, e.id)))
    case RequireGuard =>
      When(rule.value !in e.guards, MakeFinding(env, rule, policy, EndpointTarget(e), e.source, EndpointLacksGuard(e.kind, e.id, rule.value)))
    case DenyPublic =>
      When(e.public, MakeFinding(env, rule, policy, EndpointTarget(e), e.source, EndpointPublic(e.kind, e.id)))
    case MaxBody =>
      var limit := ParseSize(env, rule.value);
      if limit.None? then []
      else When(e.bodyLimitBytes > limit.value,
                MakeFinding(env, rule, policy, EndpointTarget(e), e.source, BodyTooLarge(e.kind, e.id, e.bodyLimitBytes, limit.value)))
    case RequireRequestLimits => EvalRequestLimits(env, rule, policy, e)
    case RequireVerifiedGuards => EvalGuardEvidence(env, rule, policy, EndpointTarget(e), e.source, e.guardEvidence)
    case _ => []
  }

  function EvalEndpoint(env: Env, e: Endpoint, policy: Policy): (fs: seq<Finding>)
    ensures PlainRules(policy.rules) ==> AllFresh(env, fs)
  {
    var eval := rule => EvalEndpointRule(env, e, policy, rule);
    ForRulesFresh(env, policy.rules, eval);
    ForRules(policy.rules, eval)
  }

  // -------------------------------------------------------------------- routes

  function RouteTarget(r: Route): string {
    "route:" + r.route
  }

  function EvalRouteRule(env: Env, r: Route, policy: Policy, rule: Rule): (fs: seq<Finding>)
    ensures PlainCode(rule.code) ==> AllFresh(env, fs)
  {
    match rule.kind
    case RequireGuard => When(rule.value !in r.guards, MakeFinding(env, rule, policy, RouteTarget(r), r.source, RouteLacksGuard(r.route, rule.value)))
    case RequireAnyGuard => When(r.defaultDeny, MakeFinding(env, rule, policy, RouteTarget(r), r.source, RouteDenied(r.route)))
    case DenyPublic => When(r.public, MakeFinding(env, rule, policy, RouteTarget(r), r.source, RoutePublic(r.route)))
    case RequireVerifiedGuards => EvalGuardEvidence(env, rule, policy, RouteTarget(r), r.source, r.guardEvidence)
    case _ => []
  }

  function EvalRoute(env: Env, r: Route, policy: Policy): (fs: seq<Finding>)
    ensures PlainRules(policy.rules) ==> AllFresh(env, fs)
  {
    var eval := rule => EvalRouteRule(env, r, policy, rule);
    ForRulesFresh(env, policy.rules, eval);
    ForRules(policy.rules, eval)
  }

  // ----------------------------------------------------------------- contracts

  function EvalContractRule(env: Env, c: Contract, policy: Policy, rule: Rule): (r: seq<Finding>)
    ensures PlainCode(rule.code) ==> AllFresh(env, r)
  {
    var source := if c.declarationSource != "" then c.declarationSource else c.exposureSource;
    When(rule.kind == DenyRolelessContract && c.roles == [],
         MakeFinding(env, rule, policy, "contract:" + c.name, source, Roleless(c.kind, c.name)))
  }

  function EvalContract(env: Env, c: Contract, policy: Policy): (fs: seq<Finding>)
    ensures PlainRules(policy.rules) ==> AllFresh(env, fs)
  {
    var eval := rule => EvalContractRule(env, c, policy, rule);
    ForRulesFresh(env, policy.rules, eval);
    ForRules(policy.rules, eval)
  }

  // ------------------------------------------------------------- observability

  predicate ChecksOrigin(env: Env, o: Observability) {
    env.equalFold(o.accessPolicy, "loopback-only") || exists origin | origin in o.allowedOrigins :: TrimSpace(origin) != ""
  }

  function TraceFinding(env: Env, o: Observability, policy: Policy, rule: Rule, code: string, message: Message): Finding {
    MakeFinding(env, rule.(code := code), policy, "observability:" + o.id, "", message)
  }

  /** Who can reach a mounted trace endpoint. */
  function EvalTraceAccess(env: Env, o: Observability, policy: Policy, rule: Rule): (r: seq<Finding>)
    ensures AllFresh(env, r)
  {
    TraceCodesPlain();
    When(o.mounted && (!o.devOnly || env.equalFold(o.buildMode, "production")),
         TraceFinding(env, o, policy, rule, TRACE_EXPOSED, TraceExposed(o.path)))
    + When(o.mounted && !ChecksOrigin(env, o), TraceFinding(env, o, policy, rule, TRACE_ORIGIN, TraceOriginUnchecked(o.path)))
  }

  /** What a browser may send to an ingestion endpoint. */
  function EvalTraceIngest(env: Env, o: Observability, policy: Policy, rule: Rule): (r: seq<Finding>)
    ensures AllFresh(env, r)
  {
    TraceCodesPlain();
    When(o.contentTypeRequired == "", TraceFinding(env, o, policy, rule, TRACE_CONTENT_TYPE, TraceNoContentType(o.path)))
    + When(o.bodyLimitBytes <= 0, TraceFinding(env, o, policy, rule, TRACE_BODY, TraceNoBodyLimit(o.path)))
    + When(o.batchLimit <= 0, TraceFinding(env, o, policy, rule, TRACE_BATCH, TraceNoBatchLimit(o.path)))
  }

  function EvalObservabilityRule(env: Env, o: Observability, policy: Policy, rule: Rule): (r: seq<Finding>)
    ensures AllFresh(env, r)
  {
    TraceCodesPlain();
    if rule.kind != CheckObservability then []
    else
      EvalTraceAccess(env, o, policy, rule)
      + (if o.kind == "browser-ingest" then EvalTraceIngest(env, o, policy, rule) else [])
      + When(o.exportsAbsoluteSourcePaths, TraceFinding(env, o, policy, rule, TRACE_SOURCE, TraceAbsoluteSource(o.path)))
  }

  function EvalObservability(env: Env, o: Observability, policy: Policy): (fs: seq<Finding>)
    ensures AllFresh(env, fs)
  {
    var eval := rule => EvalObservabilityRule(env, o, policy, rule);
    ForRulesFresh(env, policy.rules, eval);
    ForRules(policy.rules, eval)
  }

  // --------------------------------------------------------- raw HTML exemption

  function TrimBracesLeft(s: string): string {
    if s != "" && (s[0] == '{' || s[0] == '}') then TrimBracesLeft(s[1..]) else s
  }

  function TrimBracesRight(s: string): string {
    if s != "" && (s[|s| - 1] == '{' || s[|s| - 1] == '}') then TrimBracesRight(s[..|s| - 1]) else s
  }

  /** strings.Trim(s, "{}"). */
  function TrimBraces(s: string): string {
    TrimBracesRight(TrimBracesLeft(s))
  }

  /** addRawHTMLAllowlistValue: the entries one allow_raw_html value stands for. */
  function AllowEntries(raw: string): set<string> {
    var value := TrimSpace(raw);
    var colon := IndexOf(value, ':');
    if value == "" then {}
    else if colon < 0 then {value}
    else
      var owner, field := TrimSpace(value[..colon]), TrimBraces(TrimSpace(value[colon + 1..]));
      if owner != "" && field != "" then {value, owner + ":" + field} else {value}
  }

  predicate SinkAllowed(allow: set<string>, sink: Sink) {
    var field := TrimSpace(sink.field);
    var normalized := TrimBraces(field);
    || TrimSpace(sink.source) in allow
    || sink.ownerId + ":" + field in allow
    || (normalized != field && sink.ownerId + ":" + normalized in allow)
  }

  datatype Exception = Exception(
    fingerprint: string, owner: string, justification: string, expires: string, sanitizer: string, policy: string, source: string)

  function ExceptionOf(rule: Rule, policy: string): Exception {
    Exception(TrimSpace(rule.value), Attr(rule, "owner"), Attr(rule, "justification"), Attr(rule, "expires"),
              Attr(rule, "sanitizer"), policy, rule.source)
  }

  function ExceptionKey(e: Exception): string {
    e.fingerprint + "\0" + e.source + "\0" + e.expires
  }

  datatype ExceptionState = Active | Malformed(reason: Message) | Expired(reason: Message) | Unmatched(reason: Message)

  function MissingFields(e: Exception): seq<string> {
    (if e.fingerprint == "" then ["fingerprint"] else [])
    + (if e.owner == "" then ["owner"] else [])
    + (if e.justification == "" then ["justification"] else [])
    + (if e.expires == "" then ["expires"] else [])
    + (if e.sanitizer == "" then ["sanitizer"] else [])
  }

  predicate HasFingerprint(sinks: seq<Sink>, fingerprint: string) {
    fingerprint != "" && exists s | s in sinks :: s.fingerprint == fingerprint
  }

  function ClassifyException(env: Env, sinks: seq<Sink>, e: Exception): ExceptionState {
    if MissingFields(e) != [] then Malformed(ExceptionLacks(MissingFields(e)))
    else if env.expiry(e.expires).None? then Malformed(ExceptionBadDate(e.expires))
    else if env.expiry(e.expires).value <= env.now then Expired(ExceptionExpired(e.fingerprint, e.expires))
    else if !HasFingerprint(sinks, e.fingerprint) then Unmatched(ExceptionUnmatched(e.fingerprint))
    else Active
  }

  function ExceptionFinding(env: Env, e: Exception, code: string, reason: Message): Finding {
    Finding(code, SeverityFor(env, code), PolicyDefault, "raw-html-exception:" + e.fingerprint, e.policy, Some(ExceptRawHTML),
            env.wording(reason), e.source, None)
  }

  function ExceptionFindings(env: Env, sinks: seq<Sink>, es: seq<Exception>): (r: seq<Finding>)
    ensures AllFresh(env, r)
  {
    ExceptionCodesPlain();
    if es == [] then []
    else
      (match ClassifyException(env, sinks, es[0])
       case Active => []
       case Malformed(reason) => [ExceptionFinding(env, es[0], EXCEPTION_MALFORMED, reason)]
       case Expired(reason) => [ExceptionFinding(env, es[0], EXCEPTION_EXPIRED, reason)]
       case Unmatched(reason) => [ExceptionFinding(env, es[0], EXCEPTION_UNMATCHED, reason)])
      + ExceptionFindings(env, sinks, es[1..])
  }

  function RuleExceptions(rules: seq<Rule>, policy: string): seq<Exception> {
    if rules == [] then []
    else if rules[0].kind == ExceptRawHTML then [ExceptionOf(rules[0], policy)] + RuleExceptions(rules[1..], policy)
    else RuleExceptions(rules[1..], policy)
  }

  function AllExceptions(policies: seq<Policy>): seq<Exception> {
    if policies == [] then []
    else if HasFrontendSelector(policies[0]) then RuleExceptions(policies[0].rules, policies[0].name) + AllExceptions(policies[1..])
    else AllExceptions(policies[1..])
  }

  /** collectRawHTMLExceptions. */
  function CollectExceptions(policies: seq<Policy>): seq<Exception> {
    KeepFirst(AllExceptions(policies), ExceptionKey)
  }

  /** Entries allowed anywhere, and fingerprints with an active exception. */
  datatype Exemptions = Exemptions(allow: set<string>, active: set<string>)

  const NO_EXEMPTIONS := Exemptions({}, {})

  function RuleAllows(rules: seq<Rule>): set<string> {
    if rules == [] then {}
    else (if rules[0].kind == AllowRawHTML then AllowEntries(rules[0].value) else {}) + RuleAllows(rules[1..])
  }

  /** rawHTMLAllowlist. */
  function Allowlist(policies: seq<Policy>): set<string> {
    if policies == [] then {}
    else (if HasFrontendSelector(policies[0]) then RuleAllows(policies[0].rules) else {}) + Allowlist(policies[1..])
  }

  function ActiveFingerprints(env: Env, sinks: seq<Sink>, es: seq<Exception>): set<string> {
    if es == [] then {}
    else (if ClassifyException(env, sinks, es[0]).Active? then {es[0].fingerprint} else {}) + ActiveFingerprints(env, sinks, es[1..])
  }

  function ExemptionsOf(env: Env, sinks: seq<Sink>, policies: seq<Policy>): Exemptions {
    Exemptions(Allowlist(policies), ActiveFingerprints(env, sinks, CollectExceptions(policies)))
  }

  predicate Exempt(x: Exemptions, sink: Sink) {
    sink.fingerprint in x.active || SinkAllowed(x.allow, sink)
  }

  // ------------------------------------------------------------------ frontend

  function SinkFinding(env: Env, policy: Policy, rule: Rule, sink: Sink): Finding {
    MakeFinding(env, rule, policy, "frontend", sink.source, SinkNotAllowed(sink.ownerId, sink.field, sink.fingerprint))
  }

  function EvalSinks(env: Env, sinks: seq<Sink>, policy: Policy, rule: Rule, x: Exemptions): (r: seq<Finding>)
    ensures PlainCode(rule.code) ==> AllFresh(env, r)
  {
    if sinks == [] then []
    else When(!Exempt(x, sinks[0]), SinkFinding(env, policy, rule, sinks[0])) + EvalSinks(env, sinks[1..], policy, rule, x)
  }

  function EvalCORS(env: Env, cors: CORS, policy: Policy, rule: Rule): (r: seq<Finding>)
    ensures AllFresh(env, r)
  {
    CorsCodesPlain();
    if !cors.enabled || !cors.allowsAnyOrigin then []
    else if cors.allowCredentials then
      [MakeFinding(env, rule.(code := CORS_CREDENTIALED), policy, "cors", cors.origin, CredentialedWildcard)]
    else [MakeFinding(env, rule.(code := CORS_WILDCARD), policy, "cors", cors.origin, WildcardOrigin)]
  }

  function EvalSecrets(env: Env, leaks: seq<BundleLeak>, policy: Policy, rule: Rule): (r: seq<Finding>)
    ensures PlainCode(rule.code) ==> AllFresh(env, r)
  {
    if leaks == [] then []
    else [MakeFinding(env, rule, policy, "frontend", leaks[0].source, SecretInBundle(leaks[0].kind))] + EvalSecrets(env, leaks[1..], policy, rule)
  }

  function EvalClientRoutes(env: Env, routes: seq<UnguardedRoute>, policy: Policy, rule: Rule): (r: seq<Finding>)
    ensures PlainCode(rule.code) ==> AllFresh(env, r)
  {
    if routes == [] then []
    else
      [MakeFinding(env, rule, policy, "route:" + routes[0].route, routes[0].source, ClientRouteUnguarded(routes[0].route))]
      + EvalClientRoutes(env, routes[1..], policy, rule)
  }

  predicate ContainsHeader(env: Env, headers: seq<Header>, want: string) {
    exists h | h in headers :: env.equalFold(TrimSpace(h.name), TrimSpace(want))
  }

  function EvalFrontendRule(env: Env, m: Manifest, x: Exemptions, policy: Policy, rule: Rule): (r: seq<Finding>)
    ensures HeadersFresh(env) && PlainCode(rule.code) ==> AllFresh(env, r)
  {
    match rule.kind
    case CheckSecurityHeaders => env.securityHeaders(m.frontend, policy, m.buildMode)
    case CheckCORS => EvalCORS(env, m.cors, policy, rule)
    case NoSecretsInBundle => EvalSecrets(env, m.frontend.bundleSecrets, policy, rule)
    case RequireHeader =>
      When(!ContainsHeader(env, m.frontend.headers, rule.value),
           MakeFinding(env, rule, policy, "frontend", policy.source, HeaderMissing(rule.value)))
    case RequireClientRouteGuards => EvalClientRoutes(env, m.frontend.unguardedRoutes, policy, rule)
    case DenyRawHTMLSinks => EvalSinks(env, m.frontend.sinks, policy, rule, x)
    case _ => []
  }

  function EvalFrontend(env: Env, m: Manifest, x: Exemptions, policy: Policy): seq<Finding> {
    ForRules(policy.rules, rule => EvalFrontendRule(env, m, x, policy, rule))
  }

  lemma EvalFrontendFresh(env: Env, m: Manifest, x: Exemptions, policy: Policy)
    requires HeadersFresh(env) && PlainRules(policy.rules)
    ensures AllFresh(env, EvalFrontend(env, m, x, policy))
  {
    var eval := rule => EvalFrontendRule(env, m, x, policy, rule);
    ForRulesFresh(env, policy.rules, eval);
    assert EvalFrontend(env, m, x, policy) == ForRules(policy.rules, eval);
  }

  // ------------------------------------------------- what exemptions can remove

  lemma {:induction false} EvalSinksHas(env: Env, sinks: seq<Sink>, policy: Policy, rule: Rule, x: Exemptions, f: Finding)
    ensures f in EvalSinks(env, sinks, policy, rule, x) <==>
              exists s :: s in sinks && !Exempt(x, s) && f == SinkFinding(env, policy, rule, s)
  {
    if sinks != [] {
      EvalSinksHas(env, sinks[1..], policy, rule, x, f);
      assert sinks == [sinks[0]] + sinks[1..];
    }
  }

  /** f reports a sink under a rule that denies raw HTML. */
  ghost predicate ReportsSink(env: Env, m: Manifest, policy: Policy, rule: Rule, sink: Sink, f: Finding) {
    rule in policy.rules && rule.kind == DenyRawHTMLSinks && sink in m.frontend.sinks && f == SinkFinding(env, policy, rule, sink)
  }

  /**
   Exemptions only ever remove sink reports, and exactly those of exempt sinks: what a policy
   reports about the frontend under exemptions is what it reports without, except for sink
   reports, which stay if and only if they are about some sink that is not exempt.
   */
  lemma FrontendUnderExemptions(env: Env, m: Manifest, x: Exemptions, policy: Policy, f: Finding)
    ensures f in EvalFrontend(env, m, x, policy) <==>
              || (exists rule :: rule in policy.rules && rule.kind != DenyRawHTMLSinks && f in EvalFrontendRule(env, m, NO_EXEMPTIONS, policy, rule))
              || (exists rule, sink :: ReportsSink(env, m, policy, rule, sink, f) && !Exempt(x, sink))
  {
    var eval := rule => EvalFrontendRule(env, m, x, policy, rule);
    ForRulesHas(policy.rules, eval, f);
    assert EvalFrontend(env, m, x, policy) == ForRules(policy.rules, eval);
    forall rule | rule in policy.rules
      ensures f in eval(rule) <==>
              if rule.kind == DenyRawHTMLSinks then exists sink :: ReportsSink(env, m, policy, rule, sink, f) && !Exempt(x, sink)
              else f in EvalFrontendRule(env, m, NO_EXEMPTIONS, policy, rule)
    {
      RuleUnderExemptions(env, m, x, policy, rule, f);
    }
  }

  lemma RuleUnderExemptions(env: Env, m: Manifest, x: Exemptions, policy: Policy, rule: Rule, f: Finding)
    requires rule in policy.rules
    ensures f in EvalFrontendRule(env, m, x, policy, rule) <==>
            if rule.kind == DenyRawHTMLSinks then exists sink :: ReportsSink(env, m, policy, rule, sink, f) && !Exempt(x, sink)
            else f in EvalFrontendRule(env, m, NO_EXEMPTIONS, policy, rule)
  {
    if rule.kind == DenyRawHTMLSinks {
      EvalSinksHas(env, m.frontend.sinks, policy, rule, x, f);
      if sink :| sink in m.frontend.sinks && !Exempt(x, sink) && f == SinkFinding(env, policy, rule, sink) {
        assert ReportsSink(env, m, policy, rule, sink, f);
      }
    }
  }

  // ----------------------------------------------------- where exemptions come from

  /** A rule that lets a sink through: an allowlist entry, or a complete, unexpired exception for its fingerprint. */
  ghost predicate LetsThrough(env: Env, rule: Rule, sink: Sink) {
    || (rule.kind == AllowRawHTML && exists entry :: entry in AllowEntries(rule.value) && Names(entry, sink))
    || (rule.kind == ExceptRawHTML
        && var e := ExceptionOf(rule, "");
           && e.fingerprint == sink.fingerprint && e.fingerprint != "" && e.owner != "" && e.justification != "" && e.sanitizer != ""
           && env.expiry(e.expires).Some? && env.expiry(e.expires).value > env.now)
  }

  predicate Names(entry: string, sink: Sink) {
    SinkAllowed({entry}, sink)
  }

  lemma AllowedByEntry(allow: set<string>, sink: Sink) returns (entry: string)
    requires SinkAllowed(allow, sink)
    ensures entry in allow && Names(entry, sink)
  {
    var field := TrimSpace(sink.field);
    var normalized := TrimBraces(field);
    if TrimSpace(sink.source) in allow {
      entry := TrimSpace(sink.source);
    } else if sink.ownerId + ":" + field in allow {
      entry := sink.ownerId + ":" + field;
    } else {
      entry := sink.ownerId + ":" + normalized;
    }
  }

  lemma {:induction false} RuleAllowsFrom(rules: seq<Rule>, entry: string) returns (rule: Rule)
    requires entry in RuleAllows(rules)
    ensures rule in rules && rule.kind == AllowRawHTML && entry in AllowEntries(rule.value)
  {
    if rules[0].kind == AllowRawHTML && entry in AllowEntries(rules[0].value) {
      rule := rules[0];
    } else {
      rule := RuleAllowsFrom(rules[1..], entry);
    }
  }

  lemma {:induction false} AllowlistFrom(policies: seq<Policy>, entry: string) returns (p: Policy, rule: Rule)
    requires entry in Allowlist(policies)
    ensures p in policies && HasFrontendSelector(p) && rule in p.rules && rule.kind == AllowRawHTML && entry in AllowEntries(rule.value)
  {
    if HasFrontendSelector(policies[0]) && entry in RuleAllows(policies[0].rules) {
      p := policies[0];
      rule := RuleAllowsFrom(p.rules, entry);
    } else {
      p, rule := AllowlistFrom(policies[1..], entry);
    }
  }

  lemma {:induction false} ActiveFrom(env: Env, sinks: seq<Sink>, es: seq<Exception>, fingerprint: string) returns (e: Exception)
    requires fingerprint in ActiveFingerprints(env, sinks, es)
    ensures e in es && e.fingerprint == fingerprint && ClassifyException(env, sinks, e).Active?
  {
    if ClassifyException(env, sinks, es[0]).Active? && es[0].fingerprint == fingerprint {
      e := es[0];
    } else {
      e := ActiveFrom(env, sinks, es[1..], fingerprint);
    }
  }

  lemma {:induction false} RuleExceptionFrom(rules: seq<Rule>, policy: string, e: Exception) returns (rule: Rule)
    requires e in RuleExceptions(rules, policy)
    ensures rule in rules && rule.kind == ExceptRawHTML && e == ExceptionOf(rule, policy)
  {
    if rules[0].kind == ExceptRawHTML && e == ExceptionOf(rules[0], policy) {
      rule := rules[0];
    } else {
      rule := RuleExceptionFrom(rules[1..], policy, e);
    }
  }

  lemma {:induction false} ExceptionFrom(policies: seq<Policy>, e: Exception) returns (p: Policy, rule: Rule)
    requires e in AllExceptions(policies)
    ensures p in policies && HasFrontendSelector(p) && rule in p.rules && rule.kind == ExceptRawHTML && e == ExceptionOf(rule, p.name)
  {
    if HasFrontendSelector(policies[0]) && e in RuleExceptions(policies[0].rules, policies[0].name) {
      p := policies[0];
      rule := RuleExceptionFrom(p.rules, p.name, e);
    } else {
      p, rule := ExceptionFrom(policies[1..], e);
    }
  }

  lemma {:induction false} RuleAllowsHas(rules: seq<Rule>, rule: Rule)
    requires rule in rules && rule.kind == AllowRawHTML
    ensures AllowEntries(rule.value) <= RuleAllows(rules)
  {
    if rules[0] != rule {
      RuleAllowsHas(rules[1..], rule);
    }
  }

  lemma {:induction false} AllowlistHas(policies: seq<Policy>, p: Policy, rule: Rule)
    requires p in policies && HasFrontendSelector(p) && rule in p.rules && rule.kind == AllowRawHTML
    ensures AllowEntries(rule.value) <= Allowlist(policies)
  {
    if policies[0] == p {
      RuleAllowsHas(p.rules, rule);
    } else {
      AllowlistHas(policies[1..], p, rule);
    }
  }

  lemma {:induction false} ActiveHas(env: Env, sinks: seq<Sink>, es: seq<Exception>, e: Exception)
    requires e in es && ClassifyException(env, sinks, e).Active?
    ensures e.fingerprint in ActiveFingerprints(env, sinks, es)
  {
    if es[0] != e {
      ActiveHas(env, sinks, es[1..], e);
    }
  }

  /** An allow rule of a frontend policy names the sink. */
  ghost predicate AllowedBy(policies: seq<Policy>, p: Policy, rule: Rule, sink: Sink) {
    && p in policies && HasFrontendSelector(p) && rule in p.rules && rule.kind == AllowRawHTML
    && exists entry :: entry in AllowEntries(rule.value) && Names(entry, sink)
  }

  /** Exactly when a sink is exempt: an allow rule names it, or a collected exception for its fingerprint is active. */
  lemma ExemptIff(env: Env, sinks: seq<Sink>, policies: seq<Policy>, sink: Sink)
    ensures Exempt(ExemptionsOf(env, sinks, policies), sink) <==>
              || (exists p, rule :: AllowedBy(policies, p, rule, sink))
              || (exists e :: e in CollectExceptions(policies) && ClassifyException(env, sinks, e).Active? && e.fingerprint == sink.fingerprint)
  {
    var x := ExemptionsOf(env, sinks, policies);
    if p, rule :| AllowedBy(policies, p, rule, sink) {
      AllowlistHas(policies, p, rule);
      var entry :| entry in AllowEntries(rule.value) && Names(entry, sink);
      assert entry in x.allow;
    }
    if e :| e in CollectExceptions(policies) && ClassifyException(env, sinks, e).Active? && e.fingerprint == sink.fingerprint {
      ActiveHas(env, sinks, CollectExceptions(policies), e);
    }
    if SinkAllowed(x.allow, sink) {
      var entry := AllowedByEntry(x.allow, sink);
      var p, rule := AllowlistFrom(policies, entry);
      assert AllowedBy(policies, p, rule, sink);
    } else if sink.fingerprint in x.active {
      var e := ActiveFrom(env, sinks, CollectExceptions(policies), sink.fingerprint);
    }
  }

  /** A sink is exempt only because a rule of some frontend policy lets it through. */
  lemma ExemptFrom(env: Env, sinks: seq<Sink>, policies: seq<Policy>, sink: Sink) returns (p: Policy, rule: Rule)
    requires Exempt(ExemptionsOf(env, sinks, policies), sink)
    ensures p in policies && HasFrontendSelector(p) && rule in p.rules && LetsThrough(env, rule, sink)
  {
    var x := ExemptionsOf(env, sinks, policies);
    if SinkAllowed(x.allow, sink) {
      var entry := AllowedByEntry(x.allow, sink);
      p, rule := AllowlistFrom(policies, entry);
    } else {
      var e := ActiveFrom(env, sinks, CollectExceptions(policies), sink.fingerprint);
      KeptIsFrom(AllExceptions(policies), ExceptionKey, e);
      p, rule := ExceptionFrom(policies, e);
      assert MissingFields(e) == [];
    }
  }
}
