/**
 The entities of internal/auditspec and internal/securitymanifest: policies, findings and the
 posture manifest they are matched against.
 */
module AuditTypes {
  import opened Text

  datatype SelectorKind =
    | RouteSelector | EndpointSelector | ContractSelector | ObservabilitySelector | FrontendSelector | UnknownSelector

  datatype Selector = Selector(raw: string, kind: SelectorKind)

  datatype RuleKind =
    | RequireCSRF | RequireAnyGuard | RequireGuard | DenyPublic | MaxBody | RequireRequestLimits
    | RequireHeader | CheckSecurityHeaders | CheckCORS | RequireClientRouteGuards | NoSecretsInBundle
    | DenyRawHTMLSinks | AllowRawHTML | ExceptRawHTML | DenyRolelessContract | RequireVerifiedGuards
    | CheckObservability | Waive | OtherKind(name: string)

  datatype Rule = Rule(kind: RuleKind, value: string, code: string, source: string, attrs: map<string, string>)

  datatype Policy = Policy(
    name: string, parents: seq<string>, selectors: seq<Selector>, rules: seq<Rule>, source: string, builtin: bool)

  datatype Severity = Error | Warning | Info

  datatype CodeSource = Unspecified | BaselineDefault | RuleDefault | PolicyOverride | PolicyDefault | PolicyResolution

  datatype Suppression = Suppression(owner: string, justification: string, expires: string, ticket: string, digestScope: string)

  datatype Finding = Finding(
    code: string, severity: Severity, codeSource: CodeSource, target: string, policy: string,
    rule: Option<RuleKind>, message: string, source: string, suppression: Option<Suppression>)

  /** What a message says; its wording is a parameter. */
  datatype Message =
    | RuleTakesNoCode(rule: RuleKind)
    | UnknownRuleCode(rule: RuleKind, code: string)
    | IncompatibleRuleCode(rule: RuleKind, code: string)
    | LoweredSeverity(rule: RuleKind, code: string)
    | ReusesBaselineName(policy: string)
    | DeclaredTwice(policy: string)
    | UnrecognizedSelector(policy: string, raw: string)
    | ExtendsCycle(policy: string)
    | ExtendsUndefined(policy: string, parent: string)
    | MatchedNothing(policy: string)
    | NoCSRF(kind: string, id: string)
    | EndpointDenied(kind: string, id: string)
    | EndpointLacksGuard(kind: string, id: string, guard: string)
    | EndpointPublic(kind: string, id: string)
    | BodyTooLarge(kind: string, id: string, bytes: int, limit: int)
    | NoRequestLimit(kind: string, id: string)
    | LimitAfterParse(kind: string, id: string)
    | UnboundedMultipart(kind: string, id: string)
    | RouteLacksGuard(route: string, guard: string)
    | RouteDenied(route: string)
    | RoutePublic(route: string)
    | GuardUnverified(guard: string)
    | Roleless(kind: string, name: string)
    | TraceExposed(path: string)
    | TraceOriginUnchecked(path: string)
    | TraceNoContentType(path: string)
    | TraceNoBodyLimit(path: string)
    | TraceNoBatchLimit(path: string)
    | TraceAbsoluteSource(path: string)
    | CredentialedWildcard
    | WildcardOrigin
    | SecretInBundle(kind: string)
    | HeaderMissing(header: string)
    | ClientRouteUnguarded(route: string)
    | SinkNotAllowed(owner: string, field: string, fingerprint: string)
    | ExceptionLacks(fields: seq<string>)
    | ExceptionBadDate(expires: string)
    | ExceptionExpired(fingerprint: string, expires: string)
    | ExceptionUnmatched(fingerprint: string)
    | WaiverLacks(fields: seq<string>)
    | WaiverBadDate(expires: string)
    | WaiverExpired(code: string, expires: string)
    | WaiverPolicyDrift(pinned: string, current: string)
    | WaiverPostureDrift(pinned: string, current: string)
    | WaiverUnmatched(code: string, target: string)

  // ------------------------------------------------------------------ manifest

  datatype GuardEvidence = GuardEvidence(id: string, bindingStatus: string, runtimeTestFixture: string)

  datatype RequestLimits = RequestLimits(rawBodyBytes: int, multipartEnabled: bool, multipartMaxBytes: int, installedBeforeParse: bool)

  datatype Endpoint = Endpoint(
    id: string, kind: string, httpMethod: string, path: string, guards: seq<string>, guardEvidence: seq<GuardEvidence>,
    csrf: bool, bodyLimitBytes: int, requestLimits: RequestLimits, public: bool, defaultDeny: bool, source: string)

  datatype Route = Route(
    route: string, guards: seq<string>, guardEvidence: seq<GuardEvidence>, public: bool, defaultDeny: bool, source: string)

  datatype Contract = Contract(name: string, kind: string, roles: seq<string>, declarationSource: string, exposureSource: string)

  datatype Observability = Observability(
    id: string, kind: string, path: string, mounted: bool, accessPolicy: string, buildMode: string, devOnly: bool,
    allowedOrigins: seq<string>, contentTypeRequired: string, bodyLimitBytes: int, batchLimit: int,
    exportsAbsoluteSourcePaths: bool)

  datatype UnguardedRoute = UnguardedRoute(route: string, source: string)

  datatype BundleLeak = BundleLeak(source: string, kind: string)

  datatype Sink = Sink(ownerId: string, field: string, source: string, fingerprint: string)

  datatype Header = Header(name: string, value: string)

  datatype Frontend = Frontend(unguardedRoutes: seq<UnguardedRoute>, bundleSecrets: seq<BundleLeak>, sinks: seq<Sink>, headers: seq<Header>)

  datatype CORS = CORS(enabled: bool, allowsAnyOrigin: bool, allowCredentials: bool, origin: string)

  datatype Manifest = Manifest(
    endpoints: seq<Endpoint>, routes: seq<Route>, contracts: seq<Contract>, observability: seq<Observability>,
    frontend: Frontend, buildMode: string, cors: CORS)

  // --------------------------------------------------------------- environment

  /**
   What the engine takes from elsewhere: the diagnostic registry, message wording, date parsing,
   the clock, case mapping, and the header taxonomy.
   */
  datatype Env = Env(
    registry: string -> Option<Severity>,
    wording: Message -> string,
    expiry: string -> Option<int>,
    now: int,
    lower: string -> string,
    upper: string -> string,
    equalFold: (string, string) -> bool,
    securityHeaders: (Frontend, Policy, string) -> seq<Finding>)

  /** severityFor: unregistered codes are errors. */
  function SeverityFor(env: Env, code: string): Severity {
    if env.registry(code).Some? then env.registry(code).value else Error
  }

  function SeverityRank(s: Severity): nat {
    match s
    case Error => 0
    case Warning => 1
    case Info => 2
  }

  /** A code that cannot be confused inside a report key. */
  predicate PlainCode(code: string) {
    '\0' !in code
  }

  predicate PlainRules(rules: seq<Rule>) {
    forall r | r in rules :: PlainCode(r.code)
  }

  /** A finding as it is raised: under a plain code, with the registry severity of its code and not suppressed. */
  predicate Fresh(env: Env, f: Finding) {
    f.severity == SeverityFor(env, f.code) && f.suppression.None? && PlainCode(f.code)
  }

  predicate AllFresh(env: Env, fs: seq<Finding>) {
    forall i | 0 <= i < |fs| :: Fresh(env, fs[i])
  }

  /** The header checks, which are not part of this model, raise findings like all others. */
  ghost predicate HeadersFresh(env: Env) {
    forall surface, policy, mode :: AllFresh(env, env.securityHeaders(surface, policy, mode))
  }

  function Attr(rule: Rule, key: string): string {
    if key in rule.attrs then TrimSpace(rule.attrs[key]) else ""
  }

  // --------------------------------------------------------------------- codes

  const ACTION_MISSING_CSRF := "audit_action_missing_csrf"
  const API_MISSING_CSRF := "audit_api_missing_csrf"
  const COMMAND_MISSING_CSRF := "audit_command_missing_csrf"
  const GUARDLESS := "audit_guardless_endpoint_page"
  const PUBLIC_BY_OMISSION := "audit_api_public_by_omission"
  const GUARD_MISSING := "audit_required_guard_missing"
  const PUBLIC_NOT_ALLOWED := "audit_public_not_allowed"
  const MAX_BODY := "audit_max_body_exceeds_policy"
  const HEADERS_MISSING := "audit_headers_missing"
  const HEADERS_RUNTIME_MISSING := "audit_headers_runtime_missing"
  const BUNDLE_SECRET := "audit_bundle_secret"
  const RAW_HTML_SINK := "audit_raw_html_sink"
  const ROLELESS := "audit_contract_roleless"
  const CLIENT_ROUTE := "audit_client_route_unguarded"
  const GUARD_UNVERIFIED := "audit_guard_unverified"
  const LIMIT_MISSING := "audit_request_limit_missing"
  const LIMIT_PHASE := "audit_request_limit_phase_unsafe"
  const LIMIT_MULTIPART := "audit_request_limit_unbounded_multipart"
  const TRACE_EXPOSED := "audit_observability_production_exposed"
  const TRACE_ORIGIN := "audit_observability_origin_unchecked"
  const TRACE_CONTENT_TYPE := "audit_observability_content_type_missing"
  const TRACE_BODY := "audit_observability_body_limit_missing"
  const TRACE_BATCH := "audit_observability_batch_limit_missing"
  const TRACE_SOURCE := "audit_observability_absolute_source"
  const CORS_CREDENTIALED := "audit_cors_credentialed_wildcard"
  const CORS_WILDCARD := "audit_cors_wildcard_origin"
  const EXCEPTION_MALFORMED := "audit_raw_html_exception_malformed"
  const EXCEPTION_EXPIRED := "audit_raw_html_exception_expired"
  const EXCEPTION_UNMATCHED := "audit_raw_html_exception_unmatched"
  const WAIVER_MALFORMED := "audit_waiver_malformed"
  const WAIVER_EXPIRED := "audit_waiver_expired"
  const WAIVER_DIGEST := "audit_waiver_digest_mismatch"
  const WAIVER_UNMATCHED := "audit_waiver_unmatched"
  const BASELINE_OVERRIDE := "policy_baseline_override"
  const DUPLICATE_NAME := "policy_duplicate_name"
  const UNKNOWN_SELECTOR := "policy_unknown_selector"
  const EXTENDS_CYCLE := "policy_extends_cycle"
  const UNKNOWN_EXTENDS := "policy_unknown_extends"
  const MATCHED_NOTHING := "policy_selector_matched_nothing"
  const CODE_INCOMPATIBLE := "policy_rule_code_incompatible"
  const CODE_UNKNOWN := "policy_rule_code_unknown"
  const CODE_LOWERED := "policy_rule_code_severity_lowered"

  // -------------------------------------------------------- codes as key parts

  lemma CsrfCodesPlain()
    ensures PlainCode(ACTION_MISSING_CSRF) && PlainCode(API_MISSING_CSRF) && PlainCode(COMMAND_MISSING_CSRF)
  {
  }

  lemma GuardCodesPlain()
    ensures PlainCode(GUARDLESS) && PlainCode(PUBLIC_BY_OMISSION) && PlainCode(GUARD_MISSING)
  {
  }

  lemma AccessCodesPlain()
    ensures PlainCode(ACTION_MISSING_CSRF) && PlainCode(API_MISSING_CSRF) && PlainCode(COMMAND_MISSING_CSRF)
    ensures PlainCode(GUARDLESS) && PlainCode(PUBLIC_BY_OMISSION) && PlainCode(GUARD_MISSING)
    ensures PlainCode(PUBLIC_NOT_ALLOWED) && PlainCode(MAX_BODY)
  {
    CsrfCodesPlain();
    GuardCodesPlain();
  }

  lemma HeaderCodesPlain()
    ensures PlainCode(HEADERS_MISSING) && PlainCode(HEADERS_RUNTIME_MISSING) && PlainCode(ROLELESS)
  {
  }

  lemma SurfaceCodesPlain()
    ensures PlainCode(HEADERS_MISSING) && PlainCode(HEADERS_RUNTIME_MISSING) && PlainCode(ROLELESS)
    ensures PlainCode(BUNDLE_SECRET) && PlainCode(RAW_HTML_SINK) && PlainCode(CLIENT_ROUTE) && PlainCode(GUARD_UNVERIFIED)
  {
    HeaderCodesPlain();
  }

  lemma LimitCodesPlain()
    ensures PlainCode(LIMIT_MISSING) && PlainCode(LIMIT_PHASE) && PlainCode(LIMIT_MULTIPART)
  {
  }

  lemma ReachCodesPlain()
    ensures PlainCode(TRACE_EXPOSED) && PlainCode(TRACE_ORIGIN) && PlainCode(TRACE_SOURCE)
  {
  }

  lemma TraceCodesPlain()
    ensures PlainCode(TRACE_EXPOSED) && PlainCode(TRACE_ORIGIN) && PlainCode(TRACE_SOURCE)
    ensures PlainCode(TRACE_CONTENT_TYPE) && PlainCode(TRACE_BODY) && PlainCode(TRACE_BATCH)
  {
    ReachCodesPlain();
  }

  lemma CorsCodesPlain()
    ensures PlainCode(CORS_CREDENTIALED) && PlainCode(CORS_WILDCARD)
  {
  }

  lemma ExceptionCodesPlain()
    ensures PlainCode(EXCEPTION_MALFORMED) && PlainCode(EXCEPTION_EXPIRED) && PlainCode(EXCEPTION_UNMATCHED)
  {
  }

  lemma ResolutionCodesPlain()
    ensures PlainCode(BASELINE_OVERRIDE) && PlainCode(DUPLICATE_NAME) && PlainCode(UNKNOWN_SELECTOR) && PlainCode(EXTENDS_CYCLE)
    ensures PlainCode(UNKNOWN_EXTENDS) && PlainCode(MATCHED_NOTHING)
  {
  }

  lemma OverrideCodesPlain()
    ensures PlainCode(CODE_INCOMPATIBLE) && PlainCode(CODE_UNKNOWN) && PlainCode(CODE_LOWERED)
  {
  }
}
