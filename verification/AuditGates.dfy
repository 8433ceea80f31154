/**
 What the shipped baseline demands, stated on the manifest alone: with no configuration the audit
 reports nothing if and only if the posture is secure in this sense, and what is in force is
 always enforced.
 */
module AuditGates {
  import opened Text
  import opened Dedupe
  import opened AuditTypes
  import opened AuditMatch
  import opened AuditCodes
  import opened AuditResolve
  import opened AuditRules
  import opened AuditBaseline
  import W = AuditWaivers
  import E = AuditEngine

  // ----------------------------------------------------------- a secure posture

  predicate Known(kind: string) {
    kind == "action" || kind == "api" || kind == "fragment" || kind == "command" || kind == "query"
  }

  /** The raw body cap that counts for an endpoint. */
  function BodyCap(e: Endpoint): int {
    if e.requestLimits.rawBodyBytes == 0 then e.bodyLimitBytes else e.requestLimits.rawBodyBytes
  }

  /** A body cap, and, where a request-limit posture is recorded, one installed before parsing with multipart bounded. */
  predicate Bounded(e: Endpoint) {
    && BodyCap(e) > 0
    && (e.requestLimits.rawBodyBytes > 0 ==>
        && e.requestLimits.installedBeforeParse
        && (e.requestLimits.multipartEnabled ==> e.requestLimits.multipartMaxBytes > 0))
  }

  predicate GuardsVerified(guards: seq<GuardEvidence>) {
    forall g | g in guards :: g.bindingStatus != "unverified-app-owned" && g.runtimeTestFixture != "unverified-app-owned"
  }

  predicate EndpointSecure(env: Env, e: Endpoint) {
    && (e.kind == "action" || e.kind == "command" || (e.kind == "api" && MethodRequiresCSRF(env, e.httpMethod)) ==> e.csrf)
    && (Known(e.kind) ==> !e.defaultDeny && Bounded(e))
    && GuardsVerified(e.guardEvidence)
  }

  predicate TraceSecure(env: Env, o: Observability) {
    && (o.mounted ==> o.devOnly && !env.equalFold(o.buildMode, "production") && ChecksOrigin(env, o))
    && (o.kind == "browser-ingest" ==> o.contentTypeRequired != "" && o.bodyLimitBytes > 0 && o.batchLimit > 0)
    && !o.exportsAbsoluteSourcePaths
  }

  predicate FrontendSecure(env: Env, m: Manifest) {
    && m.frontend.bundleSecrets == [] && m.frontend.unguardedRoutes == [] && m.frontend.sinks == []
    && env.securityHeaders(m.frontend, Headers(), m.buildMode) == []
    && !(m.cors.enabled && m.cors.allowsAnyOrigin)
  }

  predicate Secure(env: Env, m: Manifest) {
    && (forall e | e in m.endpoints :: EndpointSecure(env, e))
    && (forall r | r in m.routes :: GuardsVerified(r.guardEvidence))
    && (forall c | c in m.contracts :: c.roles != [])
    && (forall o | o in m.observability :: TraceSecure(env, o))
    && FrontendSecure(env, m)
  }

  // -------------------------------------------------------- whom selectors match

  lemma {:induction false} IndexOfFirst(prefix: string, c: char, rest: string)
    requires c !in prefix
    ensures IndexOf(prefix + [c] + rest, c) == |prefix|
  {
    var s := prefix + [c] + rest;
    if prefix != "" {
      assert s[1..] == prefix[1..] + [c] + rest;
      IndexOfFirst(prefix[1..], c, rest);
    }
  }

  lemma KindSelector(prefix: string, kind: string)
    requires prefix != "" && ':' !in prefix && EndpointKind(prefix) == Some(kind)
    ensures SplitEndpointSelector(prefix + ":*") == Some((kind, "*"))
  {
    var raw := prefix + ":*";
    assert raw == prefix + [':'] + "*";
    IndexOfFirst(prefix, ':', "*");
    assert raw[..|prefix|] == prefix && raw[|prefix| + 1..] == "*";
  }

  /** A selector of the form kind:* selects exactly the endpoints of that kind. */
  lemma SelectsKind(s: Selector, prefix: string, kind: string, e: Endpoint)
    requires prefix != "" && ':' !in prefix && EndpointKind(prefix) == Some(kind)
    requires s.kind == EndpointSelector && s.raw == prefix + ":*"
    ensures EndpointSelected(s, e) <==> e.kind == kind
  {
    KindSelector(prefix, kind);
  }

  lemma ActSelects(e: Endpoint)
    ensures EndpointSelected(ACT, e) <==> e.kind == "action"
  {
    assert ACT.raw == "act" + ":*";
    SelectsKind(ACT, "act", "action", e);
  }

  lemma ApiSelects(e: Endpoint)
    ensures EndpointSelected(API, e) <==> e.kind == "api"
  {
    assert API.raw == "api" + ":*";
    SelectsKind(API, "api", "api", e);
  }

  lemma FragmentSelects(e: Endpoint)
    ensures EndpointSelected(FRAGMENT, e) <==> e.kind == "fragment"
  {
    assert FRAGMENT.raw == "fragment" + ":*";
    SelectsKind(FRAGMENT, "fragment", "fragment", e);
  }

  lemma CommandSelects(e: Endpoint)
    ensures EndpointSelected(COMMAND, e) <==> e.kind == "command"
  {
    assert COMMAND.raw == "command" + ":*";
    SelectsKind(COMMAND, "command", "command", e);
  }

  lemma QuerySelects(e: Endpoint)
    ensures EndpointSelected(QUERY, e) <==> e.kind == "query"
  {
    assert QUERY.raw == "query" + ":*";
    SelectsKind(QUERY, "query", "query", e);
  }

  /** A policy with five endpoint selectors. */
  lemma FiveSelectors(p: Policy, e: Endpoint, a: Selector, b: Selector, c: Selector, d: Selector, f: Selector)
    requires p.selectors == [a, b, c, d, f]
    ensures MatchesEndpoint(p, e) <==>
              EndpointSelected(a, e) || EndpointSelected(b, e) || EndpointSelected(c, e) || EndpointSelected(d, e) || EndpointSelected(f, e)
  {
    assert forall s :: s in p.selectors <==> s == a || s == b || s == c || s == d || s == f;
  }

  lemma LimitsMatch(e: Endpoint)
    ensures MatchesEndpoint(Limits(), e) <==> Known(e.kind)
  {
    FiveSelectors(Limits(), e, ACT, API, FRAGMENT, COMMAND, QUERY);
    ActSelects(e);
    ApiSelects(e);
    FragmentSelects(e);
    CommandSelects(e);
    QuerySelects(e);
  }

  lemma EverythingRouted(path: string)
    ensures MatchRouteGlob("/**", path)
  {
    assert "/**"[1..] == "**";
    assert TrimChar("/**", '/') == "**";
    SplitNoSep("**", '/');
  }

  lemma AllContracts(c: Contract)
    ensures ContractSelected("contract:*", c)
  {
    assert TrimPrefix("contract:*", "contract") == ":*";
    assert TrimPrefix(":*", ":") == "*";
  }

  lemma AllTraces(o: Observability)
    ensures ObservabilitySelected("observability", o)
  {
    assert TrimPrefix("observability", "observability") == "";
    assert TrimPrefix("", ":") == "";
  }

  /** A policy with one selector. */
  lemma OneSelector(p: Policy, s: Selector)
    requires p.selectors == [s]
    ensures forall e :: MatchesEndpoint(p, e) <==> EndpointSelected(s, e)
    ensures HasFrontendSelector(p) <==> s.kind == FrontendSelector
  {
    assert forall t :: t in p.selectors <==> t == s;
  }

  // -------------------------------------------------------- what a posture is faulted for

  /** No cap, a cap installed too late and unbounded multipart are told apart. */
  predicate LimitFault(e: Endpoint, code: string) {
    || (code == LIMIT_MISSING && BodyCap(e) <= 0)
    || (e.requestLimits.rawBodyBytes > 0
        && ((code == LIMIT_PHASE && !e.requestLimits.installedBeforeParse)
            || (code == LIMIT_MULTIPART && e.requestLimits.multipartEnabled && e.requestLimits.multipartMaxBytes <= 0)))
  }

  predicate CsrfFault(env: Env, e: Endpoint, code: string) {
    && !e.csrf
    && ((code == ACTION_MISSING_CSRF && e.kind == "action")
        || (code == COMMAND_MISSING_CSRF && e.kind == "command")
        || (code == API_MISSING_CSRF && e.kind == "api" && MethodRequiresCSRF(env, e.httpMethod)))
  }

  predicate GuardFault(e: Endpoint, code: string) {
    && e.defaultDeny
    && ((code == PUBLIC_BY_OMISSION && e.kind == "api") || (code == GUARDLESS && Known(e.kind) && e.kind != "api"))
  }

  /** The target names a guard of the owner whose evidence is not verified. */
  ghost predicate EvidenceFault(guards: seq<GuardEvidence>, owner: string, target: string) {
    exists g :: g in guards && Unverified(g) && target == owner + "#guard:" + g.id
  }

  ghost predicate EndpointFault(env: Env, e: Endpoint, code: string, target: string) {
    || (target == EndpointTarget(e) && (CsrfFault(env, e, code) || GuardFault(e, code) || (Known(e.kind) && LimitFault(e, code))))
    || (code == GUARD_UNVERIFIED && EvidenceFault(e.guardEvidence, EndpointTarget(e), target))
  }

  ghost predicate RouteFault(r: Route, code: string, target: string) {
    code == GUARD_UNVERIFIED && EvidenceFault(r.guardEvidence, RouteTarget(r), target)
  }

  predicate ContractFault(c: Contract, code: string, target: string) {
    code == ROLELESS && c.roles == [] && target == "contract:" + c.name
  }

  /** Each weakness of a trace endpoint has its own code. */
  predicate TraceFault(env: Env, o: Observability, code: string, target: string) {
    && target == "observability:" + o.id
    && ((code == TRACE_EXPOSED && o.mounted && (!o.devOnly || env.equalFold(o.buildMode, "production")))
        || (code == TRACE_ORIGIN && o.mounted && !ChecksOrigin(env, o))
        || IngestFault(o, code)
        || (code == TRACE_SOURCE && o.exportsAbsoluteSourcePaths))
  }

  predicate IngestFault(o: Observability, code: string) {
    && o.kind == "browser-ingest"
    && ((code == TRACE_CONTENT_TYPE && o.contentTypeRequired == "")
        || (code == TRACE_BODY && o.bodyLimitBytes <= 0)
        || (code == TRACE_BATCH && o.batchLimit <= 0))
  }

  /** A wildcard origin is one code with credentials and another without. */
  predicate CorsFault(cors: CORS, code: string, target: string) {
    target == "cors" && cors.enabled && cors.allowsAnyOrigin && code == if cors.allowCredentials then CORS_CREDENTIALED else CORS_WILDCARD
  }

  ghost predicate SurfaceFault(m: Manifest, code: string, target: string) {
    || (code == BUNDLE_SECRET && target == "frontend" && m.frontend.bundleSecrets != [])
    || (code == RAW_HTML_SINK && target == "frontend" && m.frontend.sinks != [])
    || (code == CLIENT_ROUTE && exists r :: r in m.frontend.unguardedRoutes && target == "route:" + r.route)
  }

  ghost predicate FrontendFault(env: Env, m: Manifest, code: string, target: string) {
    || SurfaceFault(m, code, target)
    || Cites(env.securityHeaders(m.frontend, Headers(), m.buildMode), code, target)
    || CorsFault(m.cors, code, target)
  }

  ghost predicate Fault(env: Env, m: Manifest, code: string, target: string) {
    || (exists e :: e in m.endpoints && EndpointFault(env, e, code, target))
    || (exists r :: r in m.routes && RouteFault(r, code, target))
    || (exists c :: c in m.contracts && ContractFault(c, code, target))
    || (exists o :: o in m.observability && TraceFault(env, o, code, target))
    || FrontendFault(env, m, code, target)
  }

  // --------------------------------------------------------------- what is cited

  /** Some finding carries the code and the target. */
  ghost predicate Cites(fs: seq<Finding>, code: string, target: string) {
    exists f :: f in fs && f.code == code && f.target == target
  }

  lemma CitesConcat(a: seq<Finding>, b: seq<Finding>, code: string, target: string)
    ensures Cites(a + b, code, target) <==> Cites(a, code, target) || Cites(b, code, target)
  {
    if f :| f in a && f.code == code && f.target == target {
      assert f in a + b;
    }
    if f :| f in b && f.code == code && f.target == target {
      assert f in a + b;
    }
  }

  lemma CitesOne(f: Finding, code: string, target: string)
    ensures Cites([f], code, target) <==> f.code == code && f.target == target
  {
    assert f in [f];
  }

  lemma CitesWhen(condition: bool, f: Finding, code: string, target: string)
    ensures Cites(When(condition, f), code, target) <==> condition && f.code == code && f.target == target
  {
    CitesOne(f, code, target);
  }

  lemma {:induction false} CitesRules(rules: seq<Rule>, eval: Rule -> seq<Finding>, code: string, target: string)
    ensures Cites(ForRules(rules, eval), code, target) <==> exists r :: r in rules && Cites(eval(r), code, target)
  {
    if rules != [] {
      CitesConcat(eval(rules[0]), ForRules(rules[1..], eval), code, target);
      CitesRules(rules[1..], eval, code, target);
      assert rules == [rules[0]] + rules[1..];
    }
  }

  lemma CitesEndpoint(env: Env, e: Endpoint, p: Policy, code: string, target: string)
    ensures Cites(EvalEndpoint(env, e, p), code, target) <==> exists r :: r in p.rules && Cites(EvalEndpointRule(env, e, p, r), code, target)
  {
    var eval := rule => EvalEndpointRule(env, e, p, rule);
    CitesRules(p.rules, eval, code, target);
    assert EvalEndpoint(env, e, p) == ForRules(p.rules, eval);
  }

  lemma {:induction false} CitesEvidence(env: Env, rule: Rule, p: Policy, owner: string, source: string, guards: seq<GuardEvidence>, code: string, target: string)
    ensures Cites(EvalGuardEvidence(env, rule, p, owner, source, guards), code, target) <==> code == rule.code && EvidenceFault(guards, owner, target)
  {
    if guards != [] {
      var g := guards[0];
      var f := MakeFinding(env, rule, p, owner + "#guard:" + g.id, source, GuardUnverified(g.id));
      CitesEvidence(env, rule, p, owner, source, guards[1..], code, target);
      CitesConcat(When(Unverified(g), f), EvalGuardEvidence(env, rule, p, owner, source, guards[1..]), code, target);
      CitesWhen(Unverified(g), f, code, target);
      assert guards == [g] + guards[1..];
    }
  }

  lemma CitesLimits(env: Env, rule: Rule, p: Policy, e: Endpoint, code: string, target: string)
    ensures Cites(EvalRequestLimits(env, rule, p, e), code, target) <==> target == EndpointTarget(e) && LimitFault(e, code)
  {
    var l := e.requestLimits;
    var missing := MakeFinding(env, rule.(code := LIMIT_MISSING), p, EndpointTarget(e), e.source, NoRequestLimit(e.kind, e.id));
    var phase := MakeFinding(env, rule.(code := LIMIT_PHASE), p, EndpointTarget(e), e.source, LimitAfterParse(e.kind, e.id));
    var multipart := MakeFinding(env, rule.(code := LIMIT_MULTIPART), p, EndpointTarget(e), e.source, UnboundedMultipart(e.kind, e.id));
    var late, unbounded := !l.installedBeforeParse, l.multipartEnabled && l.multipartMaxBytes <= 0;
    CitesOne(missing, code, target);
    CitesWhen(late, phase, code, target);
    CitesWhen(unbounded, multipart, code, target);
    CitesConcat(When(late, phase), When(unbounded, multipart), code, target);
  }

  // -------------------------------------------------------- endpoints, policy by policy

  /** A policy that matches the endpoint cites it. */
  ghost predicate OnEndpoint(env: Env, p: Policy, e: Endpoint, code: string, target: string) {
    MatchesEndpoint(p, e) && Cites(EvalEndpoint(env, e, p), code, target)
  }

  lemma CsrfCites(env: Env, e: Endpoint, p: Policy, rule: Rule, code: string, target: string)
    requires p.builtin && rule.kind == RequireCSRF && rule.code != ""
    ensures Cites(EvalEndpointRule(env, e, p, rule), code, target) <==>
              && target == EndpointTarget(e) && code == rule.code && !e.csrf
              && !(e.kind == "api" && rule.code == API_MISSING_CSRF && !MethodRequiresCSRF(env, e.httpMethod))
  {
    var exempt := e.kind == "api" && rule.code == API_MISSING_CSRF && !MethodRequiresCSRF(env, e.httpMethod);
    CitesWhen(!exempt && !e.csrf, MakeFinding(env, rule, p, EndpointTarget(e), e.source, NoCSRF(e.kind, e.id)), code, target);
  }

  lemma GuardCites(env: Env, e: Endpoint, p: Policy, rule: Rule, code: string, target: string)
    requires rule.kind == RequireAnyGuard
    ensures Cites(EvalEndpointRule(env, e, p, rule), code, target) <==> target == EndpointTarget(e) && code == rule.code && e.defaultDeny
  {
    CitesWhen(e.defaultDeny, MakeFinding(env, rule, p, EndpointTarget(e), e.source, EndpointDenied(e.kind, e.id)), code, target);
  }

  /** The two rules of actions, commands and APIs. */
  lemma CsrfAndGuard(env: Env, e: Endpoint, p: Policy, csrf: string, guard: string, code: string, target: string)
    requires p.builtin && csrf != "" && p.rules == [BaselineRule(RequireCSRF, csrf), BaselineRule(RequireAnyGuard, guard)]
    ensures Cites(EvalEndpoint(env, e, p), code, target) <==>
              && target == EndpointTarget(e)
              && ((code == csrf && !e.csrf && !(e.kind == "api" && csrf == API_MISSING_CSRF && !MethodRequiresCSRF(env, e.httpMethod)))
                  || (code == guard && e.defaultDeny))
  {
    var first, second := BaselineRule(RequireCSRF, csrf), BaselineRule(RequireAnyGuard, guard);
    CsrfCites(env, e, p, first, code, target);
    GuardCites(env, e, p, second, code, target);
    var eval := rule => EvalEndpointRule(env, e, p, rule);
    TwoRules(p.rules, eval, first, second, code, target);
    assert EvalEndpoint(env, e, p) == ForRules(p.rules, eval);
  }

  lemma TwoRules(rules: seq<Rule>, eval: Rule -> seq<Finding>, a: Rule, b: Rule, code: string, target: string)
    requires rules == [a, b]
    ensures Cites(ForRules(rules, eval), code, target) <==> Cites(eval(a), code, target) || Cites(eval(b), code, target)
  {
    CitesRules(rules, eval, code, target);
    assert rules[0] == a && rules[1] == b;
    assert forall r :: r in rules <==> r == a || r == b;
  }

  lemma ActionsCite(env: Env, e: Endpoint, code: string, target: string)
    ensures OnEndpoint(env, Actions(), e, code, target) <==>
              e.kind == "action" && target == EndpointTarget(e) && ((code == ACTION_MISSING_CSRF && !e.csrf) || (code == GUARDLESS && e.defaultDeny))
  {
    ActSelects(e);
    OneSelector(Actions(), ACT);
    CsrfAndGuard(env, e, Actions(), ACTION_MISSING_CSRF, GUARDLESS, code, target);
  }

  lemma CommandsCite(env: Env, e: Endpoint, code: string, target: string)
    ensures OnEndpoint(env, Commands(), e, code, target) <==>
              e.kind == "command" && target == EndpointTarget(e) && ((code == COMMAND_MISSING_CSRF && !e.csrf) || (code == GUARDLESS && e.defaultDeny))
  {
    CommandSelects(e);
    OneSelector(Commands(), COMMAND);
    CsrfAndGuard(env, e, Commands(), COMMAND_MISSING_CSRF, GUARDLESS, code, target);
  }

  lemma ApisCite(env: Env, e: Endpoint, code: string, target: string)
    ensures OnEndpoint(env, Apis(), e, code, target) <==>
              && e.kind == "api" && target == EndpointTarget(e)
              && ((code == API_MISSING_CSRF && !e.csrf && MethodRequiresCSRF(env, e.httpMethod)) || (code == PUBLIC_BY_OMISSION && e.defaultDeny))
  {
    ApiSelects(e);
    OneSelector(Apis(), API);
    CsrfAndGuard(env, e, Apis(), API_MISSING_CSRF, PUBLIC_BY_OMISSION, code, target);
  }

  lemma GuardOnlyCites(env: Env, e: Endpoint, p: Policy, s: Selector, code: string, target: string)
    requires p.selectors == [s] && p.rules == [BaselineRule(RequireAnyGuard, GUARDLESS)]
    ensures OnEndpoint(env, p, e, code, target) <==> EndpointSelected(s, e) && target == EndpointTarget(e) && code == GUARDLESS && e.defaultDeny
  {
    OneSelector(p, s);
    CitesEndpoint(env, e, p, code, target);
    var rule := BaselineRule(RequireAnyGuard, GUARDLESS);
    assert forall r :: r in p.rules <==> r == rule;
    CitesWhen(e.defaultDeny, MakeFinding(env, rule, p, EndpointTarget(e), e.source, EndpointDenied(e.kind, e.id)), code, target);
  }

  lemma GuardsCite(env: Env, e: Endpoint, code: string, target: string)
    ensures OnEndpoint(env, Guards(), e, code, target) <==> code == GUARD_UNVERIFIED && EvidenceFault(e.guardEvidence, EndpointTarget(e), target)
  {
    GuardsMatch(e);
    EvidenceCites(env, e, Guards(), BaselineRule(RequireVerifiedGuards, GUARD_UNVERIFIED), code, target);
  }

  lemma GuardsMatch(e: Endpoint)
    ensures MatchesEndpoint(Guards(), e)
  {
    EverythingRouted(e.path);
    assert ROUTES in Guards().selectors && EndpointSelected(ROUTES, e);
  }

  lemma EvidenceCites(env: Env, e: Endpoint, p: Policy, rule: Rule, code: string, target: string)
    requires p.rules == [rule] && rule.kind == RequireVerifiedGuards
    ensures Cites(EvalEndpoint(env, e, p), code, target) <==> code == rule.code && EvidenceFault(e.guardEvidence, EndpointTarget(e), target)
  {
    CitesEndpoint(env, e, p, code, target);
    assert forall r :: r in p.rules <==> r == rule;
    CitesEvidence(env, rule, p, EndpointTarget(e), e.source, e.guardEvidence, code, target);
  }

  lemma LimitsCite(env: Env, e: Endpoint, p: Policy, code: string, target: string)
    requires p.rules == [BaselineRule(RequireRequestLimits, "")] && (MatchesEndpoint(p, e) <==> Known(e.kind))
    ensures OnEndpoint(env, p, e, code, target) <==> Known(e.kind) && target == EndpointTarget(e) && LimitFault(e, code)
  {
    CitesEndpoint(env, e, p, code, target);
    var rule := BaselineRule(RequireRequestLimits, "");
    assert forall r :: r in p.rules <==> r == rule;
    CitesLimits(env, rule, p, e, code, target);
  }

  /** The other policies have no say about endpoints. */
  lemma NotOnEndpoint(env: Env, e: Endpoint, p: Policy, s: Selector, code: string, target: string)
    requires p.selectors == [s] && s.kind != EndpointSelector && s.kind != RouteSelector
    ensures !OnEndpoint(env, p, e, code, target)
  {
    OneSelector(p, s);
  }

  lemma AccessCites(env: Env, e: Endpoint, code: string, target: string)
    ensures (|| OnEndpoint(env, Actions(), e, code, target) || OnEndpoint(env, Fragments(), e, code, target)
             || OnEndpoint(env, Apis(), e, code, target) || OnEndpoint(env, Commands(), e, code, target)
             || OnEndpoint(env, Queries(), e, code, target)) <==>
            target == EndpointTarget(e) && (CsrfFault(env, e, code) || GuardFault(e, code))
  {
    ActionsCite(env, e, code, target);
    CommandsCite(env, e, code, target);
    ApisCite(env, e, code, target);
    FragmentSelects(e);
    GuardOnlyCites(env, e, Fragments(), FRAGMENT, code, target);
    QuerySelects(e);
    GuardOnlyCites(env, e, Queries(), QUERY, code, target);
  }

  lemma OthersSilent(env: Env, e: Endpoint, code: string, target: string)
    ensures !OnEndpoint(env, ContractRoles(), e, code, target) && !OnEndpoint(env, Traces(), e, code, target)
    ensures !OnEndpoint(env, FrontendSurface(), e, code, target) && !OnEndpoint(env, Headers(), e, code, target)
    ensures !OnEndpoint(env, CrossOrigin(), e, code, target)
  {
    NotOnEndpoint(env, e, ContractRoles(), CONTRACTS, code, target);
    NotOnEndpoint(env, e, Traces(), OBSERVABILITY, code, target);
    NotOnEndpoint(env, e, FrontendSurface(), FRONTEND, code, target);
    NotOnEndpoint(env, e, Headers(), FRONTEND, code, target);
    NotOnEndpoint(env, e, CrossOrigin(), FRONTEND, code, target);
  }

  /** What the baseline says about an endpoint, exactly. */
  lemma EndpointGates(env: Env, e: Endpoint, code: string, target: string)
    ensures (exists p :: p in Baseline() && OnEndpoint(env, p, e, code, target)) <==> EndpointFault(env, e, code, target)
  {
    AccessCites(env, e, code, target);
    GuardsCite(env, e, code, target);
    LimitsMatch(e);
    LimitsCite(env, e, Limits(), code, target);
    OthersSilent(env, e, code, target);
    Twelve(p => OnEndpoint(env, p, e, code, target));
  }

  lemma InBaseline()
    ensures forall p :: p in Baseline() <==>
              || p == Actions() || p == Fragments() || p == Apis() || p == Commands() || p == Queries() || p == ContractRoles()
              || p == Guards() || p == Traces() || p == FrontendSurface() || p == Headers() || p == Limits() || p == CrossOrigin()
  {
  }

  lemma Twelve(says: Policy -> bool)
    ensures (exists p :: p in Baseline() && says(p)) <==>
              || says(Actions()) || says(Fragments()) || says(Apis()) || says(Commands()) || says(Queries()) || says(ContractRoles())
              || says(Guards()) || says(Traces()) || says(FrontendSurface()) || says(Headers()) || says(Limits()) || says(CrossOrigin())
  {
    InBaseline();
  }

  // ------------------------------------------------- routes, contracts and traces

  ghost predicate OnRoute(env: Env, p: Policy, r: Route, code: string, target: string) {
    MatchesRoute(p, r) && Cites(EvalRoute(env, r, p), code, target)
  }

  lemma GuardsCiteRoute(env: Env, r: Route, code: string, target: string)
    ensures OnRoute(env, Guards(), r, code, target) <==> RouteFault(r, code, target)
  {
    EverythingRouted(r.route);
    assert ROUTES in Guards().selectors;
    EvidenceCitesRoute(env, r, Guards(), BaselineRule(RequireVerifiedGuards, GUARD_UNVERIFIED), code, target);
  }

  lemma EvidenceCitesRoute(env: Env, r: Route, p: Policy, rule: Rule, code: string, target: string)
    requires p.rules == [rule] && rule.kind == RequireVerifiedGuards
    ensures Cites(EvalRoute(env, r, p), code, target) <==> code == rule.code && EvidenceFault(r.guardEvidence, RouteTarget(r), target)
  {
    var eval := rule => EvalRouteRule(env, r, p, rule);
    CitesRules(p.rules, eval, code, target);
    assert EvalRoute(env, r, p) == ForRules(p.rules, eval);
    assert forall t :: t in p.rules <==> t == rule;
    assert eval(rule) == EvalRouteRule(env, r, p, rule);
    CitesEvidence(env, rule, p, RouteTarget(r), r.source, r.guardEvidence, code, target);
  }

  lemma RouteGates(env: Env, r: Route, code: string, target: string)
    ensures (exists p :: p in Baseline() && OnRoute(env, p, r, code, target)) <==> RouteFault(r, code, target)
  {
    GuardsCiteRoute(env, r, code, target);
    forall p | p in Baseline() && p != Guards()
      ensures !OnRoute(env, p, r, code, target)
    {
      OnlyGuardsRoute(p);
    }
    InBaseline();
  }

  lemma OnlyGuardsRoute(p: Policy)
    requires p in Baseline() && p != Guards()
    ensures forall s | s in p.selectors :: s.kind != RouteSelector
  {
    InBaseline();
  }

  ghost predicate OnContract(env: Env, p: Policy, c: Contract, code: string, target: string) {
    MatchesContract(p, c) && Cites(EvalContract(env, c, p), code, target)
  }

  lemma RolesCite(env: Env, c: Contract, code: string, target: string)
    ensures OnContract(env, ContractRoles(), c, code, target) <==> ContractFault(c, code, target)
  {
    AllContracts(c);
    var p, rule := ContractRoles(), BaselineRule(DenyRolelessContract, ROLELESS);
    assert CONTRACTS in p.selectors;
    var eval := rule => EvalContractRule(env, c, p, rule);
    CitesRules(p.rules, eval, code, target);
    assert EvalContract(env, c, p) == ForRules(p.rules, eval);
    assert forall t :: t in p.rules <==> t == rule;
    assert eval(rule) == EvalContractRule(env, c, p, rule);
    var source := if c.declarationSource != "" then c.declarationSource else c.exposureSource;
    CitesWhen(c.roles == [], MakeFinding(env, rule, p, "contract:" + c.name, source, Roleless(c.kind, c.name)), code, target);
  }

  lemma ContractGates(env: Env, c: Contract, code: string, target: string)
    ensures (exists p :: p in Baseline() && OnContract(env, p, c, code, target)) <==> ContractFault(c, code, target)
  {
    RolesCite(env, c, code, target);
    forall p | p in Baseline() && p != ContractRoles()
      ensures !OnContract(env, p, c, code, target)
    {
      OnlyRolesContract(p);
    }
    InBaseline();
  }

  lemma OnlyRolesContract(p: Policy)
    requires p in Baseline() && p != ContractRoles()
    ensures forall s | s in p.selectors :: s.kind != ContractSelector
  {
    InBaseline();
  }

  ghost predicate OnTrace(env: Env, p: Policy, o: Observability, code: string, target: string) {
    MatchesObservability(p, o) && Cites(EvalObservability(env, o, p), code, target)
  }

  lemma CitesAccess(env: Env, o: Observability, p: Policy, rule: Rule, code: string, target: string)
    ensures Cites(EvalTraceAccess(env, o, p, rule), code, target) <==>
              && target == "observability:" + o.id
              && ((code == TRACE_EXPOSED && o.mounted && (!o.devOnly || env.equalFold(o.buildMode, "production")))
                  || (code == TRACE_ORIGIN && o.mounted && !ChecksOrigin(env, o)))
  {
    var isExposed, unchecked := o.mounted && (!o.devOnly || env.equalFold(o.buildMode, "production")), o.mounted && !ChecksOrigin(env, o);
    var exposed, origin := TraceFinding(env, o, p, rule, TRACE_EXPOSED, TraceExposed(o.path)), TraceFinding(env, o, p, rule, TRACE_ORIGIN, TraceOriginUnchecked(o.path));
    CitesWhen(isExposed, exposed, code, target);
    CitesWhen(unchecked, origin, code, target);
    CitesConcat(When(isExposed, exposed), When(unchecked, origin), code, target);
  }

  lemma CitesIngest(env: Env, o: Observability, p: Policy, rule: Rule, code: string, target: string)
    requires o.kind == "browser-ingest"
    ensures Cites(EvalTraceIngest(env, o, p, rule), code, target) <==> target == "observability:" + o.id && IngestFault(o, code)
  {
    var content := TraceFinding(env, o, p, rule, TRACE_CONTENT_TYPE, TraceNoContentType(o.path));
    var body := TraceFinding(env, o, p, rule, TRACE_BODY, TraceNoBodyLimit(o.path));
    var batch := TraceFinding(env, o, p, rule, TRACE_BATCH, TraceNoBatchLimit(o.path));
    var a, b, c := When(o.contentTypeRequired == "", content), When(o.bodyLimitBytes <= 0, body), When(o.batchLimit <= 0, batch);
    CitesWhen(o.contentTypeRequired == "", content, code, target);
    CitesWhen(o.bodyLimitBytes <= 0, body, code, target);
    CitesWhen(o.batchLimit <= 0, batch, code, target);
    CitesConcat(a, b, code, target);
    CitesConcat(a + b, c, code, target);
  }

  lemma CitesTrace(env: Env, o: Observability, p: Policy, rule: Rule, code: string, target: string)
    requires rule.kind == CheckObservability
    ensures Cites(EvalObservabilityRule(env, o, p, rule), code, target) <==> TraceFault(env, o, code, target)
  {
    var source := TraceFinding(env, o, p, rule, TRACE_SOURCE, TraceAbsoluteSource(o.path));
    var access, leak := EvalTraceAccess(env, o, p, rule), When(o.exportsAbsoluteSourcePaths, source);
    var ingest := if o.kind == "browser-ingest" then EvalTraceIngest(env, o, p, rule) else [];
    CitesAccess(env, o, p, rule, code, target);
    if o.kind == "browser-ingest" {
      CitesIngest(env, o, p, rule, code, target);
    }
    CitesWhen(o.exportsAbsoluteSourcePaths, source, code, target);
    CitesConcat(access, ingest, code, target);
    CitesConcat(access + ingest, leak, code, target);
  }

  lemma TracesCite(env: Env, o: Observability, code: string, target: string)
    ensures OnTrace(env, Traces(), o, code, target) <==> TraceFault(env, o, code, target)
  {
    AllTraces(o);
    assert OBSERVABILITY in Traces().selectors;
    TraceRuleCites(env, o, Traces(), BaselineRule(CheckObservability, ""), code, target);
  }

  lemma TraceRuleCites(env: Env, o: Observability, p: Policy, rule: Rule, code: string, target: string)
    requires p.rules == [rule] && rule.kind == CheckObservability
    ensures Cites(EvalObservability(env, o, p), code, target) <==> TraceFault(env, o, code, target)
  {
    var eval := rule => EvalObservabilityRule(env, o, p, rule);
    CitesRules(p.rules, eval, code, target);
    assert EvalObservability(env, o, p) == ForRules(p.rules, eval);
    assert forall t :: t in p.rules <==> t == rule;
    assert eval(rule) == EvalObservabilityRule(env, o, p, rule);
    CitesTrace(env, o, p, rule, code, target);
  }

  lemma TraceGates(env: Env, o: Observability, code: string, target: string)
    ensures (exists p :: p in Baseline() && OnTrace(env, p, o, code, target)) <==> TraceFault(env, o, code, target)
  {
    TracesCite(env, o, code, target);
    forall p | p in Baseline() && p != Traces()
      ensures !OnTrace(env, p, o, code, target)
    {
      OnlyTracesObserve(p);
    }
    InBaseline();
  }

  lemma OnlyTracesObserve(p: Policy)
    requires p in Baseline() && p != Traces()
    ensures forall s | s in p.selectors :: s.kind != ObservabilitySelector
  {
    InBaseline();
  }

  // ------------------------------------------------------------------ frontend

  ghost predicate OnFrontend(env: Env, m: Manifest, x: Exemptions, p: Policy, code: string, target: string) {
    HasFrontendSelector(p) && Cites(EvalFrontend(env, m, x, p), code, target)
  }

  lemma CitesFrontend(env: Env, m: Manifest, x: Exemptions, p: Policy, code: string, target: string)
    ensures Cites(EvalFrontend(env, m, x, p), code, target) <==> exists r :: r in p.rules && Cites(EvalFrontendRule(env, m, x, p, r), code, target)
  {
    var eval := rule => EvalFrontendRule(env, m, x, p, rule);
    CitesRules(p.rules, eval, code, target);
    assert EvalFrontend(env, m, x, p) == ForRules(p.rules, eval);
  }

  lemma {:induction false} CitesSecrets(env: Env, leaks: seq<BundleLeak>, p: Policy, rule: Rule, code: string, target: string)
    ensures Cites(EvalSecrets(env, leaks, p, rule), code, target) <==> code == rule.code && target == "frontend" && leaks != []
  {
    if leaks != [] {
      var f := MakeFinding(env, rule, p, "frontend", leaks[0].source, SecretInBundle(leaks[0].kind));
      CitesSecrets(env, leaks[1..], p, rule, code, target);
      CitesOne(f, code, target);
      CitesConcat([f], EvalSecrets(env, leaks[1..], p, rule), code, target);
    }
  }

  lemma {:induction false} CitesClientRoutes(env: Env, routes: seq<UnguardedRoute>, p: Policy, rule: Rule, code: string, target: string)
    ensures Cites(EvalClientRoutes(env, routes, p, rule), code, target) <==>
              code == rule.code && exists r :: r in routes && target == "route:" + r.route
  {
    if routes != [] {
      var f := MakeFinding(env, rule, p, "route:" + routes[0].route, routes[0].source, ClientRouteUnguarded(routes[0].route));
      CitesClientRoutes(env, routes[1..], p, rule, code, target);
      CitesOne(f, code, target);
      CitesConcat([f], EvalClientRoutes(env, routes[1..], p, rule), code, target);
      assert routes == [routes[0]] + routes[1..];
    }
  }

  lemma {:induction false} CitesSinks(env: Env, sinks: seq<Sink>, p: Policy, rule: Rule, x: Exemptions, code: string, target: string)
    requires forall s :: !Exempt(x, s)
    ensures Cites(EvalSinks(env, sinks, p, rule, x), code, target) <==> code == rule.code && target == "frontend" && sinks != []
  {
    if sinks != [] {
      var f := SinkFinding(env, p, rule, sinks[0]);
      CitesSinks(env, sinks[1..], p, rule, x, code, target);
      CitesWhen(!Exempt(x, sinks[0]), f, code, target);
      CitesConcat(When(!Exempt(x, sinks[0]), f), EvalSinks(env, sinks[1..], p, rule, x), code, target);
    }
  }

  lemma SurfaceCites(env: Env, m: Manifest, x: Exemptions, code: string, target: string)
    requires forall s :: !Exempt(x, s)
    ensures OnFrontend(env, m, x, FrontendSurface(), code, target) <==> SurfaceFault(m, code, target)
  {
    var p := FrontendSurface();
    OneSelector(p, FRONTEND);
    var a, b, c := BaselineRule(NoSecretsInBundle, BUNDLE_SECRET), BaselineRule(RequireClientRouteGuards, CLIENT_ROUTE), BaselineRule(DenyRawHTMLSinks, RAW_HTML_SINK);
    SurfaceRules(env, m, x, p, a, b, c, code, target);
  }

  lemma SurfaceRules(env: Env, m: Manifest, x: Exemptions, p: Policy, a: Rule, b: Rule, c: Rule, code: string, target: string)
    requires forall s :: !Exempt(x, s)
    requires p.rules == [a, b, c] && a.kind == NoSecretsInBundle && b.kind == RequireClientRouteGuards && c.kind == DenyRawHTMLSinks
    ensures Cites(EvalFrontend(env, m, x, p), code, target) <==>
              || (code == a.code && target == "frontend" && m.frontend.bundleSecrets != [])
              || (code == c.code && target == "frontend" && m.frontend.sinks != [])
              || (code == b.code && exists r :: r in m.frontend.unguardedRoutes && target == "route:" + r.route)
  {
    CitesSecrets(env, m.frontend.bundleSecrets, p, a, code, target);
    CitesClientRoutes(env, m.frontend.unguardedRoutes, p, b, code, target);
    CitesSinks(env, m.frontend.sinks, p, c, x, code, target);
    var eval := rule => EvalFrontendRule(env, m, x, p, rule);
    ThreeRules(p.rules, eval, a, b, c, code, target);
    assert EvalFrontend(env, m, x, p) == ForRules(p.rules, eval);
  }

  lemma ThreeRules(rules: seq<Rule>, eval: Rule -> seq<Finding>, a: Rule, b: Rule, c: Rule, code: string, target: string)
    requires rules == [a, b, c]
    ensures Cites(ForRules(rules, eval), code, target) <==> Cites(eval(a), code, target) || Cites(eval(b), code, target) || Cites(eval(c), code, target)
  {
    CitesRules(rules, eval, code, target);
    assert rules[0] == a && rules[1] == b && rules[2] == c;
    assert forall r :: r in rules <==> r == a || r == b || r == c;
  }

  lemma HeadersCite(env: Env, m: Manifest, x: Exemptions, code: string, target: string)
    ensures OnFrontend(env, m, x, Headers(), code, target) <==> Cites(env.securityHeaders(m.frontend, Headers(), m.buildMode), code, target)
  {
    var p := Headers();
    OneSelector(p, FRONTEND);
    CitesFrontend(env, m, x, p, code, target);
    assert forall r :: r in p.rules <==> r == BaselineRule(CheckSecurityHeaders, "");
  }

  lemma CrossOriginCites(env: Env, m: Manifest, x: Exemptions, code: string, target: string)
    ensures OnFrontend(env, m, x, CrossOrigin(), code, target) <==> CorsFault(m.cors, code, target)
  {
    var p, rule := CrossOrigin(), BaselineRule(CheckCORS, "");
    OneSelector(p, FRONTEND);
    CitesFrontend(env, m, x, p, code, target);
    assert forall r :: r in p.rules <==> r == rule;
    CitesOne(MakeFinding(env, rule.(code := CORS_CREDENTIALED), p, "cors", m.cors.origin, CredentialedWildcard), code, target);
    CitesOne(MakeFinding(env, rule.(code := CORS_WILDCARD), p, "cors", m.cors.origin, WildcardOrigin), code, target);
  }

  lemma FrontendGates(env: Env, m: Manifest, x: Exemptions, code: string, target: string)
    requires forall s :: !Exempt(x, s)
    ensures (exists p :: p in Baseline() && OnFrontend(env, m, x, p, code, target)) <==> FrontendFault(env, m, code, target)
  {
    SurfaceCites(env, m, x, code, target);
    HeadersCite(env, m, x, code, target);
    CrossOriginCites(env, m, x, code, target);
    forall p | p in Baseline() && p != FrontendSurface() && p != Headers() && p != CrossOrigin()
      ensures !OnFrontend(env, m, x, p, code, target)
    {
      OnlyThreeFrontend(p);
    }
    InBaseline();
  }

  lemma OnlyThreeFrontend(p: Policy)
    requires p in Baseline() && p != FrontendSurface() && p != Headers() && p != CrossOrigin()
    ensures forall s | s in p.selectors :: s.kind != FrontendSelector
  {
    InBaseline();
  }

  // ---------------------------------------------------------- the whole report

  lemma CitesRows<T(!new)>(check: E.Check<T>, entries: seq<T>, policies: seq<Policy>, code: string, target: string)
    ensures Cites(E.Rows(check, entries, policies), code, target) <==>
              exists e, p :: e in entries && p in policies && check.matches(e, p) && Cites(check.eval(e, p), code, target)
  {
    if f :| f in E.Rows(check, entries, policies) && f.code == code && f.target == target {
      E.RowsHas(check, entries, policies, f);
    }
    if e, p :| e in entries && p in policies && check.matches(e, p) && Cites(check.eval(e, p), code, target) {
      var f :| f in check.eval(e, p) && f.code == code && f.target == target;
      E.RowsHas(check, entries, policies, f);
    }
  }

  /** The policies in force under the baseline alone are the baseline's. */
  lemma BaselineInForce(env: Env, p: Policy)
    ensures p in E.InForce(env, Baseline()) <==> p in Baseline()
  {
    BaselineIsBaseline();
    ValidBase(env, Baseline());
    if p in Baseline() {
      BaseKept(env, Baseline(), Baseline(), p);
    }
    if p in E.InForce(env, Baseline()) {
      BaseOnly(env, Baseline(), p);
    }
  }

  lemma EndpointRows(env: Env, m: Manifest, inForce: seq<Policy>, code: string, target: string)
    requires forall p :: p in inForce <==> p in Baseline()
    ensures Cites(E.Rows(E.EndpointCheck(env), m.endpoints, inForce), code, target) <==>
              exists e :: e in m.endpoints && EndpointFault(env, e, code, target)
  {
    var check := E.EndpointCheck(env);
    CitesRows(check, m.endpoints, inForce, code, target);
    forall e
      ensures EndpointFault(env, e, code, target) <==> exists p :: p in inForce && check.matches(e, p) && Cites(check.eval(e, p), code, target)
    {
      EndpointGates(env, e, code, target);
      assert forall p :: OnEndpoint(env, p, e, code, target) <==> check.matches(e, p) && Cites(check.eval(e, p), code, target);
    }
  }

  lemma RouteRows(env: Env, m: Manifest, inForce: seq<Policy>, code: string, target: string)
    requires forall p :: p in inForce <==> p in Baseline()
    ensures Cites(E.Rows(E.RouteCheck(env), m.routes, inForce), code, target) <==> exists r :: r in m.routes && RouteFault(r, code, target)
  {
    var check := E.RouteCheck(env);
    CitesRows(check, m.routes, inForce, code, target);
    forall r
      ensures RouteFault(r, code, target) <==> exists p :: p in inForce && check.matches(r, p) && Cites(check.eval(r, p), code, target)
    {
      RouteGates(env, r, code, target);
      assert forall p :: OnRoute(env, p, r, code, target) <==> check.matches(r, p) && Cites(check.eval(r, p), code, target);
    }
  }

  lemma ContractRows(env: Env, m: Manifest, inForce: seq<Policy>, code: string, target: string)
    requires forall p :: p in inForce <==> p in Baseline()
    ensures Cites(E.Rows(E.ContractCheck(env), m.contracts, inForce), code, target) <==> exists c :: c in m.contracts && ContractFault(c, code, target)
  {
    var check := E.ContractCheck(env);
    CitesRows(check, m.contracts, inForce, code, target);
    forall c
      ensures ContractFault(c, code, target) <==> exists p :: p in inForce && check.matches(c, p) && Cites(check.eval(c, p), code, target)
    {
      ContractGates(env, c, code, target);
      assert forall p :: OnContract(env, p, c, code, target) <==> check.matches(c, p) && Cites(check.eval(c, p), code, target);
    }
  }

  lemma TraceRows(env: Env, m: Manifest, inForce: seq<Policy>, code: string, target: string)
    requires forall p :: p in inForce <==> p in Baseline()
    ensures Cites(E.Rows(E.ObservabilityCheck(env), m.observability, inForce), code, target) <==>
              exists o :: o in m.observability && TraceFault(env, o, code, target)
  {
    var check := E.ObservabilityCheck(env);
    CitesRows(check, m.observability, inForce, code, target);
    forall o
      ensures TraceFault(env, o, code, target) <==> exists p :: p in inForce && check.matches(o, p) && Cites(check.eval(o, p), code, target)
    {
      TraceGates(env, o, code, target);
      assert forall p :: OnTrace(env, p, o, code, target) <==> check.matches(o, p) && Cites(check.eval(o, p), code, target);
    }
  }

  lemma FrontendRows(env: Env, m: Manifest, x: Exemptions, inForce: seq<Policy>, code: string, target: string)
    requires forall p :: p in inForce <==> p in Baseline()
    requires forall s :: !Exempt(x, s)
    ensures Cites(E.Rows(E.FrontendCheck(env, x), [m], inForce), code, target) <==> FrontendFault(env, m, code, target)
  {
    var check := E.FrontendCheck(env, x);
    CitesRows(check, [m], inForce, code, target);
    FrontendGates(env, m, x, code, target);
    assert m in [m] && forall n :: n in [m] <==> n == m;
    assert forall p :: OnFrontend(env, m, x, p, code, target) <==> check.matches(m, p) && Cites(check.eval(m, p), code, target);
  }

  lemma PostureCites(env: Env, m: Manifest, inForce: seq<Policy>, code: string, target: string)
    requires forall p :: p in inForce <==> p in Baseline()
    requires forall s :: !Exempt(ExemptionsOf(env, m.frontend.sinks, inForce), s)
    ensures Cites(E.PostureFindings(E.ChecksOf(env, m, inForce), m, inForce), code, target) <==> Fault(env, m, code, target)
  {
    var checks := E.ChecksOf(env, m, inForce);
    EndpointRows(env, m, inForce, code, target);
    RouteRows(env, m, inForce, code, target);
    ContractRows(env, m, inForce, code, target);
    TraceRows(env, m, inForce, code, target);
    FrontendRows(env, m, ExemptionsOf(env, m.frontend.sinks, inForce), inForce, code, target);
    var a, b, c, d := E.Rows(checks.endpoint, m.endpoints, inForce), E.Rows(checks.route, m.routes, inForce), E.Rows(checks.contract, m.contracts, inForce), E.Rows(checks.observability, m.observability, inForce);
    CitesConcat(a, b, code, target);
    CitesConcat(a + b, c, code, target);
    CitesConcat(a + b + c, d, code, target);
    CitesConcat(a + b + c + d, E.Rows(checks.frontend, [m], inForce), code, target);
  }

  lemma BaselineRaises(env: Env, m: Manifest, code: string, target: string)
    ensures Cites(E.Raised(env, m, Baseline()), code, target) <==> Fault(env, m, code, target)
  {
    BaselineIsBaseline();
    BaseRaised(env, m, Baseline());
    NothingRelaxed(env, Baseline(), m.frontend.sinks);
    var inForce := E.InForce(env, Baseline());
    forall p
      ensures p in inForce <==> p in Baseline()
    {
      BaselineInForce(env, p);
    }
    PostureCites(env, m, inForce, code, target);
  }

  /** Only what the baseline raises is in its report. */
  lemma BaselineReportsRaised(env: Env, ctx: W.WaiverContext, m: Manifest, f: Finding)
    requires f in E.Report(env, ctx, m, Baseline())
    ensures f in E.Raised(env, m, Baseline())
  {
    BaselineIsBaseline();
    BaseRaised(env, m, Baseline());
    BaseReport(env, ctx, m, Baseline(), f);
  }

  /**
   The gates of the baseline, finding by finding: with no configuration the report cites a code
   about a target only for a fault of that code there, and every fault is reported, open, by a
   finding under its code that says the same as one about its target.
   */
  lemma BaselineReportsFaults(env: Env, ctx: W.WaiverContext, m: Manifest, code: string, target: string)
    requires HeadersFresh(env)
    ensures Cites(E.Report(env, ctx, m, Baseline()), code, target) ==> Fault(env, m, code, target)
    ensures Fault(env, m, code, target) ==>
              exists f: Finding, g: Finding ::
                f.code == code && f.target == target && SameFinding(f, g) && g in E.Report(env, ctx, m, Baseline()) && g.suppression.None?
  {
    BaselineRaises(env, m, code, target);
    if f :| f in E.Report(env, ctx, m, Baseline()) && f.code == code && f.target == target {
      BaselineReportsRaised(env, ctx, m, f);
    }
    if f :| f in E.Raised(env, m, Baseline()) && f.code == code && f.target == target {
      var g := BaselineOpen(env, ctx, m, f);
    }
  }

  lemma BaselineOpen(env: Env, ctx: W.WaiverContext, m: Manifest, f: Finding) returns (g: Finding)
    requires HeadersFresh(env) && f in E.Raised(env, m, Baseline())
    ensures g in E.Report(env, ctx, m, Baseline()) && SameFinding(f, g) && g.suppression.None?
  {
    BaselineIsBaseline();
    ComposedPlain(Baseline(), []);
    assert Baseline() + [] == Baseline();
    g := RaisedSame(env, ctx, m, Baseline(), f);
    BaseFresh(env, ctx, m, Baseline(), g);
  }

  /** What is raised is in the report, saying the same. */
  lemma RaisedSame(env: Env, ctx: W.WaiverContext, m: Manifest, policies: seq<Policy>, f: Finding) returns (g: Finding)
    requires HeadersFresh(env) && BuiltinsPlain(policies) && f in E.Raised(env, m, policies)
    ensures g in E.Report(env, ctx, m, policies) && SameFinding(f, g)
  {
    var raised := E.Raised(env, m, policies);
    var judge, waivers := W.Program(env, ctx), W.Collected(E.InForce(env, policies));
    var kept := KeptFor(raised, E.DedupeKey, f);
    KeptIsFrom(raised, E.DedupeKey, kept);
    RaisedFresh(env, m, policies);
    var findings := KeepFirst(raised, E.DedupeKey);
    var i :| 0 <= i < |findings| && findings[i] == kept;
    g := W.WaivedAll(judge, waivers, findings)[i];
    W.SuppressionExact(judge, waivers, kept);
    SameKeySame(env, f, g);
  }

  // ----------------------------------------------------------- a secure posture

  /** An endpoint is secure exactly when it has no fault. */
  lemma SecureEndpoint(env: Env, e: Endpoint)
    ensures EndpointSecure(env, e) <==> forall code, target :: !EndpointFault(env, e, code, target)
  {
    if !GuardsVerified(e.guardEvidence) {
      var g :| g in e.guardEvidence && Unverified(g);
      assert EndpointFault(env, e, GUARD_UNVERIFIED, EndpointTarget(e) + "#guard:" + g.id);
    }
    forall code: string | code in {ACTION_MISSING_CSRF, API_MISSING_CSRF, COMMAND_MISSING_CSRF, GUARDLESS, PUBLIC_BY_OMISSION}
      ensures CsrfFault(env, e, code) || GuardFault(e, code) ==> EndpointFault(env, e, code, EndpointTarget(e))
    {
    }
    forall code: string | code in {LIMIT_MISSING, LIMIT_PHASE, LIMIT_MULTIPART}
      ensures Known(e.kind) && LimitFault(e, code) ==> EndpointFault(env, e, code, EndpointTarget(e))
    {
    }
    BoundedIff(e);
    CsrfSecure(env, e);
    GuardSecure(e);
  }

  lemma BoundedIff(e: Endpoint)
    ensures Bounded(e) <==> !LimitFault(e, LIMIT_MISSING) && !LimitFault(e, LIMIT_PHASE) && !LimitFault(e, LIMIT_MULTIPART)
    ensures Bounded(e) <==> forall code :: !LimitFault(e, code)
  {
  }

  lemma CsrfSecure(env: Env, e: Endpoint)
    ensures (e.kind == "action" || e.kind == "command" || (e.kind == "api" && MethodRequiresCSRF(env, e.httpMethod)) ==> e.csrf) <==>
              !CsrfFault(env, e, ACTION_MISSING_CSRF) && !CsrfFault(env, e, API_MISSING_CSRF) && !CsrfFault(env, e, COMMAND_MISSING_CSRF)
  {
  }

  lemma GuardSecure(e: Endpoint)
    ensures (Known(e.kind) ==> !e.defaultDeny) <==> !GuardFault(e, GUARDLESS) && !GuardFault(e, PUBLIC_BY_OMISSION)
  {
  }

  lemma SecureTrace(env: Env, o: Observability)
    ensures TraceSecure(env, o) <==> forall code, target :: !TraceFault(env, o, code, target)
  {
    var target := "observability:" + o.id;
    if forall code, t :: !TraceFault(env, o, code, t) {
      assert !TraceFault(env, o, TRACE_EXPOSED, target) && !TraceFault(env, o, TRACE_ORIGIN, target) && !TraceFault(env, o, TRACE_SOURCE, target);
      assert !TraceFault(env, o, TRACE_CONTENT_TYPE, target) && !TraceFault(env, o, TRACE_BODY, target) && !TraceFault(env, o, TRACE_BATCH, target);
    }
  }

  lemma SecureEvidence(guards: seq<GuardEvidence>, owner: string)
    ensures GuardsVerified(guards) <==> forall target :: !EvidenceFault(guards, owner, target)
  {
    if g :| g in guards && Unverified(g) {
      assert EvidenceFault(guards, owner, owner + "#guard:" + g.id);
    }
  }

  lemma SecureFrontend(env: Env, m: Manifest)
    ensures FrontendSecure(env, m) <==> forall code, target :: !FrontendFault(env, m, code, target)
  {
    var headers := env.securityHeaders(m.frontend, Headers(), m.buildMode);
    if m.frontend.bundleSecrets != [] {
      assert FrontendFault(env, m, BUNDLE_SECRET, "frontend");
    }
    if m.frontend.sinks != [] {
      assert FrontendFault(env, m, RAW_HTML_SINK, "frontend");
    }
    if m.frontend.unguardedRoutes != [] {
      var r := m.frontend.unguardedRoutes[0];
      assert FrontendFault(env, m, CLIENT_ROUTE, "route:" + r.route);
    }
    if headers != [] {
      assert headers[0] in headers && FrontendFault(env, m, headers[0].code, headers[0].target);
    }
    if m.cors.enabled && m.cors.allowsAnyOrigin {
      assert FrontendFault(env, m, if m.cors.allowCredentials then CORS_CREDENTIALED else CORS_WILDCARD, "cors");
    }
  }

  lemma SecureContract(c: Contract)
    ensures c.roles != [] <==> forall code, target :: !ContractFault(c, code, target)
  {
    if c.roles == [] {
      assert ContractFault(c, ROLELESS, "contract:" + c.name);
    }
  }

  lemma SecureIff(env: Env, m: Manifest)
    ensures Secure(env, m) <==> forall code, target :: !Fault(env, m, code, target)
  {
    SecureFrontend(env, m);
    forall e
      ensures EndpointSecure(env, e) <==> forall code, target :: !EndpointFault(env, e, code, target)
    {
      SecureEndpoint(env, e);
    }
    forall r: Route
      ensures GuardsVerified(r.guardEvidence) <==> forall code, target :: !RouteFault(r, code, target)
    {
      SecureEvidence(r.guardEvidence, RouteTarget(r));
      assert forall target :: RouteFault(r, GUARD_UNVERIFIED, target) <==> EvidenceFault(r.guardEvidence, RouteTarget(r), target);
    }
    forall c: Contract
      ensures c.roles != [] <==> forall code, target :: !ContractFault(c, code, target)
    {
      SecureContract(c);
    }
    forall o
      ensures TraceSecure(env, o) <==> forall code, target :: !TraceFault(env, o, code, target)
    {
      SecureTrace(env, o);
    }
    SecureParts(env, m);
  }

  lemma SecureParts(env: Env, m: Manifest)
    ensures (forall code, target :: !Fault(env, m, code, target)) <==>
              && (forall e | e in m.endpoints :: forall code, target :: !EndpointFault(env, e, code, target))
              && (forall r | r in m.routes :: forall code, target :: !RouteFault(r, code, target))
              && (forall c | c in m.contracts :: forall code, target :: !ContractFault(c, code, target))
              && (forall o | o in m.observability :: forall code, target :: !TraceFault(env, o, code, target))
              && forall code, target :: !FrontendFault(env, m, code, target)
  {
    if forall code, target :: !Fault(env, m, code, target) {
      forall e, code, target | e in m.endpoints
        ensures !EndpointFault(env, e, code, target)
      {
        assert !Fault(env, m, code, target);
      }
      forall r, code, target | r in m.routes
        ensures !RouteFault(r, code, target)
      {
        assert !Fault(env, m, code, target);
      }
      forall c, code, target | c in m.contracts
        ensures !ContractFault(c, code, target)
      {
        assert !Fault(env, m, code, target);
      }
      forall o, code, target | o in m.observability
        ensures !TraceFault(env, o, code, target)
      {
        assert !Fault(env, m, code, target);
      }
      forall code, target
        ensures !FrontendFault(env, m, code, target)
      {
        assert !Fault(env, m, code, target);
      }
    }
  }

  lemma {:induction false} NothingKept(xs: seq<Finding>)
    ensures KeepFirst(xs, E.DedupeKey) == [] <==> xs == []
  {
    if xs != [] {
      var y := KeptFor(xs, E.DedupeKey, xs[0]);
    }
  }

  /** So with no configuration the audit reports nothing if and only if the posture is secure. */
  lemma BaselineSilentIffSecure(env: Env, ctx: W.WaiverContext, m: Manifest)
    ensures E.Report(env, ctx, m, Baseline()) == [] <==> Secure(env, m)
  {
    BaselineIsBaseline();
    BaseRaised(env, m, Baseline());
    var raised := E.Raised(env, m, Baseline());
    NothingKept(raised);
    NothingReported(W.Program(env, ctx), KeepFirst(raised, E.DedupeKey));
    forall code, target
      ensures Cites(raised, code, target) <==> Fault(env, m, code, target)
    {
      BaselineRaises(env, m, code, target);
    }
    if raised != [] {
      assert raised[0] in raised && Cites(raised, raised[0].code, raised[0].target);
    }
    SecureIff(env, m);
  }

  lemma NothingReported(judge: W.Judge, findings: seq<Finding>)
    ensures W.WaivedAll(judge, [], findings) + W.Reports(judge, [], findings, 0) == [] <==> findings == []
  {
  }
}
