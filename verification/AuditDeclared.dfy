/**
 What the audit reports under any policies in force, declared ones included: a code about a target
 is reported if and only if some rule in force on what its policy selects is broken there.
 */
module AuditDeclared {
  import opened Text
  import opened Dedupe
  import opened HttpMethods
  import opened AuditTypes
  import opened AuditMatch
  import opened AuditSelectors
  import opened AuditCodes
  import opened AuditResolve
  import opened AuditRules
  import opened AuditBaseline
  import opened AuditGates
  import W = AuditWaivers
  import E = AuditEngine

  // -------------------------------------------------------------- how rules are broken

  /** The code of a CSRF rule: its own, or the one of the endpoint's kind. */
  function CsrfCode(e: Endpoint, rule: Rule): string {
    if rule.code != "" then rule.code
    else if e.kind == "api" then API_MISSING_CSRF
    else if e.kind == "command" then COMMAND_MISSING_CSRF
    else ACTION_MISSING_CSRF
  }

  /** What breaks a rule on an endpoint, and the code that reports it. */
  predicate Breaks(env: Env, e: Endpoint, p: Policy, rule: Rule, code: string) {
    match rule.kind
    case RequireCSRF =>
      && !e.csrf && code == CsrfCode(e, rule)
      && !(p.builtin && e.kind == "api" && code == API_MISSING_CSRF && env.upper(TrimSpace(e.httpMethod)) in SAFE_METHODS)
    case RequireGuard => rule.value !in e.guards && code == rule.code
    case RequireAnyGuard => e.defaultDeny && code == rule.code
    case DenyPublic => e.public && code == rule.code
    case MaxBody => ParseSize(env, rule.value).Some? && e.bodyLimitBytes > ParseSize(env, rule.value).value && code == rule.code
    case RequireRequestLimits => LimitFault(e, code)
    case _ => false
  }

  ghost predicate EndpointBreach(env: Env, e: Endpoint, p: Policy, rule: Rule, code: string, target: string) {
    || (target == e.kind + ":" + e.id && Breaks(env, e, p, rule, code))
    || (rule.kind == RequireVerifiedGuards && code == rule.code && EvidenceFault(e.guardEvidence, e.kind + ":" + e.id, target))
  }

  ghost predicate RouteBreach(r: Route, rule: Rule, code: string, target: string) {
    && code == rule.code
    && match rule.kind
       case RequireGuard => target == "route:" + r.route && rule.value !in r.guards
       case RequireAnyGuard => target == "route:" + r.route && r.defaultDeny
       case DenyPublic => target == "route:" + r.route && r.public
       case RequireVerifiedGuards => EvidenceFault(r.guardEvidence, "route:" + r.route, target)
       case _ => false
  }

  predicate ContractBreach(c: Contract, rule: Rule, code: string, target: string) {
    rule.kind == DenyRolelessContract && c.roles == [] && code == rule.code && target == "contract:" + c.name
  }

  predicate TraceBreach(env: Env, o: Observability, rule: Rule, code: string, target: string) {
    rule.kind == CheckObservability && TraceFault(env, o, code, target)
  }

  ghost predicate FrontendBreach(env: Env, m: Manifest, inForce: seq<Policy>, p: Policy, rule: Rule, code: string, target: string) {
    match rule.kind
    case CheckSecurityHeaders => Cites(env.securityHeaders(m.frontend, p, m.buildMode), code, target)
    case CheckCORS => CorsFault(m.cors, code, target)
    case NoSecretsInBundle => code == rule.code && target == "frontend" && m.frontend.bundleSecrets != []
    case RequireHeader =>
      && code == rule.code && target == "frontend"
      && forall h | h in m.frontend.headers :: !env.equalFold(TrimSpace(h.name), TrimSpace(rule.value))
    case RequireClientRouteGuards => code == rule.code && exists r :: r in m.frontend.unguardedRoutes && target == "route:" + r.route
    case DenyRawHTMLSinks => code == rule.code && target == "frontend" && exists s :: s in m.frontend.sinks && !LetIn(env, m, inForce, s)
    case _ => false
  }

  /** Some rule of a policy in force is broken by an entry one of the policy's selectors selects. */
  ghost predicate Breach(env: Env, m: Manifest, inForce: seq<Policy>, code: string, target: string) {
    || (exists p, rule, s, e :: p in inForce && rule in p.rules && s in p.selectors && e in m.endpoints
          && SelectsEndpoint(s, e) && EndpointBreach(env, e, p, rule, code, target))
    || (exists p, rule, s, r :: p in inForce && rule in p.rules && s in p.selectors && r in m.routes
          && SelectsRoute(s, r) && RouteBreach(r, rule, code, target))
    || (exists p, rule, s, c :: p in inForce && rule in p.rules && s in p.selectors && c in m.contracts
          && SelectsContract(s, c) && ContractBreach(c, rule, code, target))
    || (exists p, rule, s, o :: p in inForce && rule in p.rules && s in p.selectors && o in m.observability
          && SelectsTrace(s, o) && TraceBreach(env, o, rule, code, target))
    || (exists p, rule, s :: p in inForce && rule in p.rules && s in p.selectors && s.kind == FrontendSelector
          && FrontendBreach(env, m, inForce, p, rule, code, target))
  }

  // --------------------------------------------------------------- rule by rule

  lemma EndpointRuleIff(env: Env, e: Endpoint, p: Policy, rule: Rule, code: string, target: string)
    ensures Cites(EvalEndpointRule(env, e, p, rule), code, target) <==> EndpointBreach(env, e, p, rule, code, target)
  {
    hide Cites, LimitFault, ParseSize, EvalRequestLimits, EvalGuardEvidence;
    var target', source := EndpointTarget(e), e.source;
    match rule.kind
    case RequireCSRF =>
      CsrfRuleIff(env, e, p, rule, code, target);
    case RequireAnyGuard =>
      CitesWhen(e.defaultDeny, MakeFinding(env, rule, p, target', source, EndpointDenied(e.kind, e.id)), code, target);
    case RequireGuard =>
      CitesWhen(rule.value !in e.guards, MakeFinding(env, rule, p, target', source, EndpointLacksGuard(e.kind, e.id, rule.value)), code, target);
    case DenyPublic =>
      CitesWhen(e.public, MakeFinding(env, rule, p, target', source, EndpointPublic(e.kind, e.id)), code, target);
    case MaxBody =>
      var limit := ParseSize(env, rule.value);
      if limit.Some? {
        CitesWhen(e.bodyLimitBytes > limit.value,
                  MakeFinding(env, rule, p, target', source, BodyTooLarge(e.kind, e.id, e.bodyLimitBytes, limit.value)), code, target);
      } else {
        CitesNothing(code, target);
      }
    case RequireRequestLimits => CitesLimits(env, rule, p, e, code, target);
    case RequireVerifiedGuards => CitesEvidence(env, rule, p, target', source, e.guardEvidence, code, target);
    case _ => CitesNothing(code, target);
  }

  lemma CitesNothing(code: string, target: string)
    ensures !Cites([], code, target)
  {
  }

  lemma CsrfRuleIff(env: Env, e: Endpoint, p: Policy, rule: Rule, code: string, target: string)
    requires rule.kind == RequireCSRF
    ensures Cites(EvalEndpointRule(env, e, p, rule), code, target) <==> target == EndpointTarget(e) && Breaks(env, e, p, rule, code)
  {
    hide Cites;
    var csrf := rule.(code := CsrfCode(e, rule));
    var exempt := p.builtin && e.kind == "api" && csrf.code == API_MISSING_CSRF && !MethodRequiresCSRF(env, e.httpMethod);
    RequiresIff(env.upper(TrimSpace(e.httpMethod)));
    assert (if rule.code == "" then rule.(code := CsrfCodeForKind(e.kind)) else rule) == csrf;
    CitesWhen(!exempt && !e.csrf, MakeFinding(env, csrf, p, EndpointTarget(e), e.source, NoCSRF(e.kind, e.id)), code, target);
  }

  lemma RouteRuleIff(env: Env, r: Route, p: Policy, rule: Rule, code: string, target: string)
    ensures Cites(EvalRouteRule(env, r, p, rule), code, target) <==> RouteBreach(r, rule, code, target)
  {
    hide Cites, EvalGuardEvidence;
    match rule.kind
    case RequireAnyGuard => CitesWhen(r.defaultDeny, MakeFinding(env, rule, p, RouteTarget(r), r.source, RouteDenied(r.route)), code, target);
    case RequireGuard =>
      CitesWhen(rule.value !in r.guards, MakeFinding(env, rule, p, RouteTarget(r), r.source, RouteLacksGuard(r.route, rule.value)), code, target);
    case DenyPublic => CitesWhen(r.public, MakeFinding(env, rule, p, RouteTarget(r), r.source, RoutePublic(r.route)), code, target);
    case RequireVerifiedGuards => CitesEvidence(env, rule, p, RouteTarget(r), r.source, r.guardEvidence, code, target);
    case _ => CitesNothing(code, target);
  }

  lemma ContractRuleIff(env: Env, c: Contract, p: Policy, rule: Rule, code: string, target: string)
    ensures Cites(EvalContractRule(env, c, p, rule), code, target) <==> ContractBreach(c, rule, code, target)
  {
    hide Cites;
    var source := if c.declarationSource != "" then c.declarationSource else c.exposureSource;
    CitesWhen(rule.kind == DenyRolelessContract && c.roles == [],
              MakeFinding(env, rule, p, "contract:" + c.name, source, Roleless(c.kind, c.name)), code, target);
  }

  lemma TraceRuleIff(env: Env, o: Observability, p: Policy, rule: Rule, code: string, target: string)
    ensures Cites(EvalObservabilityRule(env, o, p, rule), code, target) <==> TraceBreach(env, o, rule, code, target)
  {
    hide Cites, TraceFault;
    if rule.kind == CheckObservability {
      CitesTrace(env, o, p, rule, code, target);
    } else {
      CitesNothing(code, target);
    }
  }

  lemma SinkRuleIff(env: Env, m: Manifest, inForce: seq<Policy>, p: Policy, rule: Rule, code: string, target: string)
    ensures Cites(EvalSinks(env, m.frontend.sinks, p, rule, ExemptionsOf(env, m.frontend.sinks, inForce)), code, target) <==>
              code == rule.code && target == "frontend" && exists s :: s in m.frontend.sinks && !LetIn(env, m, inForce, s)
  {
    hide Exempt, LetIn, EvalSinks;
    var x, sinks := ExemptionsOf(env, m.frontend.sinks, inForce), m.frontend.sinks;
    forall sink
      ensures Exempt(x, sink) <==> LetIn(env, m, inForce, sink)
    {
      ExemptionIff(env, m, inForce, sink);
    }
    if f :| f in EvalSinks(env, sinks, p, rule, x) && f.code == code && f.target == target {
      EvalSinksHas(env, sinks, p, rule, x, f);
    }
    if s :| s in sinks && !Exempt(x, s) {
      EvalSinksHas(env, sinks, p, rule, x, SinkFinding(env, p, rule, s));
    }
  }

  lemma ExemptionIff(env: Env, m: Manifest, inForce: seq<Policy>, sink: Sink)
    ensures Exempt(ExemptionsOf(env, m.frontend.sinks, inForce), sink) <==> LetIn(env, m, inForce, sink)
  {
    ExemptIff(env, m.frontend.sinks, inForce, sink);
  }

  lemma FrontendRuleIff(env: Env, m: Manifest, inForce: seq<Policy>, p: Policy, rule: Rule, code: string, target: string)
    ensures Cites(EvalFrontendRule(env, m, ExemptionsOf(env, m.frontend.sinks, inForce), p, rule), code, target)
            <==> FrontendBreach(env, m, inForce, p, rule, code, target)
  {
    hide Cites, LetIn, ExemptionsOf, EvalSinks, EvalSecrets, EvalClientRoutes;
    match rule.kind
    case CheckCORS => CorsRuleIff(env, m.cors, p, rule, code, target);
    case NoSecretsInBundle => CitesSecrets(env, m.frontend.bundleSecrets, p, rule, code, target);
    case RequireHeader =>
      CitesWhen(!ContainsHeader(env, m.frontend.headers, rule.value),
                MakeFinding(env, rule, p, "frontend", p.source, HeaderMissing(rule.value)), code, target);
    case RequireClientRouteGuards => CitesClientRoutes(env, m.frontend.unguardedRoutes, p, rule, code, target);
    case DenyRawHTMLSinks => SinkRuleIff(env, m, inForce, p, rule, code, target);
    case CheckSecurityHeaders =>
    case _ => CitesNothing(code, target);
  }

  lemma CorsRuleIff(env: Env, cors: CORS, p: Policy, rule: Rule, code: string, target: string)
    ensures Cites(EvalCORS(env, cors, p, rule), code, target) <==> CorsFault(cors, code, target)
  {
    CitesOne(MakeFinding(env, rule.(code := CORS_CREDENTIALED), p, "cors", cors.origin, CredentialedWildcard), code, target);
    CitesOne(MakeFinding(env, rule.(code := CORS_WILDCARD), p, "cors", cors.origin, WildcardOrigin), code, target);
  }

  // ---------------------------------------------------------------- kind by kind

  lemma EndpointsIff(env: Env, m: Manifest, inForce: seq<Policy>, code: string, target: string)
    ensures Cites(E.Rows(E.EndpointCheck(env), m.endpoints, inForce), code, target) <==>
              exists p, rule, s, e :: p in inForce && rule in p.rules && s in p.selectors && e in m.endpoints
                && SelectsEndpoint(s, e) && EndpointBreach(env, e, p, rule, code, target)
  {
    hide Cites, MatchesEndpoint, EvalEndpoint, EvalEndpointRule, SelectsEndpoint, EndpointBreach;
    var check := E.EndpointCheck(env);
    CitesRows(check, m.endpoints, inForce, code, target);
    forall e, p
      ensures check.matches(e, p) <==> exists s :: s in p.selectors && SelectsEndpoint(s, e)
      ensures Cites(check.eval(e, p), code, target) <==> exists rule :: rule in p.rules && EndpointBreach(env, e, p, rule, code, target)
    {
      MatchesEndpointIff(p, e);
      CitesEndpoint(env, e, p, code, target);
      forall rule
        ensures Cites(EvalEndpointRule(env, e, p, rule), code, target) <==> EndpointBreach(env, e, p, rule, code, target)
      {
        EndpointRuleIff(env, e, p, rule, code, target);
      }
    }
  }

  lemma CitesRoute(env: Env, r: Route, p: Policy, code: string, target: string)
    ensures Cites(EvalRoute(env, r, p), code, target) <==> exists rule :: rule in p.rules && RouteBreach(r, rule, code, target)
  {
    hide Cites, EvalRouteRule, RouteBreach;
    var eval := rule => EvalRouteRule(env, r, p, rule);
    CitesRules(p.rules, eval, code, target);
    assert EvalRoute(env, r, p) == ForRules(p.rules, eval);
    forall rule
      ensures Cites(eval(rule), code, target) <==> RouteBreach(r, rule, code, target)
    {
      RouteRuleIff(env, r, p, rule, code, target);
    }
  }

  lemma RoutesIff(env: Env, m: Manifest, inForce: seq<Policy>, code: string, target: string)
    ensures Cites(E.Rows(E.RouteCheck(env), m.routes, inForce), code, target) <==>
              exists p, rule, s, r :: p in inForce && rule in p.rules && s in p.selectors && r in m.routes
                && SelectsRoute(s, r) && RouteBreach(r, rule, code, target)
  {
    hide Cites, MatchesRoute, EvalRoute, SelectsRoute, RouteBreach;
    var check := E.RouteCheck(env);
    CitesRows(check, m.routes, inForce, code, target);
    forall r, p
      ensures check.matches(r, p) <==> exists s :: s in p.selectors && SelectsRoute(s, r)
      ensures Cites(check.eval(r, p), code, target) <==> exists rule :: rule in p.rules && RouteBreach(r, rule, code, target)
    {
      MatchesRouteIff(p, r);
      CitesRoute(env, r, p, code, target);
    }
  }

  lemma CitesContract(env: Env, c: Contract, p: Policy, code: string, target: string)
    ensures Cites(EvalContract(env, c, p), code, target) <==> exists rule :: rule in p.rules && ContractBreach(c, rule, code, target)
  {
    hide Cites, EvalContractRule, ContractBreach;
    var eval := rule => EvalContractRule(env, c, p, rule);
    CitesRules(p.rules, eval, code, target);
    assert EvalContract(env, c, p) == ForRules(p.rules, eval);
    forall rule
      ensures Cites(eval(rule), code, target) <==> ContractBreach(c, rule, code, target)
    {
      ContractRuleIff(env, c, p, rule, code, target);
    }
  }

  /** The selectors of the policies came out of ParseSelector. */
  ghost predicate AllParsed(policies: seq<Policy>) {
    forall p, s | p in policies && s in p.selectors :: Parsed(s)
  }

  lemma ContractsIff(env: Env, m: Manifest, inForce: seq<Policy>, code: string, target: string)
    requires AllParsed(inForce)
    ensures Cites(E.Rows(E.ContractCheck(env), m.contracts, inForce), code, target) <==>
              exists p, rule, s, c :: p in inForce && rule in p.rules && s in p.selectors && c in m.contracts
                && SelectsContract(s, c) && ContractBreach(c, rule, code, target)
  {
    hide Cites, MatchesContract, EvalContract, SelectsContract, ContractBreach, Parsed;
    var check := E.ContractCheck(env);
    CitesRows(check, m.contracts, inForce, code, target);
    forall c, p | p in inForce
      ensures check.matches(c, p) <==> exists s :: s in p.selectors && SelectsContract(s, c)
      ensures Cites(check.eval(c, p), code, target) <==> exists rule :: rule in p.rules && ContractBreach(c, rule, code, target)
    {
      MatchesContractIff(p, c);
      CitesContract(env, c, p, code, target);
    }
  }

  lemma CitesObservability(env: Env, o: Observability, p: Policy, code: string, target: string)
    ensures Cites(EvalObservability(env, o, p), code, target) <==> exists rule :: rule in p.rules && TraceBreach(env, o, rule, code, target)
  {
    hide Cites, EvalObservabilityRule, TraceBreach;
    var eval := rule => EvalObservabilityRule(env, o, p, rule);
    CitesRules(p.rules, eval, code, target);
    assert EvalObservability(env, o, p) == ForRules(p.rules, eval);
    forall rule
      ensures Cites(eval(rule), code, target) <==> TraceBreach(env, o, rule, code, target)
    {
      TraceRuleIff(env, o, p, rule, code, target);
    }
  }

  lemma TracesIff(env: Env, m: Manifest, inForce: seq<Policy>, code: string, target: string)
    requires AllParsed(inForce)
    ensures Cites(E.Rows(E.ObservabilityCheck(env), m.observability, inForce), code, target) <==>
              exists p, rule, s, o :: p in inForce && rule in p.rules && s in p.selectors && o in m.observability
                && SelectsTrace(s, o) && TraceBreach(env, o, rule, code, target)
  {
    hide Cites, MatchesObservability, EvalObservability, SelectsTrace, TraceBreach, Parsed;
    var check := E.ObservabilityCheck(env);
    CitesRows(check, m.observability, inForce, code, target);
    forall o, p | p in inForce
      ensures check.matches(o, p) <==> exists s :: s in p.selectors && SelectsTrace(s, o)
      ensures Cites(check.eval(o, p), code, target) <==> exists rule :: rule in p.rules && TraceBreach(env, o, rule, code, target)
    {
      MatchesTraceIff(p, o);
      CitesObservability(env, o, p, code, target);
    }
  }

  lemma FrontendIff(env: Env, m: Manifest, inForce: seq<Policy>, code: string, target: string)
    ensures Cites(E.Rows(E.FrontendCheck(env, ExemptionsOf(env, m.frontend.sinks, inForce)), [m], inForce), code, target) <==>
              exists p, rule, s :: p in inForce && rule in p.rules && s in p.selectors && s.kind == FrontendSelector
                && FrontendBreach(env, m, inForce, p, rule, code, target)
  {
    hide Cites, EvalFrontend, EvalFrontendRule, FrontendBreach, ExemptionsOf;
    var x := ExemptionsOf(env, m.frontend.sinks, inForce);
    var check := E.FrontendCheck(env, x);
    CitesRows(check, [m], inForce, code, target);
    forall p
      ensures check.matches(m, p) <==> exists s :: s in p.selectors && s.kind == FrontendSelector
      ensures Cites(check.eval(m, p), code, target) <==> exists rule :: rule in p.rules && FrontendBreach(env, m, inForce, p, rule, code, target)
    {
      CitesFrontend(env, m, x, p, code, target);
      forall rule
        ensures Cites(EvalFrontendRule(env, m, x, p, rule), code, target) <==> FrontendBreach(env, m, inForce, p, rule, code, target)
      {
        FrontendRuleIff(env, m, inForce, p, rule, code, target);
      }
    }
    assert m in [m] && forall n :: n in [m] <==> n == m;
  }

  /** What the rules of the policies in force say about the manifest is exactly its breaches. */
  lemma PostureIff(env: Env, m: Manifest, inForce: seq<Policy>, code: string, target: string)
    requires AllParsed(inForce)
    ensures Cites(E.PostureFindings(E.ChecksOf(env, m, inForce), m, inForce), code, target) <==> Breach(env, m, inForce, code, target)
  {
    hide Cites, ExemptionsOf, SelectsEndpoint, SelectsRoute, SelectsContract, SelectsTrace, EndpointBreach, RouteBreach, ContractBreach, TraceBreach, FrontendBreach;
    EndpointsIff(env, m, inForce, code, target);
    RoutesIff(env, m, inForce, code, target);
    ContractsIff(env, m, inForce, code, target);
    TracesIff(env, m, inForce, code, target);
    FrontendIff(env, m, inForce, code, target);
    var checks := E.ChecksOf(env, m, inForce);
    var a, b, c, d := E.Rows(checks.endpoint, m.endpoints, inForce), E.Rows(checks.route, m.routes, inForce), E.Rows(checks.contract, m.contracts, inForce), E.Rows(checks.observability, m.observability, inForce);
    CitesConcat(a, b, code, target);
    CitesConcat(a + b, c, code, target);
    CitesConcat(a + b + c, d, code, target);
    CitesConcat(a + b + c + d, E.Rows(checks.frontend, [m], inForce), code, target);
  }

  // ------------------------------------------ codes about policies, waivers and exceptions

  /** The codes of what is wrong with the policies themselves. */
  const RESERVED := {
    CODE_INCOMPATIBLE, CODE_UNKNOWN, CODE_LOWERED,
    BASELINE_OVERRIDE, DUPLICATE_NAME, UNKNOWN_SELECTOR, EXTENDS_CYCLE, UNKNOWN_EXTENDS, MATCHED_NOTHING,
    EXCEPTION_MALFORMED, EXCEPTION_EXPIRED, EXCEPTION_UNMATCHED,
    WAIVER_MALFORMED, WAIVER_EXPIRED, WAIVER_DIGEST, WAIVER_UNMATCHED
  }

  predicate AboutPolicies(fs: seq<Finding>) {
    forall f | f in fs :: f.code in RESERVED
  }

  lemma {:induction false} CodesReserved(env: Env, policies: seq<Policy>)
    ensures AboutPolicies(CodeFindings(env, policies))
  {
    if policies != [] {
      var last := policies[|policies| - 1];
      CodesReserved(env, policies[..|policies| - 1]);
      forall f | f in RuleFindings(env, last, last.rules)
        ensures f.code in RESERVED
      {
        RuleFindingsExact(env, last, last.rules, f);
      }
    }
  }

  lemma {:induction false} RepeatsReserved(env: Env, policies: seq<Policy>)
    ensures AboutPolicies(RepeatFindings(env, policies))
  {
    if policies != [] {
      RepeatsReserved(env, policies[..|policies| - 1]);
    }
  }

  lemma {:induction false} SelectorReserved(env: Env, policy: Policy, selectors: seq<Selector>)
    ensures AboutPolicies(SelectorFindings(env, policy, selectors))
  {
    if selectors != [] {
      SelectorReserved(env, policy, selectors[..|selectors| - 1]);
    }
  }

  lemma {:induction false} SelectorsReserved(env: Env, policies: seq<Policy>, n: nat)
    requires n <= |policies|
    ensures AboutPolicies(AllSelectorFindings(env, policies, n))
  {
    if n > 0 {
      SelectorsReserved(env, policies, n - 1);
      SelectorReserved(env, policies[n - 1], policies[n - 1].selectors);
    }
  }

  lemma FlattenReserved(env: Env, table: Table, name: string)
    ensures AboutPolicies(Flatten(env, table, name, {}).findings)
  {
    if Flatten(env, table, name, {}).rules.Some? {
      FlattenQuiet(env, table, name, {});
    } else {
      var path := FlattenFails(env, table, name, {});
    }
  }

  lemma {:induction false} ExtendsReserved(env: Env, table: Table, policies: seq<Policy>, n: nat)
    requires n <= |policies|
    ensures AboutPolicies(FlattenFindings(Expand(env, table), policies, n))
  {
    if n > 0 {
      ExtendsReserved(env, table, policies, n - 1);
      FlattenReserved(env, table, policies[n - 1].name);
    }
  }

  lemma {:induction false} ExceptionsReserved(env: Env, sinks: seq<Sink>, es: seq<Exception>)
    ensures AboutPolicies(ExceptionFindings(env, sinks, es))
  {
    if es != [] {
      ExceptionsReserved(env, sinks, es[1..]);
    }
  }

  lemma {:induction false} UnmatchedReserved(env: Env, policies: seq<Policy>, matched: set<string>)
    ensures AboutPolicies(E.UnmatchedFindings(env, policies, matched))
  {
    if policies != [] {
      UnmatchedReserved(env, policies[..|policies| - 1], matched);
    }
  }

  /** What is raised under a code of a rule is a breach, and every breach is raised. */
  lemma RaisedIff(env: Env, m: Manifest, policies: seq<Policy>, code: string, target: string)
    requires AllParsed(policies)
    ensures Breach(env, m, E.InForce(env, policies), code, target) ==> Cites(E.Raised(env, m, policies), code, target)
    ensures code !in RESERVED && Cites(E.Raised(env, m, policies), code, target) ==> Breach(env, m, E.InForce(env, policies), code, target)
  {
    hide Breach;
    var valid, inForce := ValidPolicies(env, policies), E.InForce(env, policies);
    var checks := E.ChecksOf(env, m, inForce);
    InForceParsed(env, policies);
    PostureIff(env, m, inForce, code, target);
    CodesReserved(env, policies);
    RepeatsReserved(env, valid);
    SelectorsReserved(env, valid, |valid|);
    ExtendsReserved(env, TableOf(valid), valid, |valid|);
    ExceptionsReserved(env, m.frontend.sinks, CollectExceptions(inForce));
    UnmatchedReserved(env, inForce, E.MatchedNames(checks, m, inForce));
  }

  /** Resolution leaves selectors alone. */
  lemma InForceParsed(env: Env, policies: seq<Policy>)
    requires AllParsed(policies)
    ensures AllParsed(E.InForce(env, policies))
  {
    hide Parsed;
    var valid := ValidPolicies(env, policies);
    ValidPoliciesAt(env, policies);
    forall p, s | p in E.InForce(env, policies) && s in p.selectors
      ensures Parsed(s)
    {
      var i := ResolvedFrom(Expand(env, TableOf(valid)), valid, |valid|, p);
      assert p.selectors == policies[i].selectors;
    }
  }

  // ------------------------------------------------------------------ the report

  /**
   The report under any policies, declared or built in.  A breach of a rule in force is reported:
   under its code, saying the same as a finding about its target.  And every finding that is not
   about the policies themselves is about such a breach.
   */
  lemma ReportsBreaches(env: Env, ctx: W.WaiverContext, m: Manifest, policies: seq<Policy>, code: string, target: string)
    requires HeadersFresh(env) && BuiltinsPlain(policies) && AllParsed(policies)
    ensures Breach(env, m, E.InForce(env, policies), code, target) ==>
              exists f: Finding, g: Finding ::
                f.code == code && f.target == target && g in E.Report(env, ctx, m, policies) && SameFinding(f, g)
    ensures code !in RESERVED && Cites(E.Report(env, ctx, m, policies), code, target) ==>
              Breach(env, m, E.InForce(env, policies), code, target)
  {
    hide Breach, SameFinding;
    RaisedIff(env, m, policies, code, target);
    if f :| f in E.Raised(env, m, policies) && f.code == code && f.target == target {
      var g := RaisedSame(env, ctx, m, policies, f);
    }
    if g :| code !in RESERVED && g in E.Report(env, ctx, m, policies) && g.code == code && g.target == target {
      var f := ReportedRaised(env, ctx, m, policies, g);
    }
  }

  /** A finding of the report that is not about the policies themselves was raised about the same target. */
  lemma ReportedRaised(env: Env, ctx: W.WaiverContext, m: Manifest, policies: seq<Policy>, g: Finding) returns (f: Finding)
    requires g in E.Report(env, ctx, m, policies) && g.code !in RESERVED
    ensures f in E.Raised(env, m, policies) && f.code == g.code && f.target == g.target
  {
    var judge, waivers := W.Program(env, ctx), W.Collected(E.InForce(env, policies));
    var raised := E.Raised(env, m, policies);
    var findings := KeepFirst(raised, E.DedupeKey);
    if g in W.Reports(judge, waivers, findings, |waivers|) {
      ReportsExempt(judge, code => code in RESERVED, waivers, findings, |waivers|, g);
      assert false;
    }
    var i :| 0 <= i < |findings| && g == W.WaivedAll(judge, waivers, findings)[i];
    f := findings[i];
    KeptIsFrom(raised, E.DedupeKey, f);
    W.SuppressionExact(judge, waivers, f);
    assert W.Erased(g) == W.Erased(f);
  }

  // --------------------------------------------------------- what is in force bites

  /** Whatever a rule in force finds about an endpoint that its policy selects is in the report. */
  lemma EndpointEnforced(env: Env, ctx: W.WaiverContext, m: Manifest, policies: seq<Policy>, p: Policy, s: Selector, e: Endpoint, rule: Rule, f: Finding)
    returns (g: Finding)
    requires HeadersFresh(env) && BuiltinsPlain(policies)
    requires p in E.InForce(env, policies) && s in p.selectors && e in m.endpoints && SelectsEndpoint(s, e)
    requires rule in p.rules && f in EvalEndpointRule(env, e, p, rule)
    ensures g in E.Report(env, ctx, m, policies) && SameFinding(f, g)
  {
    hide SelectsEndpoint;
    var inForce := E.InForce(env, policies);
    var eval := rule => EvalEndpointRule(env, e, p, rule);
    ForRulesHas(p.rules, eval, f);
    assert f in eval(rule) && EvalEndpoint(env, e, p) == ForRules(p.rules, eval);
    var check := E.EndpointCheck(env);
    MatchesEndpointIff(p, e);
    assert check.matches(e, p) && f in check.eval(e, p);
    E.RowsHas(check, m.endpoints, inForce, f);
    assert f in E.PostureFindings(E.ChecksOf(env, m, inForce), m, inForce);
    g := RaisedSame(env, ctx, m, policies, f);
  }

  /** Tightening works: an endpoint that breaks a rule in force on it is reported under the rule's code, or its kind's default. */
  lemma TighteningWorks(env: Env, ctx: W.WaiverContext, m: Manifest, policies: seq<Policy>, p: Policy, s: Selector, e: Endpoint, rule: Rule, code: string)
    requires HeadersFresh(env) && BuiltinsPlain(policies)
    requires p in E.InForce(env, policies) && s in p.selectors && e in m.endpoints && SelectsEndpoint(s, e) && rule in p.rules
    requires Breaks(env, e, p, rule, code)
    ensures exists f: Finding, g: Finding :: f.code == code && f.target == e.kind + ":" + e.id && f.source == e.source
              && g in E.Report(env, ctx, m, policies) && SameFinding(f, g)
  {
    hide SelectsEndpoint, SameFinding;
    var f := BrokenRuleFound(env, e, p, rule, code);
    var g := EndpointEnforced(env, ctx, m, policies, p, s, e, rule, f);
  }

  lemma BrokenRuleFound(env: Env, e: Endpoint, p: Policy, rule: Rule, code: string) returns (f: Finding)
    requires Breaks(env, e, p, rule, code)
    ensures f in EvalEndpointRule(env, e, p, rule) && f.code == code && f.target == EndpointTarget(e) && f.source == e.source
  {
    hide ParseSize;
    EndpointRuleIff(env, e, p, rule, code, EndpointTarget(e));
    f :| f in EvalEndpointRule(env, e, p, rule) && f.code == code && f.target == EndpointTarget(e);
    RuleSource(env, rule, p, e, f);
  }

  lemma RuleSource(env: Env, rule: Rule, p: Policy, e: Endpoint, f: Finding)
    requires rule.kind != RequireVerifiedGuards && f in EvalEndpointRule(env, e, p, rule)
    ensures f.source == e.source
  {
    hide ParseSize;
  }

  // ---------------------------------------------------------- policies that match nothing

  /** A selector that selects something of the manifest; the frontend is always there. */
  ghost predicate Touches(m: Manifest, s: Selector) {
    || (exists e :: e in m.endpoints && SelectsEndpoint(s, e))
    || (exists r :: r in m.routes && SelectsRoute(s, r))
    || (exists c :: c in m.contracts && SelectsContract(s, c))
    || (exists o :: o in m.observability && SelectsTrace(s, o))
    || s.kind == FrontendSelector
  }

  /** A declared policy with selectors, none of which selects anything, and without a waiver. */
  ghost predicate Idle(m: Manifest, p: Policy) {
    && !p.builtin && p.selectors != []
    && (forall s | s in p.selectors :: !Touches(m, s))
    && (forall r | r in p.rules :: r.kind != Waive)
  }

  lemma {:induction false} RowHitsIff<T(!new)>(check: E.Check<T>, e: T, policies: seq<Policy>, name: string)
    ensures name in E.RowHits(check, e, policies) <==> exists p :: p in policies && check.matches(e, p) && p.name == name
  {
    if policies != [] {
      var before, last := policies[..|policies| - 1], policies[|policies| - 1];
      RowHitsIff(check, e, before, name);
      assert policies == before + [last];
    }
  }

  lemma {:induction false} HitsIff<T(!new)>(check: E.Check<T>, entries: seq<T>, policies: seq<Policy>, name: string)
    ensures name in E.Hits(check, entries, policies) <==>
              exists e, p :: e in entries && p in policies && check.matches(e, p) && p.name == name
  {
    if entries != [] {
      var before, last := entries[..|entries| - 1], entries[|entries| - 1];
      HitsIff(check, before, policies, name);
      RowHitsIff(check, last, policies, name);
      assert entries == before + [last];
    }
  }

  lemma {:induction false} WaiverNamesIff(policies: seq<Policy>, name: string)
    ensures name in E.WaiverNames(policies) <==> exists p :: p in policies && p.name == name && E.HasWaiver(p)
  {
    if policies != [] {
      var before, last := policies[..|policies| - 1], policies[|policies| - 1];
      WaiverNamesIff(before, name);
      assert policies == before + [last];
    }
  }

  lemma MatchedIff(env: Env, m: Manifest, inForce: seq<Policy>, name: string)
    requires AllParsed(inForce)
    ensures name in E.MatchedNames(E.ChecksOf(env, m, inForce), m, inForce) <==>
              exists p :: p in inForce && p.name == name && (E.HasWaiver(p) || exists s :: s in p.selectors && Touches(m, s))
  {
    hide SelectsEndpoint, SelectsRoute, SelectsContract, SelectsTrace, MatchesEndpoint, MatchesRoute, MatchesContract, MatchesObservability, Parsed, ExemptionsOf, E.HasWaiver;
    var checks := E.ChecksOf(env, m, inForce);
    HitsIff(checks.endpoint, m.endpoints, inForce, name);
    HitsIff(checks.route, m.routes, inForce, name);
    HitsIff(checks.contract, m.contracts, inForce, name);
    HitsIff(checks.observability, m.observability, inForce, name);
    HitsIff(checks.frontend, [m], inForce, name);
    WaiverNamesIff(inForce, name);
    forall p | p in inForce
      ensures (E.HasWaiver(p) || exists s :: s in p.selectors && Touches(m, s)) <==> Matched(checks, m, p)
    {
      PolicyMatched(env, m, inForce, p);
    }
  }

  /** Some check matches the policy, or it holds a waiver. */
  ghost predicate Matched(checks: E.Checks, m: Manifest, p: Policy) {
    || (exists e :: e in m.endpoints && checks.endpoint.matches(e, p))
    || (exists r :: r in m.routes && checks.route.matches(r, p))
    || (exists c :: c in m.contracts && checks.contract.matches(c, p))
    || (exists o :: o in m.observability && checks.observability.matches(o, p))
    || checks.frontend.matches(m, p)
    || E.HasWaiver(p)
  }

  lemma PolicyMatched(env: Env, m: Manifest, inForce: seq<Policy>, p: Policy)
    requires forall s | s in p.selectors :: Parsed(s)
    ensures (E.HasWaiver(p) || exists s :: s in p.selectors && Touches(m, s)) <==> Matched(E.ChecksOf(env, m, inForce), m, p)
  {
    hide SelectsEndpoint, SelectsRoute, SelectsContract, SelectsTrace, MatchesEndpoint, MatchesRoute, MatchesContract, MatchesObservability, Parsed, ExemptionsOf, E.HasWaiver;
    forall e | e in m.endpoints
      ensures MatchesEndpoint(p, e) <==> exists s :: s in p.selectors && SelectsEndpoint(s, e)
    {
      MatchesEndpointIff(p, e);
    }
    forall r | r in m.routes
      ensures MatchesRoute(p, r) <==> exists s :: s in p.selectors && SelectsRoute(s, r)
    {
      MatchesRouteIff(p, r);
    }
    forall c | c in m.contracts
      ensures MatchesContract(p, c) <==> exists s :: s in p.selectors && SelectsContract(s, c)
    {
      MatchesContractIff(p, c);
    }
    forall o | o in m.observability
      ensures MatchesObservability(p, o) <==> exists s :: s in p.selectors && SelectsTrace(s, o)
    {
      MatchesTraceIff(p, o);
    }
  }

  function IdleFinding(env: Env, p: Policy): Finding {
    ResolutionFinding(env, MATCHED_NOTHING, p, MatchedNothing(p.name))
  }

  lemma {:induction false} SilentFrom(env: Env, policies: seq<Policy>, matched: set<string>, f: Finding)
    requires f in E.UnmatchedFindings(env, policies, matched)
    ensures exists p :: p in policies && E.Silent(p, matched) && f == IdleFinding(env, p)
  {
    var before, last := policies[..|policies| - 1], policies[|policies| - 1];
    assert policies == before + [last];
    if f in E.UnmatchedFindings(env, before, matched) {
      SilentFrom(env, before, matched, f);
    } else {
      assert f == IdleFinding(env, last);
    }
  }

  lemma {:induction false} SilentNamesFrom(policies: seq<Policy>, matched: set<string>, name: string)
    requires name in E.SilentNames(policies, matched)
    ensures exists p :: p in policies && p.name == name
  {
    var before, last := policies[..|policies| - 1], policies[|policies| - 1];
    assert policies == before + [last];
    if name in E.SilentNames(before, matched) {
      SilentNamesFrom(before, matched, name);
    }
  }

  lemma {:induction false} SilentFound(env: Env, policies: seq<Policy>, matched: set<string>, i: nat)
    requires i < |policies| && IsFirst(policies, i) && E.Silent(policies[i], matched)
    ensures IdleFinding(env, policies[i]) in E.UnmatchedFindings(env, policies, matched)
  {
    var before, p := policies[..|policies| - 1], policies[i];
    if i < |policies| - 1 {
      assert IsFirst(before, i) && before[i] == p;
      SilentFound(env, before, matched, i);
    } else if p.name in E.SilentNames(before, matched) {
      SilentNamesFrom(before, matched, p.name);
      assert false;
    }
  }

  /** A policy in force is reported as matching nothing exactly when it is idle. */
  lemma IdleIff(env: Env, m: Manifest, policies: seq<Policy>, p: Policy)
    requires AllParsed(policies) && p in E.InForce(env, policies)
    ensures var inForce := E.InForce(env, policies);
            IdleFinding(env, p) in E.UnmatchedFindings(env, inForce, E.MatchedNames(E.ChecksOf(env, m, inForce), m, inForce)) <==> Idle(m, p)
  {
    hide Touches, Parsed;
    var inForce := E.InForce(env, policies);
    var matched := E.MatchedNames(E.ChecksOf(env, m, inForce), m, inForce);
    InForceParsed(env, policies);
    MatchedIff(env, m, inForce, p.name);
    forall q | q in inForce && q.name == p.name
      ensures q == p
    {
      InForceUnique(env, policies, p, q);
    }
    assert E.Silent(p, matched) <==> Idle(m, p);
    if E.Silent(p, matched) {
      FirstOf(inForce, p.name);
      var i: nat :| i < |inForce| && inForce[i].name == p.name && IsFirst(inForce, i);
      SilentFound(env, inForce, matched, i);
    } else if IdleFinding(env, p) in E.UnmatchedFindings(env, inForce, matched) {
      SilentFrom(env, inForce, matched, IdleFinding(env, p));
      assert false;
    }
  }

  lemma FirstOf(policies: seq<Policy>, name: string)
    requires exists p :: p in policies && p.name == name
    ensures exists i: nat :: i < |policies| && policies[i].name == name && IsFirst(policies, i)
  {
    var k :| 0 <= k < |policies| && policies[k].name == name;
    TableFirst(policies, k);
    var i := TableFrom(policies, name);
  }

  /** Names in force are unique. */
  lemma InForceUnique(env: Env, policies: seq<Policy>, p: Policy, q: Policy)
    requires p in E.InForce(env, policies) && q in E.InForce(env, policies) && p.name == q.name
    ensures p == q
  {
    var valid := ValidPolicies(env, policies);
    var flat := Expand(env, TableOf(valid));
    var i := ResolvedFrom(flat, valid, |valid|, p);
    var j := ResolvedFrom(flat, valid, |valid|, q);
    assert valid[i].name == valid[j].name;
  }

  /** An idle policy in force is reported under its own code and name. */
  lemma IdleReported(env: Env, ctx: W.WaiverContext, m: Manifest, policies: seq<Policy>, p: Policy) returns (g: Finding)
    requires HeadersFresh(env) && BuiltinsPlain(policies) && AllParsed(policies)
    requires p in E.InForce(env, policies) && Idle(m, p)
    ensures g in E.Report(env, ctx, m, policies) && SameFinding(IdleFinding(env, p), g) && g.code == MATCHED_NOTHING
  {
    hide Idle;
    IdleIff(env, m, policies, p);
    assert IdleFinding(env, p) in E.Raised(env, m, policies);
    g := RaisedSame(env, ctx, m, policies, IdleFinding(env, p));
  }
}
