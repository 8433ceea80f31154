/**
 Whom a finding about the manifest is attributed to: the policy and the rule that raise it, at the
 severity of its code and with the origin of its code.
 */
module AuditAttribution {
  import opened Text
  import opened AuditTypes
  import opened AuditMatch
  import opened AuditCodes
  import opened AuditRules
  import opened AuditBaseline
  import E = AuditEngine

  /** Where a code comes from: the baseline, the rule's own default, or a policy that pinned another. */
  predicate Origin(p: Policy, rule: Rule, f: Finding) {
    var pinned := f.code != "" && f.code != RuleDefaultCode(rule.kind)
                  && !(rule.kind == RequireCSRF && f.code in [ACTION_MISSING_CSRF, API_MISSING_CSRF, COMMAND_MISSING_CSRF]);
    f.codeSource == if p.builtin then BaselineDefault else if pinned then PolicyOverride else RuleDefault
  }

  /** The finding names the policy and the rule, at the registered severity of its code or as an error, and open. */
  predicate Credits(env: Env, p: Policy, rule: Rule, f: Finding) {
    && f.policy == p.name && f.rule == Some(rule.kind) && Origin(p, rule, f) && f.suppression == None
    && match env.registry(f.code)
       case Some(severity) => f.severity == severity
       case None => f.severity == Error
  }

  lemma MadeCredits(env: Env, rule: Rule, p: Policy, target: string, source: string, message: Message, code: string)
    ensures Credits(env, p, rule, MakeFinding(env, rule.(code := code), p, target, source, message))
    ensures rule.(code := rule.code) == rule
  {
  }

  ghost predicate AllCredit(env: Env, p: Policy, rule: Rule, fs: seq<Finding>) {
    forall f | f in fs :: Credits(env, p, rule, f)
  }

  /** Whatever is made for the rule, under any code, credits it. */
  lemma MadeForRule(env: Env, rule: Rule, p: Policy)
    ensures forall code, target, source, message :: Credits(env, p, rule, MakeFinding(env, rule.(code := code), p, target, source, message))
    ensures forall target, source, message :: Credits(env, p, rule, MakeFinding(env, rule, p, target, source, message))
  {
    forall code, target, source, message
      ensures Credits(env, p, rule, MakeFinding(env, rule.(code := code), p, target, source, message))
    {
      MadeCredits(env, rule, p, target, source, message, code);
    }
    forall target, source, message
      ensures Credits(env, p, rule, MakeFinding(env, rule, p, target, source, message))
    {
      MadeCredits(env, rule, p, target, source, message, rule.code);
    }
  }

  lemma {:induction false} EvidenceCredits(env: Env, rule: Rule, p: Policy, target: string, source: string, guards: seq<GuardEvidence>)
    ensures AllCredit(env, p, rule, EvalGuardEvidence(env, rule, p, target, source, guards))
  {
    MadeForRule(env, rule, p);
    hide Credits, MakeFinding;
    if guards != [] {
      EvidenceCredits(env, rule, p, target, source, guards[1..]);
    }
  }

  lemma EndpointCredits(env: Env, e: Endpoint, p: Policy, rule: Rule)
    ensures AllCredit(env, p, rule, EvalEndpointRule(env, e, p, rule))
  {
    MadeForRule(env, rule, p);
    EvidenceCredits(env, rule, p, EndpointTarget(e), e.source, e.guardEvidence);
    hide Credits, MakeFinding, ParseSize, EvalGuardEvidence, MethodRequiresCSRF;
  }

  lemma RouteCredits(env: Env, r: Route, p: Policy, rule: Rule)
    ensures AllCredit(env, p, rule, EvalRouteRule(env, r, p, rule))
  {
    MadeForRule(env, rule, p);
    EvidenceCredits(env, rule, p, RouteTarget(r), r.source, r.guardEvidence);
    hide Credits, MakeFinding, EvalGuardEvidence;
  }

  lemma ContractCredits(env: Env, c: Contract, p: Policy, rule: Rule)
    ensures AllCredit(env, p, rule, EvalContractRule(env, c, p, rule))
  {
    MadeForRule(env, rule, p);
    hide Credits, MakeFinding;
  }

  lemma TraceCredits(env: Env, o: Observability, p: Policy, rule: Rule)
    ensures AllCredit(env, p, rule, EvalObservabilityRule(env, o, p, rule))
  {
    MadeForRule(env, rule, p);
    hide Credits, MakeFinding, ChecksOrigin;
    if rule.kind == CheckObservability {
      assert AllCredit(env, p, rule, EvalTraceAccess(env, o, p, rule));
      assert AllCredit(env, p, rule, EvalTraceIngest(env, o, p, rule));
      hide EvalTraceAccess, EvalTraceIngest;
    }
  }

  lemma {:induction false} SinksCredit(env: Env, sinks: seq<Sink>, p: Policy, rule: Rule, x: Exemptions)
    ensures AllCredit(env, p, rule, EvalSinks(env, sinks, p, rule, x))
  {
    MadeForRule(env, rule, p);
    hide Credits, MakeFinding, Exempt;
    if sinks != [] {
      SinksCredit(env, sinks[1..], p, rule, x);
    }
  }

  lemma {:induction false} SecretsCredit(env: Env, leaks: seq<BundleLeak>, p: Policy, rule: Rule)
    ensures AllCredit(env, p, rule, EvalSecrets(env, leaks, p, rule))
  {
    MadeForRule(env, rule, p);
    hide Credits, MakeFinding;
    if leaks != [] {
      SecretsCredit(env, leaks[1..], p, rule);
    }
  }

  lemma {:induction false} ClientRoutesCredit(env: Env, routes: seq<UnguardedRoute>, p: Policy, rule: Rule)
    ensures AllCredit(env, p, rule, EvalClientRoutes(env, routes, p, rule))
  {
    MadeForRule(env, rule, p);
    hide Credits, MakeFinding;
    if routes != [] {
      ClientRoutesCredit(env, routes[1..], p, rule);
    }
  }

  lemma FrontendCredits(env: Env, m: Manifest, x: Exemptions, p: Policy, rule: Rule)
    requires rule.kind != CheckSecurityHeaders
    ensures AllCredit(env, p, rule, EvalFrontendRule(env, m, x, p, rule))
  {
    MadeForRule(env, rule, p);
    SinksCredit(env, m.frontend.sinks, p, rule, x);
    SecretsCredit(env, m.frontend.bundleSecrets, p, rule);
    ClientRoutesCredit(env, m.frontend.unguardedRoutes, p, rule);
    hide Credits, MakeFinding, EvalSinks, EvalSecrets, EvalClientRoutes, ContainsHeader;
  }

  // ------------------------------------------------------------------ all findings

  /** Some rule in force is credited, or the header checks raised the finding for a policy in force. */
  ghost predicate Attributed(env: Env, m: Manifest, inForce: seq<Policy>, f: Finding) {
    exists p, rule :: p in inForce && rule in p.rules
      && if rule.kind == CheckSecurityHeaders then Credits(env, p, rule, f) || f in env.securityHeaders(m.frontend, p, m.buildMode)
         else Credits(env, p, rule, f)
  }

  lemma RowsAttributed<T(!new)>(env: Env, m: Manifest, check: E.Check<T>, entries: seq<T>, inForce: seq<Policy>, f: Finding)
    requires f in E.Rows(check, entries, inForce)
    requires forall e, p | f in check.eval(e, p) :: exists rule :: rule in p.rules && Credits(env, p, rule, f)
    ensures Attributed(env, m, inForce, f)
  {
    hide Credits;
    E.RowsHas(check, entries, inForce, f);
    var e, p :| e in entries && p in inForce && check.matches(e, p) && f in check.eval(e, p);
    var rule :| rule in p.rules && Credits(env, p, rule, f);
  }

  lemma EndpointAttributed(env: Env, e: Endpoint, p: Policy, f: Finding)
    requires f in EvalEndpoint(env, e, p)
    ensures exists rule :: rule in p.rules && Credits(env, p, rule, f)
  {
    hide Credits, EvalEndpointRule;
    ForRulesHas(p.rules, rule => EvalEndpointRule(env, e, p, rule), f);
    var rule :| rule in p.rules && f in EvalEndpointRule(env, e, p, rule);
    EndpointCredits(env, e, p, rule);
  }

  lemma RouteAttributed(env: Env, r: Route, p: Policy, f: Finding)
    requires f in EvalRoute(env, r, p)
    ensures exists rule :: rule in p.rules && Credits(env, p, rule, f)
  {
    hide Credits, EvalRouteRule;
    ForRulesHas(p.rules, rule => EvalRouteRule(env, r, p, rule), f);
    var rule :| rule in p.rules && f in EvalRouteRule(env, r, p, rule);
    RouteCredits(env, r, p, rule);
  }

  lemma ContractAttributed(env: Env, c: Contract, p: Policy, f: Finding)
    requires f in EvalContract(env, c, p)
    ensures exists rule :: rule in p.rules && Credits(env, p, rule, f)
  {
    hide Credits, EvalContractRule;
    ForRulesHas(p.rules, rule => EvalContractRule(env, c, p, rule), f);
    var rule :| rule in p.rules && f in EvalContractRule(env, c, p, rule);
    ContractCredits(env, c, p, rule);
  }

  lemma ObservabilityAttributed(env: Env, o: Observability, p: Policy, f: Finding)
    requires f in EvalObservability(env, o, p)
    ensures exists rule :: rule in p.rules && Credits(env, p, rule, f)
  {
    hide Credits, EvalObservabilityRule;
    ForRulesHas(p.rules, rule => EvalObservabilityRule(env, o, p, rule), f);
    var rule :| rule in p.rules && f in EvalObservabilityRule(env, o, p, rule);
    TraceCredits(env, o, p, rule);
  }

  /** Every finding the rules in force raise is attributed to one of them. */
  lemma PostureAttributed(env: Env, m: Manifest, inForce: seq<Policy>, f: Finding)
    requires f in E.PostureFindings(E.ChecksOf(env, m, inForce), m, inForce)
    ensures Attributed(env, m, inForce, f)
  {
    hide Credits, Attributed, EvalEndpoint, EvalRoute, EvalContract, EvalObservability, EvalFrontend, E.Rows;
    var x := ExemptionsOf(env, m.frontend.sinks, inForce);
    if f in E.Rows(E.EndpointCheck(env), m.endpoints, inForce) {
      forall e, p | f in EvalEndpoint(env, e, p)
        ensures exists rule :: rule in p.rules && Credits(env, p, rule, f)
      {
        EndpointAttributed(env, e, p, f);
      }
      RowsAttributed(env, m, E.EndpointCheck(env), m.endpoints, inForce, f);
    } else if f in E.Rows(E.RouteCheck(env), m.routes, inForce) {
      forall r, p | f in EvalRoute(env, r, p)
        ensures exists rule :: rule in p.rules && Credits(env, p, rule, f)
      {
        RouteAttributed(env, r, p, f);
      }
      RowsAttributed(env, m, E.RouteCheck(env), m.routes, inForce, f);
    } else if f in E.Rows(E.ContractCheck(env), m.contracts, inForce) {
      forall c, p | f in EvalContract(env, c, p)
        ensures exists rule :: rule in p.rules && Credits(env, p, rule, f)
      {
        ContractAttributed(env, c, p, f);
      }
      RowsAttributed(env, m, E.ContractCheck(env), m.contracts, inForce, f);
    } else if f in E.Rows(E.ObservabilityCheck(env), m.observability, inForce) {
      forall o, p | f in EvalObservability(env, o, p)
        ensures exists rule :: rule in p.rules && Credits(env, p, rule, f)
      {
        ObservabilityAttributed(env, o, p, f);
      }
      RowsAttributed(env, m, E.ObservabilityCheck(env), m.observability, inForce, f);
    } else {
      FrontendAttributed(env, m, x, inForce, f);
    }
  }

  lemma FrontendAttributed(env: Env, m: Manifest, x: Exemptions, inForce: seq<Policy>, f: Finding)
    requires f in E.Rows(E.FrontendCheck(env, x), [m], inForce)
    ensures Attributed(env, m, inForce, f)
  {
    hide Credits;
    E.RowsHas(E.FrontendCheck(env, x), [m], inForce, f);
    var e, p :| e in [m] && p in inForce && E.FrontendCheck(env, x).matches(e, p) && f in E.FrontendCheck(env, x).eval(e, p);
    assert e == m && f in EvalFrontend(env, m, x, p);
    ForRulesHas(p.rules, rule => EvalFrontendRule(env, m, x, p, rule), f);
    var rule :| rule in p.rules && f in EvalFrontendRule(env, m, x, p, rule);
    if rule.kind != CheckSecurityHeaders {
      FrontendCredits(env, m, x, p, rule);
    }
  }
}
