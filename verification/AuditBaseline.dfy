/**
 The built-in baseline, internal/auditspec/baseline.go, composed with declared policies,
 internal/auditspec/ir.go: whatever the baseline alone reports is still reported, unless a
 declared waiver that is valid and matches suppresses it, or a declared raw-HTML rule lets the
 sink through.
 */
module AuditBaseline {
  import opened Text
  import opened Dedupe
  import opened AuditTypes
  import opened AuditMatch
  import opened AuditSelectors
  import opened AuditCodes
  import opened AuditResolve
  import opened AuditRules
  import W = AuditWaivers
  import E = AuditEngine

  // --------------------------------------------------------------- the baseline

  function BaselinePolicy(name: string, selectors: seq<Selector>, rules: seq<Rule>): Policy {
    Policy(name, [], selectors, rules, "", true)
  }

  function BaselineRule(kind: RuleKind, code: string): Rule {
    Rule(kind, "", code, "", map[])
  }

  const ACT := Selector("act:*", EndpointSelector)
  const API := Selector("api:*", EndpointSelector)
  const FRAGMENT := Selector("fragment:*", EndpointSelector)
  const COMMAND := Selector("command:*", EndpointSelector)
  const QUERY := Selector("query:*", EndpointSelector)
  const CONTRACTS := Selector("contract:*", ContractSelector)
  const ROUTES := Selector("/**", RouteSelector)
  const OBSERVABILITY := Selector("observability", ObservabilitySelector)
  const FRONTEND := Selector("frontend", FrontendSelector)

  function Actions(): Policy {
    BaselinePolicy("baseline.actions", [ACT], [BaselineRule(RequireCSRF, ACTION_MISSING_CSRF), BaselineRule(RequireAnyGuard, GUARDLESS)])
  }

  function Fragments(): Policy {
    BaselinePolicy("baseline.fragments", [FRAGMENT], [BaselineRule(RequireAnyGuard, GUARDLESS)])
  }

  function Apis(): Policy {
    BaselinePolicy("baseline.api", [API], [BaselineRule(RequireCSRF, API_MISSING_CSRF), BaselineRule(RequireAnyGuard, PUBLIC_BY_OMISSION)])
  }

  function Commands(): Policy {
    BaselinePolicy("baseline.contract_commands", [COMMAND],
                   [BaselineRule(RequireCSRF, COMMAND_MISSING_CSRF), BaselineRule(RequireAnyGuard, GUARDLESS)])
  }

  function Queries(): Policy {
    BaselinePolicy("baseline.contract_queries", [QUERY], [BaselineRule(RequireAnyGuard, GUARDLESS)])
  }

  function ContractRoles(): Policy {
    BaselinePolicy("baseline.contracts", [CONTRACTS], [BaselineRule(DenyRolelessContract, ROLELESS)])
  }

  function Guards(): Policy {
    BaselinePolicy("baseline.guards", [ROUTES, ACT, API, FRAGMENT, COMMAND, QUERY], [BaselineRule(RequireVerifiedGuards, GUARD_UNVERIFIED)])
  }

  function Traces(): Policy {
    BaselinePolicy("baseline.observability", [OBSERVABILITY], [BaselineRule(CheckObservability, "")])
  }

  function FrontendSurface(): Policy {
    BaselinePolicy("baseline.frontend", [FRONTEND],
                   [BaselineRule(NoSecretsInBundle, BUNDLE_SECRET), BaselineRule(RequireClientRouteGuards, CLIENT_ROUTE),
                    BaselineRule(DenyRawHTMLSinks, RAW_HTML_SINK)])
  }

  function Headers(): Policy {
    BaselinePolicy("baseline.headers", [FRONTEND], [BaselineRule(CheckSecurityHeaders, "")])
  }

  function Limits(): Policy {
    BaselinePolicy("baseline.request_limits", [ACT, API, FRAGMENT, COMMAND, QUERY], [BaselineRule(RequireRequestLimits, "")])
  }

  function CrossOrigin(): Policy {
    BaselinePolicy("baseline.cors", [FRONTEND], [BaselineRule(CheckCORS, "")])
  }

  /** Baseline: what the audit applies with no configuration. */
  function Baseline(): seq<Policy> {
    [Actions(), Fragments(), Apis(), Commands(), Queries(), ContractRoles(), Guards(), Traces(), FrontendSurface(), Headers(), Limits(), CrossOrigin()]
  }

  function ComposeBaseline(declared: seq<Policy>): seq<Policy> {
    Baseline() + declared
  }

  /** Rules that take findings back. */
  predicate Relaxes(kind: RuleKind) {
    kind == Waive || kind == AllowRawHTML || kind == ExceptRawHTML
  }

  /** All that is used of the baseline: built in, no extends, known selectors, plain codes, and no rule that relaxes anything. */
  predicate BasePolicy(p: Policy) {
    && p.builtin && p.parents == []
    && (forall s | s in p.selectors :: s.kind != UnknownSelector)
    && PlainRules(p.rules) && (forall r | r in p.rules :: !Relaxes(r.kind))
  }

  ghost predicate IsBaseline(base: seq<Policy>) {
    && (forall i | 0 <= i < |base| :: BasePolicy(base[i]))
    && (forall i, j | 0 <= i < j < |base| :: base[i].name != base[j].name)
  }

  predicate Declared(policies: seq<Policy>) {
    forall i | 0 <= i < |policies| :: !policies[i].builtin
  }

  // ------------------------------------------------------- validation, resolution

  lemma ValidComposed(env: Env, base: seq<Policy>, declared: seq<Policy>)
    requires IsBaseline(base)
    ensures ValidPolicies(env, base + declared) == base + ValidPolicies(env, declared)
  {
    ValidPoliciesAt(env, base + declared);
    ValidPoliciesAt(env, declared);
  }

  lemma ValidBase(env: Env, base: seq<Policy>)
    requires IsBaseline(base)
    ensures ValidPolicies(env, base) == base && CodeFindings(env, base) == []
  {
    ValidPoliciesAt(env, base);
    NoCodeFindings(env, base);
  }

  lemma {:induction false} NoCodeFindings(env: Env, base: seq<Policy>)
    requires forall i | 0 <= i < |base| :: BasePolicy(base[i])
    ensures CodeFindings(env, base) == []
  {
    if base != [] {
      NoCodeFindings(env, base[..|base| - 1]);
      assert BasePolicy(base[|base| - 1]);
    }
  }

  /** A baseline policy expands to itself wherever it is the first of its name. */
  lemma BaseExpands(env: Env, policies: seq<Policy>, i: nat)
    requires i < |policies| && IsFirst(policies, i) && policies[i].parents == []
    ensures Flatten(env, TableOf(policies), policies[i].name, {}) == Flat(Some(policies[i].rules), [])
  {
    TableFirst(policies, i);
    assert [] + policies[i].rules == policies[i].rules;
  }

  lemma BaseKept(env: Env, base: seq<Policy>, policies: seq<Policy>, p: Policy)
    requires IsBaseline(base) && base <= policies && p in base
    ensures p in ResolvedPolicies(env, policies)
  {
    var i :| 0 <= i < |base| && base[i] == p;
    assert forall j | 0 <= j < |base| :: policies[j] == base[j];
    assert BasePolicy(base[i]);
    BaseExpands(env, policies, i);
    ResolvedHas(Expand(env, TableOf(policies)), policies, |policies|, i);
    assert p.(rules := p.rules) == p;
  }

  lemma BaseOnly(env: Env, base: seq<Policy>, p: Policy)
    requires IsBaseline(base) && p in ResolvedPolicies(env, base)
    ensures p in base && BasePolicy(p)
  {
    var i := ResolvedFrom(Expand(env, TableOf(base)), base, |base|, p);
    assert BasePolicy(base[i]);
    BaseExpands(env, base, i);
    assert base[i].(rules := base[i].rules) == base[i];
  }

  lemma {:induction false} NoRepeats(env: Env, base: seq<Policy>)
    requires IsBaseline(base)
    ensures RepeatFindings(env, base) == []
  {
    if base != [] {
      var before, last := base[..|base| - 1], base[|base| - 1];
      NoRepeats(env, before);
      if last.name in TableOf(before) {
        var i := TableFrom(before, last.name);
        assert false;
      }
    }
  }

  lemma {:induction false} NoUnknownSelectors(env: Env, p: Policy, selectors: seq<Selector>)
    requires forall s | s in selectors :: s.kind != UnknownSelector
    ensures SelectorFindings(env, p, selectors) == []
  {
    if selectors != [] {
      NoUnknownSelectors(env, p, selectors[..|selectors| - 1]);
    }
  }

  lemma {:induction false} NoneUnknown(env: Env, base: seq<Policy>, n: nat)
    requires IsBaseline(base) && n <= |base|
    ensures AllSelectorFindings(env, base, n) == []
  {
    if n > 0 {
      NoneUnknown(env, base, n - 1);
      assert BasePolicy(base[n - 1]);
      NoUnknownSelectors(env, base[n - 1], base[n - 1].selectors);
    }
  }

  lemma {:induction false} NoneFails(env: Env, base: seq<Policy>, n: nat)
    requires IsBaseline(base) && n <= |base|
    ensures FlattenFindings(Expand(env, TableOf(base)), base, n) == []
  {
    if n > 0 {
      NoneFails(env, base, n - 1);
      assert BasePolicy(base[n - 1]);
      if IsFirst(base, n - 1) {
        BaseExpands(env, base, n - 1);
      }
    }
  }

  lemma BaseResolvesQuietly(env: Env, base: seq<Policy>)
    requires IsBaseline(base)
    ensures ResolveFindings(env, base) == []
  {
    NoRepeats(env, base);
    NoneUnknown(env, base, |base|);
    NoneFails(env, base, |base|);
  }

  // -------------------------------------------------------- where relaxing rules come from

  /** The rule, as declared, of some declared policy. */
  ghost predicate DeclaredRule(env: Env, declared: seq<Policy>, rule: Rule, kept: Rule) {
    kept == ValidRule(env, rule) && exists i :: 0 <= i < |declared| && rule in declared[i].rules
  }

  /** A relaxing rule in force was declared. */
  lemma RelaxingRuleDeclared(env: Env, base: seq<Policy>, declared: seq<Policy>, p: Policy, kept: Rule) returns (rule: Rule)
    requires IsBaseline(base) && Declared(declared)
    requires p in E.InForce(env, base + declared) && kept in p.rules && Relaxes(kept.kind)
    ensures DeclaredRule(env, declared, rule, kept)
  {
    ValidComposed(env, base, declared);
    var valid := ValidPolicies(env, declared);
    var q := ResolvedRuleOrigin(env, base + valid, p, kept);
    var k :| 0 <= k < |base + valid| && (base + valid)[k] == q;
    if k < |base| {
      assert false;
    }
    ValidPoliciesAt(env, declared);
    var i := k - |base|;
    assert q == ValidPolicy(env, declared[i]);
    ValidRulesAt(env, declared[i].rules);
    var j :| 0 <= j < |q.rules| && q.rules[j] == kept;
    rule := declared[i].rules[j];
  }

  // --------------------------------------------------------- the baseline's own report

  lemma NothingRelaxed(env: Env, base: seq<Policy>, sinks: seq<Sink>)
    requires IsBaseline(base)
    ensures var inForce := E.InForce(env, base);
            && W.Collected(inForce) == []
            && CollectExceptions(inForce) == []
            && (forall s :: !Exempt(ExemptionsOf(env, sinks, inForce), s))
  {
    ValidBase(env, base);
    var inForce := E.InForce(env, base);
    forall p | p in inForce
      ensures BasePolicy(p)
    {
      BaseOnly(env, base, p);
    }
    if W.AllWaivers(inForce) != [] {
      var p, rule := W.WaiverFrom(inForce, W.AllWaivers(inForce)[0]);
      assert false;
    }
    if AllExceptions(inForce) != [] {
      var p, rule := ExceptionFrom(inForce, AllExceptions(inForce)[0]);
      assert false;
    }
    forall s
      ensures !Exempt(ExemptionsOf(env, sinks, inForce), s)
    {
      if Exempt(ExemptionsOf(env, sinks, inForce), s) {
        var p, rule := ExemptFrom(env, sinks, inForce, s);
        assert false;
      }
    }
  }

  lemma {:induction false} BuiltinsNeverUnmatched(env: Env, policies: seq<Policy>, matched: set<string>)
    requires forall p | p in policies :: p.builtin
    ensures E.UnmatchedFindings(env, policies, matched) == []
  {
    if policies != [] {
      BuiltinsNeverUnmatched(env, policies[..|policies| - 1], matched);
    }
  }

  /** Alone, the baseline raises nothing but posture findings, and nothing is waived. */
  lemma BaseRaised(env: Env, m: Manifest, base: seq<Policy>)
    requires IsBaseline(base)
    ensures var inForce := E.InForce(env, base);
            && E.Raised(env, m, base) == E.PostureFindings(E.ChecksOf(env, m, inForce), m, inForce)
            && W.Collected(inForce) == []
  {
    var inForce := E.InForce(env, base);
    ValidBase(env, base);
    BaseResolvesQuietly(env, base);
    NothingRelaxed(env, base, m.frontend.sinks);
    forall p | p in inForce
      ensures p.builtin
    {
      BaseOnly(env, base, p);
    }
    BuiltinsNeverUnmatched(env, inForce, E.MatchedNames(E.ChecksOf(env, m, inForce), m, inForce));
    assert ExceptionFindings(env, m.frontend.sinks, []) == [];
  }

  /** What the baseline reports alone is posture. */
  lemma BaseReport(env: Env, ctx: W.WaiverContext, m: Manifest, base: seq<Policy>, f: Finding)
    requires IsBaseline(base) && f in E.Report(env, ctx, m, base)
    ensures var inForce := E.InForce(env, base);
            f in E.PostureFindings(E.ChecksOf(env, m, inForce), m, inForce)
  {
    BaseRaised(env, m, base);
    OnlyPosture(env, ctx, E.Raised(env, m, base), f);
  }

  lemma OnlyPosture(env: Env, ctx: W.WaiverContext, raised: seq<Finding>, f: Finding)
    requires var findings := KeepFirst(raised, E.DedupeKey);
             var judge := W.Program(env, ctx);
             f in W.WaivedAll(judge, [], findings) + W.Reports(judge, [], findings, 0)
    ensures f in raised
  {
    var findings := KeepFirst(raised, E.DedupeKey);
    var judge := W.Program(env, ctx);
    var i :| 0 <= i < |findings| && f == W.Waived(judge, [], findings[i]);
    KeptIsFrom(raised, E.DedupeKey, findings[i]);
  }

  // ------------------------------------------------------- what composition keeps

  /** A rule that was declared is in force on a frontend policy. */
  ghost predicate DeclaredOnFrontend(env: Env, inForce: seq<Policy>, declared: seq<Policy>, kept: Rule) {
    && (exists rule :: DeclaredRule(env, declared, rule, kept))
    && exists q :: q in inForce && HasFrontendSelector(q) && kept in q.rules
  }

  /** A sink report of the baseline about a sink that a declared rule, in force on the frontend, lets through. */
  ghost predicate SinkLetThrough(env: Env, m: Manifest, base: seq<Policy>, declared: seq<Policy>, f: Finding) {
    exists p, deny, sink, kept ::
      && p in base && ReportsSink(env, m, p, deny, sink, f)
      && DeclaredOnFrontend(env, E.InForce(env, base + declared), declared, kept) && LetsThrough(env, kept, sink)
  }

  /**
   Exactly when composition keeps what a baseline policy in force says about raw HTML: some sink it
   says it about is named by no allow rule in force on the frontend and has no active exception.
   */
  lemma SinkStaysIff(env: Env, m: Manifest, p: Policy, inForce: seq<Policy>, f: Finding)
    ensures (exists rule :: rule in p.rules && rule.kind == DenyRawHTMLSinks
               && f in EvalFrontendRule(env, m, ExemptionsOf(env, m.frontend.sinks, inForce), p, rule))
            <==>
            exists rule, sink :: ReportsSink(env, m, p, rule, sink, f) && !LetIn(env, m, inForce, sink)
  {
    var x := ExemptionsOf(env, m.frontend.sinks, inForce);
    forall rule | rule in p.rules && rule.kind == DenyRawHTMLSinks
      ensures f in EvalFrontendRule(env, m, x, p, rule) <==> exists sink :: ReportsSink(env, m, p, rule, sink, f) && !Exempt(x, sink)
    {
      RuleUnderExemptions(env, m, x, p, rule, f);
    }
    forall sink
      ensures Exempt(x, sink) <==> LetIn(env, m, inForce, sink)
    {
      ExemptIff(env, m.frontend.sinks, inForce, sink);
    }
  }

  /** An allow rule in force on the frontend names the sink, or an exception collected there is active for it. */
  ghost predicate LetIn(env: Env, m: Manifest, inForce: seq<Policy>, sink: Sink) {
    || (exists p, rule :: AllowedBy(inForce, p, rule, sink))
    || (exists e :: e in CollectExceptions(inForce) && ClassifyException(env, m.frontend.sinks, e).Active? && e.fingerprint == sink.fingerprint)
  }

  /** A frontend finding of a baseline policy stays, unless it is about a sink that is now exempt. */
  lemma FrontendKept(env: Env, m: Manifest, x: Exemptions, y: Exemptions, p: Policy, f: Finding) returns (deny: Rule, sink: Sink)
    requires f in EvalFrontend(env, m, x, p)
    ensures f in EvalFrontend(env, m, y, p) || (ReportsSink(env, m, p, deny, sink, f) && Exempt(y, sink))
  {
    FrontendUnderExemptions(env, m, x, p, f);
    FrontendUnderExemptions(env, m, y, p, f);
    if rule, s :| ReportsSink(env, m, p, rule, s, f) && !Exempt(x, s) {
      deny, sink := rule, s;
    } else {
      deny := BaselineRule(CheckCORS, "");
      sink := Sink("", "", "", "");
    }
  }

  lemma FrontendPostureKept(env: Env, m: Manifest, base: seq<Policy>, declared: seq<Policy>, f: Finding)
    requires IsBaseline(base) && Declared(declared)
    requires var few := E.InForce(env, base);
             f in E.Rows(E.FrontendCheck(env, ExemptionsOf(env, m.frontend.sinks, few)), [m], few)
    ensures var all := E.InForce(env, base + declared);
            || f in E.Rows(E.FrontendCheck(env, ExemptionsOf(env, m.frontend.sinks, all)), [m], all)
            || SinkLetThrough(env, m, base, declared, f)
  {
    var few, all := E.InForce(env, base), E.InForce(env, base + declared);
    var x, y := ExemptionsOf(env, m.frontend.sinks, few), ExemptionsOf(env, m.frontend.sinks, all);
    E.RowsHas(E.FrontendCheck(env, x), [m], few, f);
    E.RowsHas(E.FrontendCheck(env, y), [m], all, f);
    var e, p :| e in [m] && p in few && E.FrontendCheck(env, x).matches(e, p) && f in E.FrontendCheck(env, x).eval(e, p);
    assert e == m && HasFrontendSelector(p) && f in EvalFrontend(env, m, x, p);
    BaseInForce(env, base, declared, p);
    var deny, sink := FrontendKept(env, m, x, y, p, f);
    if f in EvalFrontend(env, m, y, p) {
      assert E.FrontendCheck(env, y).matches(m, p) && f in E.FrontendCheck(env, y).eval(m, p);
    } else {
      var q, kept := ExemptFrom(env, m.frontend.sinks, all, sink);
      var rule := RelaxingRuleDeclared(env, base, declared, q, kept);
      assert DeclaredOnFrontend(env, all, declared, kept);
      assert SinkLetThrough(env, m, base, declared, f);
    }
  }

  lemma BaseInForce(env: Env, base: seq<Policy>, declared: seq<Policy>, p: Policy)
    requires IsBaseline(base) && p in E.InForce(env, base)
    ensures p in base && p in E.InForce(env, base + declared)
  {
    ValidBase(env, base);
    BaseOnly(env, base, p);
    ValidComposed(env, base, declared);
    BaseKept(env, base, base + ValidPolicies(env, declared), p);
  }

  lemma PostureKept(env: Env, m: Manifest, base: seq<Policy>, declared: seq<Policy>, f: Finding)
    requires IsBaseline(base) && Declared(declared)
    requires var few := E.InForce(env, base); f in E.PostureFindings(E.ChecksOf(env, m, few), m, few)
    ensures f in E.Raised(env, m, base + declared) || SinkLetThrough(env, m, base, declared, f)
  {
    var few, all := E.InForce(env, base), E.InForce(env, base + declared);
    forall p | p in few
      ensures p in all
    {
      BaseInForce(env, base, declared, p);
    }
    if f in E.Rows(E.EndpointCheck(env), m.endpoints, few) {
      E.RowsGrow(E.EndpointCheck(env), m.endpoints, few, all, f);
    } else if f in E.Rows(E.RouteCheck(env), m.routes, few) {
      E.RowsGrow(E.RouteCheck(env), m.routes, few, all, f);
    } else if f in E.Rows(E.ContractCheck(env), m.contracts, few) {
      E.RowsGrow(E.ContractCheck(env), m.contracts, few, all, f);
    } else if f in E.Rows(E.ObservabilityCheck(env), m.observability, few) {
      E.RowsGrow(E.ObservabilityCheck(env), m.observability, few, all, f);
    } else {
      FrontendPostureKept(env, m, base, declared, f);
    }
    assert f in E.PostureFindings(E.ChecksOf(env, m, all), m, all) || SinkLetThrough(env, m, base, declared, f);
  }

  /** Suppressed by a waiver that was declared, is valid and matches. */
  ghost predicate WaivedByDeclared(env: Env, ctx: W.WaiverContext, declared: seq<Policy>, g: Finding) {
    exists rule, kept, w: W.Waiver ::
      && DeclaredRule(env, declared, rule, kept) && kept.kind == Waive && w == W.WaiverOf(kept, w.policy)
      && W.Classify(env, ctx, w) == W.Valid && W.WaiverMatches(w, g) && g.suppression == Some(W.SuppressionBy(w))
  }

  /** What was raised is in the report, open or waived by a declared waiver. */
  lemma RaisedIsReported(env: Env, ctx: W.WaiverContext, m: Manifest, base: seq<Policy>, declared: seq<Policy>, f: Finding) returns (g: Finding)
    requires IsBaseline(base) && Declared(declared) && HeadersFresh(env) && f in E.Raised(env, m, base + declared)
    ensures g in E.Report(env, ctx, m, base + declared) && E.DedupeKey(g) == E.DedupeKey(f)
    ensures g.suppression.None? || WaivedByDeclared(env, ctx, declared, g)
    ensures g.severity == SeverityFor(env, g.code) && PlainCode(g.code)
  {
    var policies := base + declared;
    var raised := E.Raised(env, m, policies);
    var judge, waivers := W.Program(env, ctx), W.Collected(E.InForce(env, policies));
    var kept := KeptFor(raised, E.DedupeKey, f);
    ComposedPlain(base, declared);
    RaisedFresh(env, m, policies);
    KeptIsFrom(raised, E.DedupeKey, kept);
    var findings := KeepFirst(raised, E.DedupeKey);
    g := W.Waived(judge, waivers, kept);
    var i :| 0 <= i < |findings| && findings[i] == kept;
    assert W.WaivedAll(judge, waivers, findings)[i] == g;
    W.SuppressionExact(judge, waivers, kept);
    if g != kept {
      var k :| 0 <= k < |waivers| && W.Applies(judge, waivers[k], kept) && g == kept.(suppression := Some(judge.mark(waivers[k])));
      var w := waivers[k];
      KeptIsFrom(W.AllWaivers(E.InForce(env, policies)), W.WaiverKey, w);
      var p, waive := W.WaiverFrom(E.InForce(env, policies), w);
      var rule := RelaxingRuleDeclared(env, base, declared, p, waive);
      assert W.WaiverMatches(w, g);
      assert WaivedByDeclared(env, ctx, declared, g);
    }
  }

  /** The built-in policies pin plain codes only; validation sees to the declared ones. */
  predicate BuiltinsPlain(policies: seq<Policy>) {
    forall i | 0 <= i < |policies| && policies[i].builtin :: PlainRules(policies[i].rules)
  }

  lemma InForcePlain(env: Env, policies: seq<Policy>, p: Policy)
    requires BuiltinsPlain(policies) && p in E.InForce(env, policies)
    ensures PlainRules(p.rules)
  {
    var valid := ValidPolicies(env, policies);
    ValidPoliciesAt(env, policies);
    forall rule | rule in p.rules
      ensures PlainCode(rule.code)
    {
      var q := ResolvedRuleOrigin(env, valid, p, rule);
      var i :| 0 <= i < |valid| && valid[i] == q;
      ValidPolicyPlain(env, policies[i]);
    }
  }

  lemma ValidPolicyPlain(env: Env, policy: Policy)
    requires policy.builtin ==> PlainRules(policy.rules)
    ensures PlainRules(ValidPolicy(env, policy).rules)
  {
    if !policy.builtin {
      ValidRulesAt(env, policy.rules);
      forall i | 0 <= i < |policy.rules|
        ensures PlainCode(ValidRules(env, policy.rules)[i].code)
      {
        ValidRulePlain(env, policy.rules[i]);
      }
    }
  }

  lemma ComposedPlain(base: seq<Policy>, declared: seq<Policy>)
    requires IsBaseline(base) && Declared(declared)
    ensures BuiltinsPlain(base + declared)
  {
  }

  lemma RaisedFresh(env: Env, m: Manifest, policies: seq<Policy>)
    requires HeadersFresh(env) && BuiltinsPlain(policies)
    ensures AllFresh(env, E.Raised(env, m, policies))
  {
    var inForce := E.InForce(env, policies);
    var checks := E.ChecksOf(env, m, inForce);
    var code, resolution := CodeFindings(env, policies), ResolveFindings(env, ValidPolicies(env, policies));
    var exceptions := ExceptionFindings(env, m.frontend.sinks, CollectExceptions(inForce));
    var posture := E.PostureFindings(checks, m, inForce);
    var unmatched := E.UnmatchedFindings(env, inForce, E.MatchedNames(checks, m, inForce));
    ResolveFindingsFresh(env, ValidPolicies(env, policies));
    forall p | p in inForce
      ensures PlainRules(p.rules)
    {
      InForcePlain(env, policies, p);
    }
    PostureFresh(env, m, inForce);
    FreshConcat(env, code, resolution);
    FreshConcat(env, code + resolution, exceptions);
    FreshConcat(env, code + resolution + exceptions, posture);
    FreshConcat(env, code + resolution + exceptions + posture, unmatched);
  }

  lemma FreshConcat(env: Env, a: seq<Finding>, b: seq<Finding>)
    requires AllFresh(env, a) && AllFresh(env, b)
    ensures AllFresh(env, a + b)
  {
  }

  lemma PostureFresh(env: Env, m: Manifest, policies: seq<Policy>)
    requires HeadersFresh(env) && forall p | p in policies :: PlainRules(p.rules)
    ensures AllFresh(env, E.PostureFindings(E.ChecksOf(env, m, policies), m, policies))
  {
    var x := ExemptionsOf(env, m.frontend.sinks, policies);
    E.RowsFresh(env, E.EndpointCheck(env), m.endpoints, policies);
    E.RowsFresh(env, E.RouteCheck(env), m.routes, policies);
    E.RowsFresh(env, E.ContractCheck(env), m.contracts, policies);
    E.RowsFresh(env, E.ObservabilityCheck(env), m.observability, policies);
    forall e, p | p in policies
      ensures AllFresh(env, E.FrontendCheck(env, x).eval(e, p))
    {
      EvalFrontendFresh(env, e, x, p);
    }
    E.RowsFresh(env, E.FrontendCheck(env, x), [m], policies);
  }

  // ------------------------------------------------------ what silences a finding

  /** A waiver that is honoured: complete, not expired, and pinned to the current digests or to none. */
  predicate Honoured(env: Env, ctx: W.WaiverContext, w: W.Waiver) {
    && w.code != "" && w.target != "" && w.owner != "" && w.justification != "" && w.expires != ""
    && env.expiry(w.expires).Some? && env.expiry(w.expires).value > ctx.now
    && (w.policyDigest == "" || ctx.policyDigest == "" || w.policyDigest == ctx.policyDigest)
    && (w.postureDigest == "" || ctx.postureDigest == "" || w.postureDigest == ctx.postureDigest)
  }

  /** The waiver is for that code, and its target, which is not blank, is a glob for that one. */
  ghost predicate Names(w: W.Waiver, code: string, target: string) {
    w.code == code && TrimSpace(w.target) != "" && Accepts(TrimSpace(w.target), target)
  }

  /**
   Exactly when a finding of the report is silenced: it is not about policies or waivers
   themselves, and a complete, unexpired and current waiver in force names its code and a glob
   that accepts its target.
   */
  lemma SuppressedIff(env: Env, ctx: W.WaiverContext, m: Manifest, policies: seq<Policy>, g: Finding)
    requires HeadersFresh(env) && BuiltinsPlain(policies) && g in E.Report(env, ctx, m, policies)
    ensures g.suppression.Some? <==>
              && !W.IsPolicyResolutionCode(g.code)
              && exists w :: w in W.Collected(E.InForce(env, policies)) && Honoured(env, ctx, w) && Names(w, g.code, g.target)
  {
    var judge, waivers := W.Program(env, ctx), W.Collected(E.InForce(env, policies));
    var raised := E.Raised(env, m, policies);
    var findings := KeepFirst(raised, E.DedupeKey);
    if g in W.Reports(judge, waivers, findings, |waivers|) {
      WaiverCodes();
      ReportsExempt(judge, code => W.IsPolicyResolutionCode(code), waivers, findings, |waivers|, g);
    } else {
      var i :| 0 <= i < |findings| && g == W.WaivedAll(judge, waivers, findings)[i];
      KeptIsFrom(raised, E.DedupeKey, findings[i]);
      RaisedFresh(env, m, policies);
      WaivedIff(env, ctx, waivers, findings[i]);
    }
  }

  lemma WaivedIff(env: Env, ctx: W.WaiverContext, waivers: seq<W.Waiver>, f: Finding)
    requires f.suppression.None?
    ensures W.Waived(W.Program(env, ctx), waivers, f).suppression.Some? <==>
              !W.IsPolicyResolutionCode(f.code) && exists w :: w in waivers && Honoured(env, ctx, w) && Names(w, f.code, f.target)
    ensures var g := W.Waived(W.Program(env, ctx), waivers, f); g.code == f.code && g.target == f.target
  {
    var judge := W.Program(env, ctx);
    W.SuppressionExact(judge, waivers, f);
    forall w
      ensures W.Applies(judge, w, f) <==> Honoured(env, ctx, w) && Names(w, f.code, f.target)
    {
      ValidIff(env, ctx, w);
      GlobIff(TrimSpace(w.target), f.target);
    }
    if w :| w in waivers && Honoured(env, ctx, w) && Names(w, f.code, f.target) {
      var k :| 0 <= k < |waivers| && waivers[k] == w;
      assert W.Applies(judge, waivers[k], f);
    }
  }

  lemma ValidIff(env: Env, ctx: W.WaiverContext, w: W.Waiver)
    ensures W.Classify(env, ctx, w) == W.Valid <==> Honoured(env, ctx, w)
  {
  }

  /** Reports about waivers are never suppressed. */
  lemma {:induction false} ReportsExempt(judge: W.Judge, exempt: string -> bool, waivers: seq<W.Waiver>, findings: seq<Finding>, n: nat, g: Finding)
    requires n <= |waivers| && g in W.Reports(judge, waivers, findings, n)
    requires exempt(WAIVER_MALFORMED) && exempt(WAIVER_EXPIRED) && exempt(WAIVER_DIGEST) && exempt(WAIVER_UNMATCHED)
    requires forall w, code, reason :: judge.report(w, code, reason).code == code && judge.report(w, code, reason).suppression.None?
    ensures g.suppression.None? && exempt(g.code)
  {
    if g in W.Reports(judge, waivers, findings, n - 1) {
      ReportsExempt(judge, exempt, waivers, findings, n - 1, g);
    } else {
      assert g in W.ReportOn(judge, waivers[n - 1], W.Used(judge, waivers, findings, n - 1));
    }
  }

  lemma WaiverCodes()
    ensures W.IsPolicyResolutionCode(WAIVER_MALFORMED) && W.IsPolicyResolutionCode(WAIVER_EXPIRED)
    ensures W.IsPolicyResolutionCode(WAIVER_DIGEST) && W.IsPolicyResolutionCode(WAIVER_UNMATCHED)
  {
  }

  /** A key without the separator in its parts is the key of those parts only. */
  lemma KeyFields(f: Finding, g: Finding)
    requires E.DedupeKey(f) == E.DedupeKey(g)
    requires '\0' !in f.code && '\0' !in f.target && '\0' !in f.source && '\0' !in f.message
    ensures f.code == g.code && f.target == g.target && f.source == g.source && f.message == g.message
  {
    var a, b := [f.code, f.target, f.source, f.message], [g.code, g.target, g.source, g.message];
    JoinFour(f.code, f.target, f.source, f.message);
    JoinFour(g.code, g.target, g.source, g.message);
    assert multiset(E.DedupeKey(f))['\0'] == 3;
    JoinInjective(a, b, '\0');
    assert a[0] == b[0] && a[1] == b[1] && a[2] == b[2] && a[3] == b[3];
  }

  lemma JoinFour(a: string, b: string, c: string, d: string)
    ensures var joined := Join([a, b, c, d], "\0");
            multiset(joined)['\0'] == 3 + multiset(a)['\0'] + multiset(b)['\0'] + multiset(c)['\0'] + multiset(d)['\0']
  {
    var parts := [a, b, c, d];
    assert parts[1..] == [b, c, d] && [b, c, d][1..] == [c, d] && [c, d][1..] == [d];
    assert Join([c, d], "\0") == c + "\0" + d;
    assert Join([b, c, d], "\0") == b + "\0" + Join([c, d], "\0");
    assert Join(parts, "\0") == a + "\0" + Join([b, c, d], "\0");
  }

  /** A plain code is the first part of its key. */
  lemma KeyCode(f: Finding, g: Finding)
    requires E.DedupeKey(f) == E.DedupeKey(g) && PlainCode(f.code) && PlainCode(g.code)
    ensures f.code == g.code
  {
    var tail, rest := [f.target, f.source, f.message], [g.target, g.source, g.message];
    KeyStart(f.code, tail);
    KeyStart(g.code, rest);
    CodeLength(f.code, g.code, E.DedupeKey(f));
    CodeLength(g.code, f.code, E.DedupeKey(f));
    assert E.DedupeKey(f)[..|f.code|] == f.code && E.DedupeKey(g)[..|g.code|] == g.code;
  }

  lemma CodeLength(code: string, other: string, key: string)
    requires PlainCode(code) && code + "\0" <= key && other + "\0" <= key
    ensures |code| <= |other|
  {
    assert key[|other|] == (other + "\0")[|other|] == '\0';
    assert forall i | 0 <= i < |code| :: key[i] == (code + "\0")[i] == code[i];
  }

  lemma KeyStart(code: string, rest: seq<string>)
    requires rest != []
    ensures code + "\0" <= Join([code] + rest, "\0")
  {
    assert ([code] + rest)[1..] == rest;
  }

  /**
   Baseline monotonicity, for every manifest and every list of declared policies: each finding
   key the baseline alone reports is still reported after composition, unsuppressed or suppressed
   by a declared waiver that is valid and matches its code and target; the only other way out is
   a declared raw-HTML rule that lets the reported sink through.
   */
  lemma BaselineMonotone(env: Env, ctx: W.WaiverContext, m: Manifest, base: seq<Policy>, declared: seq<Policy>, f: Finding)
    requires IsBaseline(base) && Declared(declared) && HeadersFresh(env)
    ensures f in E.Report(env, ctx, m, base) ==>
              || SinkLetThrough(env, m, base, declared, f)
              || exists g ::
                   && g in E.Report(env, ctx, m, base + declared) && E.DedupeKey(g) == E.DedupeKey(f)
                   && g.severity == SeverityFor(env, g.code) && PlainCode(g.code)
                   && (g.suppression.None? || WaivedByDeclared(env, ctx, declared, g))
  {
    if f in E.Report(env, ctx, m, base) {
      BaseReport(env, ctx, m, base, f);
      PostureKept(env, m, base, declared, f);
      if f in E.Raised(env, m, base + declared) {
        var g := RaisedIsReported(env, ctx, m, base, declared, f);
      }
    }
  }

  /** The baseline that ships is one of those the theorem is about. */
  lemma BaselineIsBaseline()
    ensures IsBaseline(Baseline())
  {
    BaselineNames();
    BaselinePolicies();
  }

  lemma BaselinePolicies()
    ensures forall i | 0 <= i < |Baseline()| :: BasePolicy(Baseline()[i])
  {
    FirstPolicies();
    MiddlePolicies();
    LastPolicies();
  }

  lemma FirstPolicies()
    ensures forall i | 0 <= i < 4 :: BasePolicy(Baseline()[i])
  {
    AccessCodesPlain();
    SurfaceCodesPlain();
  }

  lemma MiddlePolicies()
    ensures forall i | 4 <= i < 8 :: BasePolicy(Baseline()[i])
  {
    AccessCodesPlain();
    SurfaceCodesPlain();
  }

  lemma LastPolicies()
    ensures forall i | 8 <= i < 12 :: BasePolicy(Baseline()[i])
  {
    AccessCodesPlain();
    SurfaceCodesPlain();
  }

  lemma BaselineNames()
    ensures forall i, j | 0 <= i < j < |Baseline()| :: Baseline()[i].name != Baseline()[j].name
  {
  }

  predicate NulFree(f: Finding) {
    '\0' !in f.code && '\0' !in f.target && '\0' !in f.source && '\0' !in f.message
  }

  /**
   g says what f says, at the same severity: under the same code and the same report key, which
   fixes target, source and message as well unless one of them holds the separator.
   */
  predicate SameFinding(f: Finding, g: Finding) {
    && f.code == g.code && f.severity == g.severity && E.DedupeKey(f) == E.DedupeKey(g)
    && (NulFree(f) ==> f.target == g.target && f.source == g.source && f.message == g.message)
  }

  /** The same for the baseline that ships, finding by finding instead of key by key. */
  lemma ComposedBaselineHolds(env: Env, ctx: W.WaiverContext, m: Manifest, declared: seq<Policy>, f: Finding)
    requires Declared(declared) && HeadersFresh(env)
    ensures f in E.Report(env, ctx, m, Baseline()) ==>
              || SinkLetThrough(env, m, Baseline(), declared, f)
              || exists g ::
                   && g in E.Report(env, ctx, m, ComposeBaseline(declared)) && SameFinding(f, g)
                   && (g.suppression.None? || WaivedByDeclared(env, ctx, declared, g))
  {
    var base := Baseline();
    BaselineIsBaseline();
    BaselineMonotone(env, ctx, m, base, declared, f);
    if f in E.Report(env, ctx, m, base) && !SinkLetThrough(env, m, base, declared, f) {
      var g :|
        && g in E.Report(env, ctx, m, base + declared) && E.DedupeKey(g) == E.DedupeKey(f)
        && g.severity == SeverityFor(env, g.code) && PlainCode(g.code)
        && (g.suppression.None? || WaivedByDeclared(env, ctx, declared, g));
      BaseFresh(env, ctx, m, base, f);
      SameKeySame(env, f, g);
    }
  }

  lemma SameKeySame(env: Env, f: Finding, g: Finding)
    requires E.DedupeKey(f) == E.DedupeKey(g) && PlainCode(f.code) && PlainCode(g.code)
    requires f.severity == SeverityFor(env, f.code) && g.severity == SeverityFor(env, g.code)
    ensures SameFinding(f, g)
  {
    KeyCode(f, g);
    if NulFree(f) {
      KeyFields(f, g);
    }
  }

  lemma BaseFresh(env: Env, ctx: W.WaiverContext, m: Manifest, base: seq<Policy>, f: Finding)
    requires IsBaseline(base) && HeadersFresh(env) && f in E.Report(env, ctx, m, base)
    ensures Fresh(env, f)
  {
    BaseReport(env, ctx, m, base, f);
    forall p | p in E.InForce(env, base)
      ensures PlainRules(p.rules)
    {
      InForcePlain(env, base, p);
    }
    PostureFresh(env, m, E.InForce(env, base));
  }

  /** How a declared policy may account for a baseline finding that no longer blocks. */
  ghost predicate Excused(env: Env, ctx: W.WaiverContext, m: Manifest, declared: seq<Policy>, f: Finding) {
    || SinkLetThrough(env, m, Baseline(), declared, f)
    || (exists g :: SameFinding(f, g) && WaivedByDeclared(env, ctx, declared, g))
  }

  /**
   Fail closed: one error raised by the baseline alone keeps the audit failing whatever else is
   declared, unless a declared rule excuses that very error.
   */
  lemma FailClosed(env: Env, ctx: W.WaiverContext, m: Manifest, declared: seq<Policy>, composed: W.Summary, f: Finding)
    requires Declared(declared) && HeadersFresh(env) && f.severity == Error
    ensures var report := E.Report(env, ctx, m, ComposeBaseline(declared));
            composed.errors == W.Count(report, W.As(Error)) && composed.warnings == W.Count(report, W.As(Warning))
              && f in E.Report(env, ctx, m, Baseline())
            ==> W.Status(composed) == W.Fail || Excused(env, ctx, m, declared, f)
  {
    var report := E.Report(env, ctx, m, ComposeBaseline(declared));
    if composed.errors == W.Count(report, W.As(Error)) && composed.warnings == W.Count(report, W.As(Warning)) {
      W.StatusMeans(report, composed);
    }
    ComposedBaselineHolds(env, ctx, m, declared, f);
  }

  lemma {:induction false} RepeatReported(env: Env, policies: seq<Policy>, i: nat)
    requires i < |policies| && policies[i].name in TableOf(policies[..i])
    ensures RepeatFinding(env, TableOf(policies[..i])[policies[i].name], policies[i]) in RepeatFindings(env, policies)
    decreases |policies|
  {
    var before := policies[..|policies| - 1];
    if i < |before| {
      assert before[..i] == policies[..i] && before[i] == policies[i];
      RepeatReported(env, before, i);
    } else {
      assert before == policies[..i];
    }
  }

  /**
   A declared policy under a baseline name is reported as an override and never takes force: what
   is in force under that name is the baseline's own policy.
   */
  lemma OverrideRejected(env: Env, base: seq<Policy>, declared: seq<Policy>, k: nat, i: nat)
    requires IsBaseline(base) && Declared(declared) && k < |base| && i < |declared| && declared[i].name == base[k].name
    ensures var valid := ValidPolicies(env, base + declared);
            && (exists p :: p in valid && p.name == declared[i].name && !p.builtin &&
                  ResolutionFinding(env, BASELINE_OVERRIDE, p, ReusesBaselineName(p.name)) in ResolveFindings(env, valid))
            && (forall p | p in E.InForce(env, base + declared) && p.name == base[k].name :: p == base[k])
  {
    var valid := ValidPolicies(env, base + declared);
    ValidComposed(env, base, declared);
    ValidPoliciesAt(env, declared);
    var j := |base| + i;
    assert valid[j] == ValidPolicy(env, declared[i]);
    TableOfPrefix(base, valid, k, j);
    RepeatReported(env, valid, j);
    forall p | p in E.InForce(env, base + declared) && p.name == base[k].name
      ensures p == base[k]
    {
      var n := ResolvedFrom(Expand(env, TableOf(valid)), valid, |valid|, p);
      assert valid[k] == base[k] && valid[n].name == valid[k].name;
      FirstIsUnique(base, valid, k, n);
      assert BasePolicy(base[k]);
      BaseExpands(env, valid, k);
      assert base[k].(rules := base[k].rules) == base[k];
    }
  }

  lemma FirstIsUnique(base: seq<Policy>, policies: seq<Policy>, k: nat, n: nat)
    requires IsBaseline(base) && base <= policies && k < |base| && n < |policies|
    requires IsFirst(policies, n) && policies[n].name == policies[k].name
    ensures n == k && IsFirst(policies, k)
  {
    assert forall j | 0 <= j < |base| :: policies[j] == base[j];
  }

  lemma TableOfPrefix(base: seq<Policy>, policies: seq<Policy>, k: nat, j: nat)
    requires IsBaseline(base) && base <= policies && k < |base| <= j < |policies|
    ensures base[k].name in TableOf(policies[..j]) && TableOf(policies[..j])[base[k].name] == base[k]
  {
    var before := policies[..j];
    assert forall i | 0 <= i < |base| :: before[i] == base[i];
    TableFirst(before, k);
  }
}
