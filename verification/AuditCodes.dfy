/**
 Diagnostic code overrides, internal/auditspec/codes.go: a declared rule may relabel itself only
 within its own family and never below the severity floor of its kind.
 */
module AuditCodes {
  import opened Text
  import opened AuditTypes

  function RuleDefaultCode(kind: RuleKind): string {
    match kind
    case RequireAnyGuard => GUARDLESS
    case RequireGuard => GUARD_MISSING
    case DenyPublic => PUBLIC_NOT_ALLOWED
    case MaxBody => MAX_BODY
    case RequireHeader => HEADERS_MISSING
    case NoSecretsInBundle => BUNDLE_SECRET
    case DenyRawHTMLSinks => RAW_HTML_SINK
    case DenyRolelessContract => ROLELESS
    case RequireClientRouteGuards => CLIENT_ROUTE
    case RequireVerifiedGuards => GUARD_UNVERIFIED
    case _ => ""
  }

  /** The codes a rule of this kind may pin; none means it takes no override. */
  function RuleAllowedCodes(kind: RuleKind): seq<string> {
    match kind
    case RequireCSRF => [ACTION_MISSING_CSRF, API_MISSING_CSRF, COMMAND_MISSING_CSRF]
    case RequireAnyGuard => [GUARDLESS, PUBLIC_BY_OMISSION, GUARD_MISSING, CLIENT_ROUTE]
    case RequireGuard => [GUARD_MISSING, GUARDLESS, PUBLIC_BY_OMISSION]
    case DenyPublic => [PUBLIC_NOT_ALLOWED]
    case MaxBody => [MAX_BODY]
    case RequireHeader => [HEADERS_MISSING, HEADERS_RUNTIME_MISSING]
    case NoSecretsInBundle => [BUNDLE_SECRET]
    case DenyRawHTMLSinks => [RAW_HTML_SINK]
    case DenyRolelessContract => [ROLELESS]
    case RequireClientRouteGuards => [CLIENT_ROUTE]
    case RequireVerifiedGuards => [GUARD_UNVERIFIED]
    case _ => []
  }

  function RuleMinSeverity(kind: RuleKind): Severity {
    match kind
    case MaxBody | RequireHeader | DenyRawHTMLSinks | RequireClientRouteGuards | RequireVerifiedGuards => Warning
    case _ => Error
  }

  predicate BelowFloor(env: Env, rule: Rule) {
    SeverityRank(SeverityFor(env, rule.code)) > SeverityRank(RuleMinSeverity(rule.kind))
  }

  /** ruleCodeViolation: what is wrong with a pinned code and the code that reports it. */
  function RuleCodeViolation(env: Env, rule: Rule): Option<(Message, string)> {
    if RuleAllowedCodes(rule.kind) == [] then Some((RuleTakesNoCode(rule.kind), CODE_INCOMPATIBLE))
    else if env.registry(rule.code).None? then Some((UnknownRuleCode(rule.kind, rule.code), CODE_UNKNOWN))
    else if rule.code !in RuleAllowedCodes(rule.kind) then Some((IncompatibleRuleCode(rule.kind, rule.code), CODE_INCOMPATIBLE))
    else if BelowFloor(env, rule) then Some((LoweredSeverity(rule.kind, rule.code), CODE_LOWERED))
    else None
  }

  predicate Violates(env: Env, rule: Rule) {
    rule.code != "" && RuleCodeViolation(env, rule).Some?
  }

  function ValidRule(env: Env, rule: Rule): Rule {
    if Violates(env, rule) then rule.(code := RuleDefaultCode(rule.kind)) else rule
  }

  function ValidRules(env: Env, rules: seq<Rule>): seq<Rule> {
    if rules == [] then [] else ValidRules(env, rules[..|rules| - 1]) + [ValidRule(env, rules[|rules| - 1])]
  }

  function ValidPolicy(env: Env, policy: Policy): Policy {
    if policy.builtin then policy else policy.(rules := ValidRules(env, policy.rules))
  }

  function ValidPolicies(env: Env, policies: seq<Policy>): seq<Policy> {
    if policies == [] then [] else ValidPolicies(env, policies[..|policies| - 1]) + [ValidPolicy(env, policies[|policies| - 1])]
  }

  function RuleCodeFinding(env: Env, policy: Policy, rule: Rule, code: string, reason: Message): Finding {
    Finding(code, SeverityFor(env, code), PolicyResolution, "policy:" + policy.name, policy.name, Some(rule.kind),
            env.wording(reason), if rule.source == "" then policy.source else rule.source, None)
  }

  function RuleFindings(env: Env, policy: Policy, rules: seq<Rule>): (r: seq<Finding>)
    ensures AllFresh(env, r)
  {
    OverrideCodesPlain();
    if rules == [] then []
    else
      var findings, last := RuleFindings(env, policy, rules[..|rules| - 1]), rules[|rules| - 1];
      if Violates(env, last)
      then findings + [RuleCodeFinding(env, policy, last, RuleCodeViolation(env, last).value.1, RuleCodeViolation(env, last).value.0)]
      else findings
  }

  function CodeFindings(env: Env, policies: seq<Policy>): (r: seq<Finding>)
    ensures AllFresh(env, r)
  {
    if policies == [] then []
    else
      var findings, last := CodeFindings(env, policies[..|policies| - 1]), policies[|policies| - 1];
      if last.builtin then findings else findings + RuleFindings(env, last, last.rules)
  }

  method ValidateRules(env: Env, policy: Policy) returns (rules: seq<Rule>, findings: seq<Finding>)
    ensures rules == ValidRules(env, policy.rules) && findings == RuleFindings(env, policy, policy.rules)
  {
    rules, findings := [], [];
    for i := 0 to |policy.rules|
      invariant rules == ValidRules(env, policy.rules[..i]) && findings == RuleFindings(env, policy, policy.rules[..i])
    {
      var rule := policy.rules[i];
      assert policy.rules[..i + 1][..i] == policy.rules[..i];
      if rule.code != "" {
        var violation := RuleCodeViolation(env, rule);
        if violation.Some? {
          findings := findings + [RuleCodeFinding(env, policy, rule, violation.value.1, violation.value.0)];
          rule := rule.(code := RuleDefaultCode(rule.kind));
        }
      }
      rules := rules + [rule];
    }
    assert policy.rules[..|policy.rules|] == policy.rules;
  }

  method ValidatePolicyRuleCodes(env: Env, policies: seq<Policy>) returns (out: seq<Policy>, findings: seq<Finding>)
    ensures out == ValidPolicies(env, policies) && findings == CodeFindings(env, policies)
  {
    out, findings := [], [];
    for i := 0 to |policies|
      invariant out == ValidPolicies(env, policies[..i]) && findings == CodeFindings(env, policies[..i])
    {
      var policy := policies[i];
      assert policies[..i + 1][..i] == policies[..i];
      if policy.builtin || policy.rules == [] {
        assert policy.rules == [] ==> policy.(rules := []) == policy;
        out := out + [policy];
      } else {
        var rules, found := ValidateRules(env, policy);
        findings := findings + found;
        out := out + [policy.(rules := rules)];
      }
    }
    assert policies[..|policies|] == policies;
  }

  lemma {:induction false} ValidRulesAt(env: Env, rules: seq<Rule>)
    ensures |ValidRules(env, rules)| == |rules|
    ensures forall i | 0 <= i < |rules| :: ValidRules(env, rules)[i] == ValidRule(env, rules[i])
  {
    if rules != [] {
      ValidRulesAt(env, rules[..|rules| - 1]);
    }
  }

  lemma {:induction false} ValidPoliciesAt(env: Env, policies: seq<Policy>)
    ensures |ValidPolicies(env, policies)| == |policies|
    ensures forall i | 0 <= i < |policies| :: ValidPolicies(env, policies)[i] == ValidPolicy(env, policies[i])
  {
    if policies != [] {
      ValidPoliciesAt(env, policies[..|policies| - 1]);
    }
  }

  /** The registry keeps every kind's default code at or above its floor. */
  ghost predicate DefaultsHold(env: Env) {
    forall kind: RuleKind :: RuleDefaultCode(kind) != "" ==>
      && env.registry(RuleDefaultCode(kind)).Some?
      && SeverityRank(SeverityFor(env, RuleDefaultCode(kind))) <= SeverityRank(RuleMinSeverity(kind))
  }

  /**
   Neutralised overrides: whatever code a declared rule pins, after validation it reports under
   no code of its own, or under a code of its own family that is registered and not below the
   floor of its kind; what the rule checks is untouched.
   */
  lemma NeverWeakened(env: Env, rule: Rule)
    requires DefaultsHold(env)
    ensures var valid := ValidRule(env, rule);
            && valid.(code := rule.code) == rule
            && (valid.code != "" ==>
                && valid.code in RuleAllowedCodes(rule.kind) && env.registry(valid.code).Some?
                && SeverityRank(SeverityFor(env, valid.code)) <= SeverityRank(RuleMinSeverity(rule.kind)))
            && ValidRule(env, valid) == valid && !Violates(env, valid)
  {
    DefaultAllowed(rule.kind);
    assert RuleDefaultCode(rule.kind) == "" || env.registry(RuleDefaultCode(rule.kind)).Some?;
  }

  /**
   Exactly which overrides stand: none, or one of the rule's own family that is registered and not
   below the floor.  Any other is replaced by the kind's default, and a rule without one to pin
   stays as it is only when it pins none.
   */
  lemma OverrideStandsIff(env: Env, rule: Rule)
    ensures var stands :=
              rule.code == ""
              || (rule.code in RuleAllowedCodes(rule.kind) && env.registry(rule.code).Some?
                  && SeverityRank(env.registry(rule.code).value) <= SeverityRank(RuleMinSeverity(rule.kind)));
            && (Violates(env, rule) <==> !stands)
            && ValidRule(env, rule) == if stands then rule else rule.(code := RuleDefaultCode(rule.kind))
  {
  }

  /** Which code reports an override that does not stand. */
  lemma ViolationCodes(env: Env, rule: Rule)
    requires Violates(env, rule)
    ensures var code := RuleCodeViolation(env, rule).value.1;
            var unregistered := env.registry(rule.code).None?;
            && (code == CODE_UNKNOWN <==> RuleAllowedCodes(rule.kind) != [] && unregistered)
            && (code == CODE_LOWERED <==> rule.code in RuleAllowedCodes(rule.kind) && !unregistered)
            && (code == CODE_INCOMPATIBLE <==> RuleAllowedCodes(rule.kind) == [] || (rule.code !in RuleAllowedCodes(rule.kind) && !unregistered))
  {
    OverrideCodesDiffer();
  }

  lemma OverrideCodesDiffer()
    ensures CODE_UNKNOWN != CODE_LOWERED && CODE_UNKNOWN != CODE_INCOMPATIBLE && CODE_LOWERED != CODE_INCOMPATIBLE
  {
    assert |CODE_LOWERED| != |CODE_UNKNOWN| && |CODE_UNKNOWN| != |CODE_INCOMPATIBLE| && |CODE_LOWERED| != |CODE_INCOMPATIBLE|;
  }

  lemma DefaultPlain(kind: RuleKind)
    ensures PlainCode(RuleDefaultCode(kind))
  {
    AccessCodesPlain();
    SurfaceCodesPlain();
  }

  lemma AllowedPlain(kind: RuleKind, code: string)
    requires code in RuleAllowedCodes(kind)
    ensures PlainCode(code)
  {
    AccessCodesPlain();
    SurfaceCodesPlain();
  }

  lemma ValidRulePlain(env: Env, rule: Rule)
    ensures PlainCode(ValidRule(env, rule).code)
  {
    DefaultPlain(rule.kind);
    if rule.code != "" && !Violates(env, rule) {
      AllowedPlain(rule.kind, rule.code);
    }
  }

  lemma DefaultAllowed(kind: RuleKind)
    ensures RuleDefaultCode(kind) == "" || RuleDefaultCode(kind) in RuleAllowedCodes(kind)
  {
  }

  /** Exactly the overrides that break the rules are reported, each in its own policy's name. */
  lemma {:induction false} RuleFindingsExact(env: Env, policy: Policy, rules: seq<Rule>, f: Finding)
    ensures f in RuleFindings(env, policy, rules) <==>
              exists i :: 0 <= i < |rules| && Violates(env, rules[i]) &&
                f == RuleCodeFinding(env, policy, rules[i], RuleCodeViolation(env, rules[i]).value.1, RuleCodeViolation(env, rules[i]).value.0)
  {
    if rules != [] {
      var shorter := rules[..|rules| - 1];
      RuleFindingsExact(env, policy, shorter, f);
      assert forall i | 0 <= i < |shorter| :: shorter[i] == rules[i];
    }
  }
}
