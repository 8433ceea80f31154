/**
 What the audit says about the policies themselves: overrides that do not stand, repeated names,
 unknown selectors, bad chains of extends, exceptions that do not hold and policies that select
 nothing are each raised exactly when they occur.
 */
module AuditFaults {
  import opened Text
  import opened Dedupe
  import opened AuditTypes
  import opened AuditCodes
  import opened AuditResolve
  import opened AuditRules
  import opened AuditBaseline
  import opened AuditGates
  import opened AuditDeclared
  import opened AuditRelief
  import W = AuditWaivers
  import E = AuditEngine

  /** A declared policy pins a code that does not stand. */
  ghost predicate OverrideFault(env: Env, policies: seq<Policy>, f: Finding) {
    exists p, rule ::
      && p in policies && !p.builtin && rule in p.rules && Violates(env, rule)
      && f == RuleCodeFinding(env, p, rule, RuleCodeViolation(env, rule).value.1, RuleCodeViolation(env, rule).value.0)
  }

  /** A policy repeats the name of one before it; taking a baseline name has a code of its own. */
  ghost predicate RepeatFault(env: Env, policies: seq<Policy>, f: Finding) {
    exists i, j ::
      && 0 <= i < j < |policies| && IsFirst(policies, i) && policies[i].name == policies[j].name
      && f == (if policies[i].builtin && !policies[j].builtin
               then ResolutionFinding(env, BASELINE_OVERRIDE, policies[j], ReusesBaselineName(policies[j].name))
               else ResolutionFinding(env, DUPLICATE_NAME, policies[j], DeclaredTwice(policies[j].name)))
  }

  /** A first-declared policy has a selector of no known form. */
  ghost predicate SelectorFault(env: Env, policies: seq<Policy>, f: Finding) {
    exists i, s ::
      && 0 <= i < |policies| && IsFirst(policies, i) && s in policies[i].selectors && s.kind == UnknownSelector
      && f == ResolutionFinding(env, UNKNOWN_SELECTOR, policies[i], UnrecognizedSelector(policies[i].name, s.raw))
  }

  /** The one report of a first-declared policy that does not resolve, about a bad chain from it. */
  ghost predicate ChainFault(env: Env, policies: seq<Policy>, f: Finding) {
    exists i ::
      && 0 <= i < |policies| && IsFirst(policies, i) && !AuditResolve.Sound(TableOf(policies), policies[i].name)
      && f in Flatten(env, TableOf(policies), policies[i].name, {}).findings
  }

  /** Why an exception rule does not hold: a field is missing or its date unreadable, it is over, or no sink has its fingerprint. */
  ghost predicate Lapsed(env: Env, m: Manifest, rule: Rule, code: string) {
    var complete := && TrimSpace(rule.value) != "" && (exists t :: Given(rule, "owner", t))
                    && (exists t :: Given(rule, "justification", t)) && (exists t :: Given(rule, "sanitizer", t))
                    && (exists t :: Given(rule, "expires", t) && env.expiry(t).Some?);
    var live := exists t :: Given(rule, "expires", t) && env.expiry(t).Some? && env.expiry(t).value > env.now;
    if !complete then code == EXCEPTION_MALFORMED
    else if !live then code == EXCEPTION_EXPIRED
    else code == EXCEPTION_UNMATCHED && forall s | s in m.frontend.sinks :: s.fingerprint != TrimSpace(rule.value)
  }

  ghost predicate ExceptionFault(env: Env, m: Manifest, inForce: seq<Policy>, f: Finding) {
    exists p, rule ::
      && LeadingException(inForce, p, rule) && Lapsed(env, m, rule, f.code)
      && f.target == "raw-html-exception:" + TrimSpace(rule.value) && f.policy == p.name && f.source == rule.source
  }

  // ------------------------------------------------------------------ kind by kind

  lemma {:induction false} OverridesIff(env: Env, policies: seq<Policy>, f: Finding)
    ensures f in CodeFindings(env, policies) <==> OverrideFault(env, policies, f)
  {
    if policies != [] {
      hide Violates, RuleCodeFinding, RuleCodeViolation;
      var before, last := policies[..|policies| - 1], policies[|policies| - 1];
      OverridesIff(env, before, f);
      RuleFindingsExact(env, last, last.rules, f);
      assert policies == before + [last];
    }
  }

  ghost predicate RepeatAt(env: Env, policies: seq<Policy>, f: Finding, j: nat)
    requires j < |policies|
  {
    exists i :: 0 <= i < j && IsFirst(policies, i) && policies[i].name == policies[j].name && f == RepeatFinding(env, policies[i], policies[j])
  }

  lemma RepeatAtIff(env: Env, policies: seq<Policy>, f: Finding, j: nat)
    requires j < |policies|
    ensures var before := policies[..j];
            RepeatAt(env, policies, f, j) <==>
              policies[j].name in TableOf(before) && f == RepeatFinding(env, TableOf(before)[policies[j].name], policies[j])
  {
    hide RepeatFinding, TableOf;
    var before := policies[..j];
    if policies[j].name in TableOf(before) {
      var i := TableFrom(before, policies[j].name);
      assert IsFirst(policies, i) && policies[i] == before[i];
      forall k | 0 <= k < j && IsFirst(policies, k) && policies[k].name == policies[j].name
        ensures k == i
      {
      }
    }
    if i :| 0 <= i < j && IsFirst(policies, i) && policies[i].name == policies[j].name && f == RepeatFinding(env, policies[i], policies[j]) {
      assert before[i] == policies[i];
      TableFirst(before, i);
    }
  }

  lemma {:induction false} RepeatsUpTo(env: Env, policies: seq<Policy>, n: nat, f: Finding)
    requires n <= |policies|
    ensures f in RepeatFindings(env, policies[..n]) <==> exists j :: 0 <= j < n && RepeatAt(env, policies, f, j)
  {
    if n > 0 {
      hide RepeatAt, RepeatFinding, TableOf;
      RepeatsUpTo(env, policies, n - 1, f);
      assert policies[..n][..n - 1] == policies[..n - 1] && policies[..n][n - 1] == policies[n - 1];
      RepeatAtIff(env, policies, f, n - 1);
    }
  }

  lemma RepeatsIff(env: Env, policies: seq<Policy>, f: Finding)
    ensures f in RepeatFindings(env, policies) <==> RepeatFault(env, policies, f)
  {
    RepeatsUpTo(env, policies, |policies|, f);
    assert policies[..|policies|] == policies;
    hide RepeatFindings, IsFirst;
    if j :| 0 <= j < |policies| && RepeatAt(env, policies, f, j) {
      var i :| 0 <= i < j && IsFirst(policies, i) && policies[i].name == policies[j].name && f == RepeatFinding(env, policies[i], policies[j]);
      assert RepeatFault(env, policies, f);
    }
    if RepeatFault(env, policies, f) {
      var i, j :| 0 <= i < j < |policies| && IsFirst(policies, i) && policies[i].name == policies[j].name && f == RepeatFinding(env, policies[i], policies[j]);
      assert RepeatAt(env, policies, f, j);
    }
  }

  lemma {:induction false} SelectorsOf(env: Env, policy: Policy, selectors: seq<Selector>, f: Finding)
    ensures f in SelectorFindings(env, policy, selectors) <==>
              exists s :: s in selectors && s.kind == UnknownSelector
                && f == ResolutionFinding(env, UNKNOWN_SELECTOR, policy, UnrecognizedSelector(policy.name, s.raw))
  {
    if selectors != [] {
      var before, last := selectors[..|selectors| - 1], selectors[|selectors| - 1];
      SelectorsOf(env, policy, before, f);
      assert selectors == before + [last];
    }
  }

  ghost predicate SelectorAt(env: Env, policies: seq<Policy>, f: Finding, i: nat)
    requires i < |policies|
  {
    && IsFirst(policies, i)
    && exists s :: s in policies[i].selectors && s.kind == UnknownSelector
         && f == ResolutionFinding(env, UNKNOWN_SELECTOR, policies[i], UnrecognizedSelector(policies[i].name, s.raw))
  }

  lemma {:induction false} SelectorsIff(env: Env, policies: seq<Policy>, n: nat, f: Finding)
    requires n <= |policies|
    ensures f in AllSelectorFindings(env, policies, n) <==> exists i :: 0 <= i < n && SelectorAt(env, policies, f, i)
  {
    if n > 0 {
      hide SelectorAt;
      SelectorsIff(env, policies, n - 1, f);
      SelectorsOf(env, policies[n - 1], policies[n - 1].selectors, f);
      SelectorAtIff(env, policies, f, n - 1);
    }
  }

  lemma SelectorAtIff(env: Env, policies: seq<Policy>, f: Finding, i: nat)
    requires i < |policies|
    ensures SelectorAt(env, policies, f, i) <==>
              && IsFirst(policies, i)
              && exists s :: s in policies[i].selectors && s.kind == UnknownSelector
                   && f == ResolutionFinding(env, UNKNOWN_SELECTOR, policies[i], UnrecognizedSelector(policies[i].name, s.raw))
  {
  }

  ghost predicate ChainAt(flat: Expansion, policies: seq<Policy>, f: Finding, i: nat)
    requires i < |policies|
  {
    IsFirst(policies, i) && f in flat(policies[i].name).findings
  }

  lemma {:induction false} ChainsIff(flat: Expansion, policies: seq<Policy>, n: nat, f: Finding)
    requires n <= |policies|
    ensures f in FlattenFindings(flat, policies, n) <==> exists i :: 0 <= i < n && ChainAt(flat, policies, f, i)
    decreases n
  {
    if n > 0 {
      ChainsIff(flat, policies, n - 1, f);
      ChainLast(flat, policies, n, f);
      hide *;
    }
  }

  lemma ChainLast(flat: Expansion, policies: seq<Policy>, n: nat, f: Finding)
    requires 0 < n <= |policies|
    ensures f in FlattenFindings(flat, policies, n) <==> f in FlattenFindings(flat, policies, n - 1) || ChainAt(flat, policies, f, n - 1)
  {
    hide IsFirst;
  }

  lemma ChainFaultIff(env: Env, policies: seq<Policy>, f: Finding)
    ensures f in FlattenFindings(Expand(env, TableOf(policies)), policies, |policies|) <==> ChainFault(env, policies, f)
  {
    hide Flatten, IsFirst, AuditResolve.Sound;
    var table := TableOf(policies);
    ChainsIff(Expand(env, table), policies, |policies|, f);
    hide TableOf;
    forall i | 0 <= i < |policies| && f in Flatten(env, table, policies[i].name, {}).findings
      ensures !AuditResolve.Sound(table, policies[i].name)
    {
      FlattenExact(env, table, policies[i].name);
    }
    if i :| 0 <= i < |policies| && ChainAt(Expand(env, table), policies, f, i) {
      assert f in Flatten(env, table, policies[i].name, {}).findings;
    }
    if ChainFault(env, policies, f) {
      var i :|
        && 0 <= i < |policies| && IsFirst(policies, i) && !AuditResolve.Sound(table, policies[i].name)
        && f in Flatten(env, table, policies[i].name, {}).findings;
      assert ChainAt(Expand(env, table), policies, f, i);
    }
  }

  /** What is said about one collected exception. */
  function SaidOf(env: Env, sinks: seq<Sink>, e: Exception): seq<Finding> {
    match ClassifyException(env, sinks, e)
    case Active => []
    case Malformed(reason) => [ExceptionFinding(env, e, EXCEPTION_MALFORMED, reason)]
    case Expired(reason) => [ExceptionFinding(env, e, EXCEPTION_EXPIRED, reason)]
    case Unmatched(reason) => [ExceptionFinding(env, e, EXCEPTION_UNMATCHED, reason)]
  }

  lemma {:induction false} ExceptionsHave(env: Env, sinks: seq<Sink>, es: seq<Exception>, f: Finding)
    ensures f in ExceptionFindings(env, sinks, es) <==> exists e :: e in es && f in SaidOf(env, sinks, e)
  {
    if es != [] {
      ExceptionsHave(env, sinks, es[1..], f);
      assert ExceptionFindings(env, sinks, es) == SaidOf(env, sinks, es[0]) + ExceptionFindings(env, sinks, es[1..]);
      hide ExceptionFindings, SaidOf;
      assert es == [es[0]] + es[1..];
    }
  }

  lemma SaidIff(env: Env, m: Manifest, rule: Rule, policy: string, code: string)
    requires rule.kind == ExceptRawHTML
    ensures var e := ExceptionOf(rule, policy);
            (exists f :: f in SaidOf(env, m.frontend.sinks, e) && f.code == code) <==> Lapsed(env, m, rule, code)
    ensures forall f | f in SaidOf(env, m.frontend.sinks, ExceptionOf(rule, policy)) ::
              f.target == "raw-html-exception:" + TrimSpace(rule.value) && f.policy == policy && f.source == rule.source
  {
    hide TrimSpace;
    var e := ExceptionOf(rule, policy);
    GivenIff(rule, "owner", e.owner);
    GivenIff(rule, "justification", e.justification);
    GivenIff(rule, "sanitizer", e.sanitizer);
    GivenIff(rule, "expires", e.expires);
    LapsedIff(env, m, rule, policy, code);
    var said := SaidOf(env, m.frontend.sinks, e);
    if said != [] {
      assert said[0] in said;
    }
  }

  lemma LapsedIff(env: Env, m: Manifest, rule: Rule, policy: string, code: string)
    requires rule.kind == ExceptRawHTML
    ensures var e := ExceptionOf(rule, policy);
            Lapsed(env, m, rule, code) <==>
              match ClassifyException(env, m.frontend.sinks, e)
              case Active => false
              case Malformed(_) => code == EXCEPTION_MALFORMED
              case Expired(_) => code == EXCEPTION_EXPIRED
              case Unmatched(_) => code == EXCEPTION_UNMATCHED
  {
    hide TrimSpace;
    var e := ExceptionOf(rule, policy);
    forall key, text
      ensures Given(rule, key, text) <==> text == Attr(rule, key) && text != ""
    {
      GivenIff(rule, key, text);
    }
    assert e.owner != "" <==> Given(rule, "owner", e.owner);
    assert e.justification != "" <==> Given(rule, "justification", e.justification);
    assert e.sanitizer != "" <==> Given(rule, "sanitizer", e.sanitizer);
    assert e.expires != "" <==> Given(rule, "expires", e.expires);
  }

  lemma ExceptionsIff(env: Env, m: Manifest, inForce: seq<Policy>, f: Finding)
    requires f in ExceptionFindings(env, m.frontend.sinks, CollectExceptions(inForce))
    ensures ExceptionFault(env, m, inForce, f)
  {
    hide ClassifyException, ExceptionOf, LeadingException, Lapsed, CollectExceptions;
    ExceptionsHave(env, m.frontend.sinks, CollectExceptions(inForce), f);
    var e :| e in CollectExceptions(inForce) && f in SaidOf(env, m.frontend.sinks, e);
    AuditRelief.ExceptionsIff(inForce, e);
    var p, rule :| LeadingException(inForce, p, rule) && e == ExceptionOf(rule, p.name);
    LeadingExcepts(inForce, p, rule);
    SaidIff(env, m, rule, p.name, f.code);
  }

  lemma LeadingExcepts(inForce: seq<Policy>, p: Policy, rule: Rule)
    requires LeadingException(inForce, p, rule)
    ensures rule.kind == ExceptRawHTML
  {
  }

  /** A leading exception that does not hold is raised under the code that says why. */
  lemma LapsedRaised(env: Env, m: Manifest, inForce: seq<Policy>, p: Policy, rule: Rule, code: string)
    requires LeadingException(inForce, p, rule) && Lapsed(env, m, rule, code)
    ensures exists f :: f in ExceptionFindings(env, m.frontend.sinks, CollectExceptions(inForce)) && f.code == code
              && f.target == "raw-html-exception:" + TrimSpace(rule.value) && f.policy == p.name && f.source == rule.source
  {
    hide ClassifyException, ExceptionOf, LeadingException, Lapsed, CollectExceptions, SaidOf;
    var e := ExceptionOf(rule, p.name);
    LeadingExcepts(inForce, p, rule);
    AuditRelief.ExceptionsIff(inForce, e);
    SaidIff(env, m, rule, p.name, code);
    var f :| f in SaidOf(env, m.frontend.sinks, e) && f.code == code;
    ExceptionsHave(env, m.frontend.sinks, CollectExceptions(inForce), f);
  }

  // --------------------------------------------------------------------- all of them

  /** The finding is one of those about the policies themselves. */
  ghost predicate PolicyFault(env: Env, m: Manifest, policies: seq<Policy>, f: Finding) {
    var valid, inForce := ValidPolicies(env, policies), E.InForce(env, policies);
    || OverrideFault(env, policies, f)
    || RepeatFault(env, valid, f) || SelectorFault(env, valid, f) || ChainFault(env, valid, f)
    || (exists p :: p in inForce && Idle(m, p) && f == IdleFinding(env, p))
  }

  lemma SelectorFaultIff(env: Env, policies: seq<Policy>, f: Finding)
    ensures f in AllSelectorFindings(env, policies, |policies|) <==> SelectorFault(env, policies, f)
  {
    hide AllSelectorFindings, IsFirst;
    SelectorsIff(env, policies, |policies|, f);
    if i :| 0 <= i < |policies| && SelectorAt(env, policies, f, i) {
      SelectorAtIff(env, policies, f, i);
    }
    if SelectorFault(env, policies, f) {
      var i, s :|
        && 0 <= i < |policies| && IsFirst(policies, i) && s in policies[i].selectors && s.kind == UnknownSelector
        && f == ResolutionFinding(env, UNKNOWN_SELECTOR, policies[i], UnrecognizedSelector(policies[i].name, s.raw));
      SelectorAtIff(env, policies, f, i);
    }
  }

  lemma IdlesIff(env: Env, m: Manifest, policies: seq<Policy>, f: Finding)
    requires AllParsed(policies)
    ensures var inForce := E.InForce(env, policies);
            f in E.UnmatchedFindings(env, inForce, E.MatchedNames(E.ChecksOf(env, m, inForce), m, inForce))
            <==> exists p :: p in inForce && Idle(m, p) && f == IdleFinding(env, p)
  {
    hide Idle, IdleFinding, E.MatchedNames, E.InForce, E.ChecksOf, AllParsed;
    var inForce := E.InForce(env, policies);
    var matched := E.MatchedNames(E.ChecksOf(env, m, inForce), m, inForce);
    if f in E.UnmatchedFindings(env, inForce, matched) {
      SilentFrom(env, inForce, matched, f);
      var p :| p in inForce && E.Silent(p, matched) && f == IdleFinding(env, p);
      IdleIff(env, m, policies, p);
    }
    forall p | p in inForce && Idle(m, p) && f == IdleFinding(env, p)
      ensures f in E.UnmatchedFindings(env, inForce, matched)
    {
      IdleIff(env, m, policies, p);
    }
  }

  /**
   Everything that is raised: a fault of the policies themselves, an exception that does not hold,
   or what the rules in force say of the manifest.
   */
  lemma RaisedIff(env: Env, m: Manifest, policies: seq<Policy>, f: Finding)
    requires AllParsed(policies)
    ensures var inForce := E.InForce(env, policies);
            f in E.Raised(env, m, policies) <==>
              || PolicyFault(env, m, policies, f)
              || f in ExceptionFindings(env, m.frontend.sinks, CollectExceptions(inForce))
              || f in E.PostureFindings(E.ChecksOf(env, m, inForce), m, inForce)
  {
    hide OverrideFault, RepeatFault, SelectorFault, ChainFault, Idle, IdleFinding, AllParsed, E.InForce, E.ChecksOf, E.PostureFindings, E.MatchedNames, ValidPolicies, CollectExceptions;
    var valid := ValidPolicies(env, policies);
    OverridesIff(env, policies, f);
    RepeatsIff(env, valid, f);
    SelectorFaultIff(env, valid, f);
    ChainFaultIff(env, valid, f);
    IdlesIff(env, m, policies, f);
    InConcat(env, m, policies, f);
  }

  lemma InConcat(env: Env, m: Manifest, policies: seq<Policy>, f: Finding)
    ensures var valid, inForce := ValidPolicies(env, policies), E.InForce(env, policies);
            var checks := E.ChecksOf(env, m, inForce);
            f in E.Raised(env, m, policies) <==>
              || f in CodeFindings(env, policies)
              || f in RepeatFindings(env, valid) || f in AllSelectorFindings(env, valid, |valid|)
              || f in FlattenFindings(Expand(env, TableOf(valid)), valid, |valid|)
              || f in ExceptionFindings(env, m.frontend.sinks, CollectExceptions(inForce))
              || f in E.PostureFindings(checks, m, inForce)
              || f in E.UnmatchedFindings(env, inForce, E.MatchedNames(checks, m, inForce))
  {
  }

  /** Every fault of the policies is in the report, saying the same. */
  lemma FaultsReported(env: Env, ctx: W.WaiverContext, m: Manifest, policies: seq<Policy>, f: Finding) returns (g: Finding)
    requires HeadersFresh(env) && BuiltinsPlain(policies) && AllParsed(policies) && PolicyFault(env, m, policies, f)
    ensures g in E.Report(env, ctx, m, policies) && SameFinding(f, g)
  {
    hide PolicyFault, SameFinding;
    RaisedIff(env, m, policies, f);
    g := RaisedSame(env, ctx, m, policies, f);
  }
}
