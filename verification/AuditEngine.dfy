/**
 The whole audit, EvaluateWithWaivers of internal/auditspec/engine.go, and the promise of
 internal/auditspec/ir.go that the built-in baseline can be tightened or explicitly waived but
 never silently weakened.
 */
module AuditEngine {
  import opened Text
  import opened Dedupe
  import opened AuditTypes
  import opened AuditMatch
  import opened AuditCodes
  import opened AuditResolve
  import opened AuditRules
  import AuditWaivers

  // ------------------------------------------------- every entry, every policy

  /** How entries of one kind are matched and evaluated. */
  datatype Check<!E(!new)> = Check(matches: (E, Policy) -> bool, eval: (E, Policy) -> seq<Finding>)

  function Row<E(!new)>(check: Check<E>, e: E, policies: seq<Policy>): seq<Finding> {
    if policies == [] then []
    else
      var before, last := Row(check, e, policies[..|policies| - 1]), policies[|policies| - 1];
      if check.matches(e, last) then before + check.eval(e, last) else before
  }

  /** The findings of one of the nested loops over entries and policies. */
  function Rows<E(!new)>(check: Check<E>, entries: seq<E>, policies: seq<Policy>): seq<Finding> {
    if entries == [] then [] else Rows(check, entries[..|entries| - 1], policies) + Row(check, entries[|entries| - 1], policies)
  }

  /** The names of the policies that match an entry. */
  function RowHits<E(!new)>(check: Check<E>, e: E, policies: seq<Policy>): set<string> {
    if policies == [] then {}
    else
      var before, last := RowHits(check, e, policies[..|policies| - 1]), policies[|policies| - 1];
      if check.matches(e, last) then before + {last.name} else before
  }

  function Hits<E(!new)>(check: Check<E>, entries: seq<E>, policies: seq<Policy>): set<string> {
    if entries == [] then {} else Hits(check, entries[..|entries| - 1], policies) + RowHits(check, entries[|entries| - 1], policies)
  }

  method EvaluateRow<E(!new)>(check: Check<E>, e: E, policies: seq<Policy>, findings: seq<Finding>, matched: set<string>)
    returns (findings': seq<Finding>, matched': set<string>)
    ensures findings' == findings + Row(check, e, policies) && matched' == matched + RowHits(check, e, policies)
  {
    findings', matched' := findings, matched;
    for i := 0 to |policies|
      invariant findings' == findings + Row(check, e, policies[..i]) && matched' == matched + RowHits(check, e, policies[..i])
    {
      assert policies[..i + 1][..i] == policies[..i];
      if !check.matches(e, policies[i]) {
        continue;
      }
      matched' := matched' + {policies[i].name};
      findings' := findings' + check.eval(e, policies[i]);
    }
    assert policies[..|policies|] == policies;
  }

  method EvaluateRows<E(!new)>(check: Check<E>, entries: seq<E>, policies: seq<Policy>, findings: seq<Finding>, matched: set<string>)
    returns (findings': seq<Finding>, matched': set<string>)
    ensures findings' == findings + Rows(check, entries, policies) && matched' == matched + Hits(check, entries, policies)
  {
    findings', matched' := findings, matched;
    for i := 0 to |entries|
      invariant findings' == findings + Rows(check, entries[..i], policies) && matched' == matched + Hits(check, entries[..i], policies)
    {
      assert entries[..i + 1][..i] == entries[..i];
      findings', matched' := EvaluateRow(check, entries[i], policies, findings', matched');
    }
    assert entries[..|entries|] == entries;
  }

  lemma {:induction false} RowHas<E(!new)>(check: Check<E>, e: E, policies: seq<Policy>, f: Finding)
    ensures f in Row(check, e, policies) <==> exists p :: p in policies && check.matches(e, p) && f in check.eval(e, p)
  {
    if policies != [] {
      var before, last := policies[..|policies| - 1], policies[|policies| - 1];
      RowHas(check, e, before, f);
      assert policies == before + [last];
    }
  }

  /** A finding is raised about some entry by some policy that matches it. */
  lemma {:induction false} RowsHas<E(!new)>(check: Check<E>, entries: seq<E>, policies: seq<Policy>, f: Finding)
    ensures f in Rows(check, entries, policies) <==>
              exists e, p :: e in entries && p in policies && check.matches(e, p) && f in check.eval(e, p)
  {
    if entries != [] {
      var before, last := entries[..|entries| - 1], entries[|entries| - 1];
      RowsHas(check, before, policies, f);
      RowHas(check, last, policies, f);
      assert entries == before + [last];
    }
  }

  /** More policies, more findings. */
  lemma RowsGrow<E(!new)>(check: Check<E>, entries: seq<E>, fewer: seq<Policy>, more: seq<Policy>, f: Finding)
    requires f in Rows(check, entries, fewer) && forall p | p in fewer :: p in more
    ensures f in Rows(check, entries, more)
  {
    RowsHas(check, entries, fewer, f);
    RowsHas(check, entries, more, f);
  }

  lemma RowsFresh<E(!new)>(env: Env, check: Check<E>, entries: seq<E>, policies: seq<Policy>)
    requires forall e, p | p in policies :: AllFresh(env, check.eval(e, p))
    ensures AllFresh(env, Rows(check, entries, policies))
  {
    var rows := Rows(check, entries, policies);
    forall i | 0 <= i < |rows|
      ensures Fresh(env, rows[i])
    {
      RowsHas(check, entries, policies, rows[i]);
      var e, p :| e in entries && p in policies && check.matches(e, p) && rows[i] in check.eval(e, p);
      assert AllFresh(env, check.eval(e, p));
    }
  }

  function EndpointCheck(env: Env): Check<Endpoint> {
    Check((e, p) => MatchesEndpoint(p, e), (e, p) => EvalEndpoint(env, e, p))
  }

  function RouteCheck(env: Env): Check<Route> {
    Check((r, p) => MatchesRoute(p, r), (r, p) => EvalRoute(env, r, p))
  }

  function ContractCheck(env: Env): Check<Contract> {
    Check((c, p) => MatchesContract(p, c), (c, p) => EvalContract(env, c, p))
  }

  function ObservabilityCheck(env: Env): Check<Observability> {
    Check((o, p) => MatchesObservability(p, o), (o, p) => EvalObservability(env, o, p))
  }

  /** The loop over the frontend policies, as a check on the one frontend. */
  function FrontendCheck(env: Env, x: Exemptions): Check<Manifest> {
    Check((m, p) => HasFrontendSelector(p), (m, p) => EvalFrontend(env, m, x, p))
  }

  // ---------------------------------------------------------- unmatched policies

  predicate HasWaiver(p: Policy) {
    exists r | r in p.rules :: r.kind == Waive
  }

  function WaiverNames(policies: seq<Policy>): set<string> {
    if policies == [] then {}
    else
      var before, last := WaiverNames(policies[..|policies| - 1]), policies[|policies| - 1];
      if HasWaiver(last) then before + {last.name} else before
  }

  predicate Silent(p: Policy, matched: set<string>) {
    !p.builtin && p.name !in matched && p.selectors != []
  }

  function SilentNames(policies: seq<Policy>, matched: set<string>): set<string> {
    if policies == [] then {}
    else
      var before, last := SilentNames(policies[..|policies| - 1], matched), policies[|policies| - 1];
      if Silent(last, matched) then before + {last.name} else before
  }

  /** unmatchedSelectorFindings. */
  function UnmatchedFindings(env: Env, policies: seq<Policy>, matched: set<string>): (r: seq<Finding>)
    ensures AllFresh(env, r)
  {
    ResolutionCodesPlain();
    if policies == [] then []
    else
      var before, last := UnmatchedFindings(env, policies[..|policies| - 1], matched), policies[|policies| - 1];
      if Silent(last, matched) && last.name !in SilentNames(policies[..|policies| - 1], matched)
      then before + [ResolutionFinding(env, MATCHED_NOTHING, last, MatchedNothing(last.name))]
      else before
  }

  method ReportUnmatched(env: Env, policies: seq<Policy>, matched: set<string>) returns (findings: seq<Finding>)
    ensures findings == UnmatchedFindings(env, policies, matched)
  {
    findings := [];
    var seen: set<string> := {};
    for i := 0 to |policies|
      invariant findings == UnmatchedFindings(env, policies[..i], matched) && seen == SilentNames(policies[..i], matched)
    {
      var policy := policies[i];
      assert policies[..i + 1][..i] == policies[..i];
      if policy.builtin || policy.name in matched || policy.name in seen {
        continue;
      }
      if policy.selectors == [] {
        continue;
      }
      seen := seen + {policy.name};
      findings := findings + [ResolutionFinding(env, MATCHED_NOTHING, policy, MatchedNothing(policy.name))];
    }
    assert policies[..|policies|] == policies;
  }

  method AddWaiverNames(policies: seq<Policy>, matched: set<string>) returns (matched': set<string>)
    ensures matched' == matched + WaiverNames(policies)
  {
    matched' := matched;
    for i := 0 to |policies|
      invariant matched' == matched + WaiverNames(policies[..i])
    {
      assert policies[..i + 1][..i] == policies[..i];
      if HasWaiver(policies[i]) {
        matched' := matched' + {policies[i].name};
      }
    }
    assert policies[..|policies|] == policies;
  }

  // ---------------------------------------------------------------- the pipeline

  /** The checks on every kind of entry. */
  datatype Checks = Checks(
    endpoint: Check<Endpoint>, route: Check<Route>, contract: Check<Contract>, observability: Check<Observability>, frontend: Check<Manifest>)

  function ChecksOf(env: Env, m: Manifest, policies: seq<Policy>): Checks {
    Checks(EndpointCheck(env), RouteCheck(env), ContractCheck(env), ObservabilityCheck(env),
           FrontendCheck(env, ExemptionsOf(env, m.frontend.sinks, policies)))
  }

  /** What the rules of the resolved policies say about the manifest. */
  function PostureFindings(checks: Checks, m: Manifest, policies: seq<Policy>): seq<Finding> {
    Rows(checks.endpoint, m.endpoints, policies)
    + Rows(checks.route, m.routes, policies)
    + Rows(checks.contract, m.contracts, policies)
    + Rows(checks.observability, m.observability, policies)
    + Rows(checks.frontend, [m], policies)
  }

  function MatchedNames(checks: Checks, m: Manifest, policies: seq<Policy>): set<string> {
    Hits(checks.endpoint, m.endpoints, policies)
    + Hits(checks.route, m.routes, policies)
    + Hits(checks.contract, m.contracts, policies)
    + Hits(checks.observability, m.observability, policies)
    + Hits(checks.frontend, [m], policies)
    + WaiverNames(policies)
  }

  /** The policies in force: validated, then resolved. */
  function InForce(env: Env, policies: seq<Policy>): seq<Policy> {
    ResolvedPolicies(env, ValidPolicies(env, policies))
  }

  /** Everything raised, before duplicates are dropped. */
  function Raised(env: Env, m: Manifest, policies: seq<Policy>): seq<Finding> {
    var inForce := InForce(env, policies);
    var checks := ChecksOf(env, m, inForce);
    CodeFindings(env, policies)
    + ResolveFindings(env, ValidPolicies(env, policies))
    + ExceptionFindings(env, m.frontend.sinks, CollectExceptions(inForce))
    + PostureFindings(checks, m, inForce)
    + UnmatchedFindings(env, inForce, MatchedNames(checks, m, inForce))
  }

  function DedupeKey(f: Finding): string {
    Join([f.code, f.target, f.source, f.message], "\0")
  }

  /** The audit's report. */
  function Report(env: Env, ctx: AuditWaivers.WaiverContext, m: Manifest, policies: seq<Policy>): seq<Finding> {
    var judge, waivers := AuditWaivers.Program(env, ctx), AuditWaivers.Collected(InForce(env, policies));
    var findings := KeepFirst(Raised(env, m, policies), DedupeKey);
    AuditWaivers.WaivedAll(judge, waivers, findings) + AuditWaivers.Reports(judge, waivers, findings, |waivers|)
  }

  method EvaluatePosture(checks: Checks, m: Manifest, policies: seq<Policy>, before: seq<Finding>)
    returns (findings: seq<Finding>, matched: set<string>)
    ensures findings == before + PostureFindings(checks, m, policies) && matched == MatchedNames(checks, m, policies)
  {
    findings, matched := EvaluateRows(checks.endpoint, m.endpoints, policies, before, {});
    findings, matched := EvaluateRows(checks.route, m.routes, policies, findings, matched);
    findings, matched := EvaluateRows(checks.contract, m.contracts, policies, findings, matched);
    findings, matched := EvaluateRows(checks.observability, m.observability, policies, findings, matched);
    findings, matched := EvaluateRows(checks.frontend, [m], policies, findings, matched);
    matched := AddWaiverNames(policies, matched);
  }

  /** EvaluateWithWaivers; the metadata of EnrichFindings is not modelled. */
  method EvaluateWithWaivers(env: Env, ctx: AuditWaivers.WaiverContext, m: Manifest, policies: seq<Policy>) returns (report: seq<Finding>)
    ensures report == Report(env, ctx, m, policies)
  {
    var valid, codeFindings := ValidatePolicyRuleCodes(env, policies);
    var resolved, resolutionFindings := Resolve(env, valid);
    var exceptions := ExceptionFindings(env, m.frontend.sinks, CollectExceptions(resolved));
    var findings, matched := EvaluatePosture(ChecksOf(env, m, resolved), m, resolved, codeFindings + resolutionFindings + exceptions);
    var unmatched := ReportUnmatched(env, resolved, matched);
    findings := findings + unmatched;
    assert findings == Raised(env, m, policies);
    var waivers := AuditWaivers.CollectWaivers(resolved);
    report := Finish(AuditWaivers.Program(env, ctx), waivers, findings, DedupeKey);
  }

  /** The end of the pipeline: duplicates dropped in place, waivers applied in place, waiver reports appended. */
  method Finish(judge: AuditWaivers.Judge, waivers: seq<AuditWaivers.Waiver>, raised: seq<Finding>, key: Finding -> string)
    returns (report: seq<Finding>)
    ensures var findings := KeepFirst(raised, key);
            report == AuditWaivers.WaivedAll(judge, waivers, findings) + AuditWaivers.Reports(judge, waivers, findings, |waivers|)
  {
    var buffer := new Finding[|raised|](i requires 0 <= i < |raised| => raised[i]);
    assert buffer[..] == raised;
    var n := Compact(buffer, key);
    var kept := buffer[..n];
    var findings := new Finding[n](i requires 0 <= i < |kept| => kept[i]);
    assert findings[..] == kept;
    var extra := AuditWaivers.ApplyWaivers(judge, findings, waivers);
    report := findings[..] + extra;
  }
}
