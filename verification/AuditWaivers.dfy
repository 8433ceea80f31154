/**
 Waivers, internal/auditspec/waiver.go, and the summary of internal/auditspec/auditspec.go: each
 waiver either suppresses a finding or is reported, suppression is recorded and never removes
 anything, and the counts add up.
 */
module AuditWaivers {
  import opened Text
  import opened AuditTypes
  import opened AuditMatch
  import opened Dedupe

  datatype Waiver = Waiver(
    code: string, target: string, owner: string, justification: string, expires: string, ticket: string,
    policyDigest: string, postureDigest: string, policy: string, source: string)

  datatype WaiverContext = WaiverContext(now: int, policyDigest: string, postureDigest: string)

  datatype State = Valid | Malformed(reason: Message) | Expired(reason: Message) | DigestMismatch(reason: Message)

  function WaiverOf(rule: Rule, policy: string): Waiver {
    Waiver(TrimSpace(rule.value), Attr(rule, "target"), Attr(rule, "owner"), Attr(rule, "justification"), Attr(rule, "expires"),
           Attr(rule, "ticket"), Attr(rule, "policy_digest"), Attr(rule, "posture_digest"), policy, rule.source)
  }

  function WaiverKey(w: Waiver): string {
    w.code + "\0" + w.target + "\0" + w.source + "\0" + w.expires
  }

  function RuleWaivers(rules: seq<Rule>, policy: string): seq<Waiver> {
    if rules == [] then []
    else
      var before, last := RuleWaivers(rules[..|rules| - 1], policy), rules[|rules| - 1];
      if last.kind == Waive then before + [WaiverOf(last, policy)] else before
  }

  /** Every waive rule of every policy, in order. */
  function AllWaivers(policies: seq<Policy>): seq<Waiver> {
    if policies == [] then []
    else AllWaivers(policies[..|policies| - 1]) + RuleWaivers(policies[|policies| - 1].rules, policies[|policies| - 1].name)
  }

  /** The waivers in force: the first of each key. */
  function Collected(policies: seq<Policy>): seq<Waiver> {
    KeepFirst(AllWaivers(policies), WaiverKey)
  }

  /** The rules of one policy, added to the waivers collected so far. */
  method CollectRules(rules: seq<Rule>, policy: string, key: Waiver -> string, ghost before: seq<Waiver>, kept: seq<Waiver>, keys: set<string>)
    returns (waivers: seq<Waiver>, seen: set<string>)
    requires kept == KeepFirst(before, key) && keys == Keys(before, key)
    ensures waivers == KeepFirst(before + RuleWaivers(rules, policy), key) && seen == Keys(before + RuleWaivers(rules, policy), key)
  {
    waivers, seen := kept, keys;
    assert before + [] == before;
    for i := 0 to |rules|
      invariant waivers == KeepFirst(before + RuleWaivers(rules[..i], policy), key)
      invariant seen == Keys(before + RuleWaivers(rules[..i], policy), key)
    {
      assert rules[..i + 1][..i] == rules[..i];
      if rules[i].kind != Waive {
        continue;
      }
      var waiver := WaiverOf(rules[i], policy);
      ghost var all := before + RuleWaivers(rules[..i], policy);
      assert before + RuleWaivers(rules[..i + 1], policy) == all + [waiver];
      assert (all + [waiver])[..|all|] == all;
      if key(waiver) in seen {
        continue;
      }
      seen := seen + {key(waiver)};
      waivers := waivers + [waiver];
    }
    assert rules[..|rules|] == rules;
  }

  /** collectWaivers. */
  method CollectWaivers(policies: seq<Policy>) returns (waivers: seq<Waiver>)
    ensures waivers == Collected(policies)
  {
    waivers := [];
    var seen: set<string> := {};
    for i := 0 to |policies|
      invariant waivers == KeepFirst(AllWaivers(policies[..i]), WaiverKey) && seen == Keys(AllWaivers(policies[..i]), WaiverKey)
    {
      assert policies[..i + 1][..i] == policies[..i];
      waivers, seen := CollectRules(policies[i].rules, policies[i].name, WaiverKey, AllWaivers(policies[..i]), waivers, seen);
    }
    assert policies[..|policies|] == policies;
  }

  lemma {:induction false} RuleWaiverFrom(rules: seq<Rule>, policy: string, w: Waiver) returns (rule: Rule)
    requires w in RuleWaivers(rules, policy)
    ensures rule in rules && rule.kind == Waive && w == WaiverOf(rule, policy)
  {
    if w in RuleWaivers(rules[..|rules| - 1], policy) {
      rule := RuleWaiverFrom(rules[..|rules| - 1], policy, w);
    } else {
      rule := rules[|rules| - 1];
    }
  }

  /** Every waiver in force is a waive rule of one of the policies. */
  lemma {:induction false} WaiverFrom(policies: seq<Policy>, w: Waiver) returns (p: Policy, rule: Rule)
    requires w in AllWaivers(policies)
    ensures p in policies && rule in p.rules && rule.kind == Waive && w == WaiverOf(rule, p.name)
  {
    var last := policies[|policies| - 1];
    if w in AllWaivers(policies[..|policies| - 1]) {
      p, rule := WaiverFrom(policies[..|policies| - 1], w);
    } else {
      p := last;
      rule := RuleWaiverFrom(last.rules, last.name, w);
    }
  }

  function MissingFields(w: Waiver): seq<string> {
    (if w.code == "" then ["code"] else [])
    + (if w.target == "" then ["target"] else [])
    + (if w.owner == "" then ["owner"] else [])
    + (if w.justification == "" then ["justification"] else [])
    + (if w.expires == "" then ["expires"] else [])
  }

  /** classifyWaiver. */
  function Classify(env: Env, ctx: WaiverContext, w: Waiver): State {
    if MissingFields(w) != [] then Malformed(WaiverLacks(MissingFields(w)))
    else if env.expiry(w.expires).None? then Malformed(WaiverBadDate(w.expires))
    else if env.expiry(w.expires).value <= ctx.now then Expired(WaiverExpired(w.code, w.expires))
    else if w.policyDigest != "" && ctx.policyDigest != "" && w.policyDigest != ctx.policyDigest then
      DigestMismatch(WaiverPolicyDrift(w.policyDigest, ctx.policyDigest))
    else if w.postureDigest != "" && ctx.postureDigest != "" && w.postureDigest != ctx.postureDigest then
      DigestMismatch(WaiverPostureDrift(w.postureDigest, ctx.postureDigest))
    else Valid
  }

  predicate WaiverMatches(w: Waiver, f: Finding) {
    && w.code == f.code
    && var target := TrimSpace(w.target);
       target != "" && (target == f.target || MatchGlob(target, f.target))
  }

  predicate IsPolicyResolutionCode(code: string) {
    HasPrefix(code, "policy_") || HasPrefix(code, "audit_waiver_")
  }

  function DigestScope(w: Waiver): string {
    if w.policyDigest == "" && w.postureDigest == "" then "unpinned"
    else if w.postureDigest == "" then "policy=" + w.policyDigest
    else if w.policyDigest == "" then "posture=" + w.postureDigest
    else "policy=" + w.policyDigest + " posture=" + w.postureDigest
  }

  function SuppressionBy(w: Waiver): Suppression {
    Suppression(w.owner, w.justification, w.expires, w.ticket, DigestScope(w))
  }

  function WaiverFinding(env: Env, w: Waiver, code: string, reason: Message): Finding {
    var trimmed := TrimSpace(w.target);
    var target := if trimmed == "" then w.code else trimmed;
    Finding(code, SeverityFor(env, code), PolicyDefault, "waiver:" + w.code + "#" + target, w.policy, Some(Waive),
            env.wording(reason), w.source, None)
  }

  // ------------------------------------------------------------ what waivers do

  /** The judgements applyWaivers relies on. */
  datatype Judge = Judge(
    state: Waiver -> State, matches: (Waiver, Finding) -> bool, exempt: string -> bool,
    report: (Waiver, string, Message) -> Finding, mark: Waiver -> Suppression)

  /** The judgements of the program. */
  function Program(env: Env, ctx: WaiverContext): Judge {
    Judge(w => Classify(env, ctx, w), (w, f) => WaiverMatches(w, f), code => IsPolicyResolutionCode(code),
          (w, code, reason) => WaiverFinding(env, w, code, reason), w => SuppressionBy(w))
  }

  predicate Applies(judge: Judge, w: Waiver, f: Finding) {
    judge.matches(w, f) && judge.state(w) == Valid
  }

  predicate Open(judge: Judge, f: Finding) {
    f.suppression.None? && !judge.exempt(f.code)
  }

  /** The first waiver from i on that applies to a finding, or the number of waivers. */
  function FirstFrom(judge: Judge, ws: seq<Waiver>, f: Finding, i: nat): (k: nat)
    requires i <= |ws|
    ensures i <= k <= |ws|
    ensures k < |ws| ==> Applies(judge, ws[k], f)
    ensures forall j | i <= j < k :: !Applies(judge, ws[j], f)
    decreases |ws| - i
  {
    if i == |ws| || Applies(judge, ws[i], f) then i else FirstFrom(judge, ws, f, i + 1)
  }

  function First(judge: Judge, ws: seq<Waiver>, f: Finding): nat {
    FirstFrom(judge, ws, f, 0)
  }

  /** What happens to one finding. */
  function Waived(judge: Judge, ws: seq<Waiver>, f: Finding): Finding {
    if Open(judge, f) && First(judge, ws, f) < |ws| then f.(suppression := Some(judge.mark(ws[First(judge, ws, f)]))) else f
  }

  /** A waiver is used when it is the first that applies to some open finding. */
  predicate Used(judge: Judge, ws: seq<Waiver>, findings: seq<Finding>, w: nat) {
    exists i :: 0 <= i < |findings| && Open(judge, findings[i]) && First(judge, ws, findings[i]) == w
  }

  /** What is reported about one waiver. */
  function ReportOn(judge: Judge, w: Waiver, used: bool): seq<Finding> {
    match judge.state(w)
    case Malformed(reason) => [judge.report(w, WAIVER_MALFORMED, reason)]
    case Expired(reason) => [judge.report(w, WAIVER_EXPIRED, reason)]
    case DigestMismatch(reason) => [judge.report(w, WAIVER_DIGEST, reason)]
    case Valid => if used then [] else [judge.report(w, WAIVER_UNMATCHED, WaiverUnmatched(w.code, w.target))]
  }

  function Reports(judge: Judge, ws: seq<Waiver>, findings: seq<Finding>, n: nat): seq<Finding>
    requires n <= |ws|
  {
    if n == 0 then [] else Reports(judge, ws, findings, n - 1) + ReportOn(judge, ws[n - 1], Used(judge, ws, findings, n - 1))
  }

  function WaivedAll(judge: Judge, ws: seq<Waiver>, findings: seq<Finding>): seq<Finding> {
    seq(|findings|, i requires 0 <= i < |findings| => Waived(judge, ws, findings[i]))
  }

  /** The inner loop of applyWaivers for one finding. */
  method Suppress(judge: Judge, findings: array<Finding>, fi: nat, ws: seq<Waiver>, used: array<bool>)
    requires fi < findings.Length && used.Length == |ws| && Open(judge, findings[fi])
    modifies findings, used
    ensures findings[fi] == Waived(judge, ws, old(findings[fi]))
    ensures forall i | 0 <= i < findings.Length && i != fi :: findings[i] == old(findings[i])
    ensures forall w | 0 <= w < |ws| :: used[w] == (old(used[w]) || First(judge, ws, old(findings[fi])) == w)
  {
    ghost var first := First(judge, ws, findings[fi]);
    for wi := 0 to |ws|
      invariant findings[..] == old(findings[..]) && used[..] == old(used[..])
      invariant FirstFrom(judge, ws, findings[fi], wi) == first
    {
      if !judge.matches(ws[wi], findings[fi]) {
        continue;
      }
      if judge.state(ws[wi]) != Valid {
        continue;
      }
      assert first == wi;
      findings[fi] := findings[fi].(suppression := Some(judge.mark(ws[wi])));
      used[wi] := true;
      return;
    }
  }

  /** applyWaivers: suppressions are written into the findings in place. */
  method ApplyWaivers(judge: Judge, findings: array<Finding>, ws: seq<Waiver>) returns (extra: seq<Finding>)
    modifies findings
    ensures findings[..] == WaivedAll(judge, ws, old(findings[..]))
    ensures extra == Reports(judge, ws, old(findings[..]), |ws|)
  {
    ghost var before := findings[..];
    var used := new bool[|ws|](_ => false);
    for fi := 0 to findings.Length
      invariant forall i | 0 <= i < fi :: findings[i] == Waived(judge, ws, before[i])
      invariant forall i | fi <= i < findings.Length :: findings[i] == before[i]
      invariant forall w | 0 <= w < |ws| :: used[w] == Used(judge, ws, before[..fi], w)
    {
      UsedStep(judge, ws, before, fi);
      if findings[fi].suppression.Some? || judge.exempt(findings[fi].code) {
        continue;
      }
      Suppress(judge, findings, fi, ws, used);
    }
    assert before[..|before|] == before;
    extra := ReportAll(judge, ws, before, used);
  }

  lemma UsedStep(judge: Judge, ws: seq<Waiver>, findings: seq<Finding>, n: nat)
    requires n < |findings|
    ensures forall w: nat ::
              Used(judge, ws, findings[..n + 1], w) <==>
              Used(judge, ws, findings[..n], w) || (Open(judge, findings[n]) && First(judge, ws, findings[n]) == w)
  {
    forall w: nat
      ensures Used(judge, ws, findings[..n + 1], w) <==>
              Used(judge, ws, findings[..n], w) || (Open(judge, findings[n]) && First(judge, ws, findings[n]) == w)
    {
      assert forall i | 0 <= i < n :: findings[..n + 1][i] == findings[..n][i];
      assert findings[..n + 1][n] == findings[n];
      if Used(judge, ws, findings[..n], w) {
        var i :| 0 <= i < n && Open(judge, findings[..n][i]) && First(judge, ws, findings[..n][i]) == w;
        assert Open(judge, findings[..n + 1][i]);
      }
    }
  }

  method ReportAll(judge: Judge, ws: seq<Waiver>, ghost findings: seq<Finding>, used: array<bool>) returns (extra: seq<Finding>)
    requires used.Length == |ws| && forall w | 0 <= w < |ws| :: used[w] == Used(judge, ws, findings, w)
    ensures extra == Reports(judge, ws, findings, |ws|)
  {
    extra := [];
    for wi := 0 to |ws|
      invariant extra == Reports(judge, ws, findings, wi)
    {
      match judge.state(ws[wi]) {
        case Malformed(reason) => extra := extra + [judge.report(ws[wi], WAIVER_MALFORMED, reason)];
        case Expired(reason) => extra := extra + [judge.report(ws[wi], WAIVER_EXPIRED, reason)];
        case DigestMismatch(reason) => extra := extra + [judge.report(ws[wi], WAIVER_DIGEST, reason)];
        case Valid =>
          if !used[wi] {
            extra := extra + [judge.report(ws[wi], WAIVER_UNMATCHED, WaiverUnmatched(ws[wi].code, ws[wi].target))];
          }
      }
    }
  }

  // ---------------------------------------------------------------- accounting

  /** How many of the first n waivers are not used. */
  function Unused(judge: Judge, ws: seq<Waiver>, findings: seq<Finding>, n: nat): nat {
    if n == 0 then 0 else Unused(judge, ws, findings, n - 1) + if Used(judge, ws, findings, n - 1) then 0 else 1
  }

  /**
   Waiver accounting: a waiver that suppresses something is valid and not reported, any other is
   reported exactly once, so the reports are as many as the unused waivers, one block per waiver
   in order.
   */
  lemma {:induction false} Accounting(judge: Judge, ws: seq<Waiver>, findings: seq<Finding>, n: nat)
    requires n <= |ws|
    ensures |Reports(judge, ws, findings, n)| == Unused(judge, ws, findings, n)
    ensures forall w | 0 <= w < n ::
              && (Used(judge, ws, findings, w) ==> judge.state(ws[w]) == Valid)
              && |ReportOn(judge, ws[w], Used(judge, ws, findings, w))| == (if Used(judge, ws, findings, w) then 0 else 1)
  {
    if n > 0 {
      Accounting(judge, ws, findings, n - 1);
      if Used(judge, ws, findings, n - 1) {
        var i :| 0 <= i < |findings| && Open(judge, findings[i]) && First(judge, ws, findings[i]) == n - 1;
        assert Applies(judge, ws[n - 1], findings[i]);
      }
    }
  }

  function Erased(f: Finding): Finding {
    f.(suppression := None)
  }

  /**
   A finding is newly suppressed if and only if it was open and some valid waiver matches it; the
   first such waiver is the one recorded, and erasing the suppression gives the finding back.
   */
  lemma SuppressionExact(judge: Judge, ws: seq<Waiver>, f: Finding)
    ensures Erased(Waived(judge, ws, f)) == Erased(f)
    ensures f.suppression.Some? ==> Waived(judge, ws, f) == f
    ensures Waived(judge, ws, f) != f <==> Open(judge, f) && exists w :: 0 <= w < |ws| && Applies(judge, ws[w], f)
    ensures Waived(judge, ws, f) != f ==>
              exists w :: 0 <= w < |ws| && Applies(judge, ws[w], f) && (forall v | 0 <= v < w :: !Applies(judge, ws[v], f))
                && Waived(judge, ws, f) == f.(suppression := Some(judge.mark(ws[w])))
  {
    var k := First(judge, ws, f);
    if w :| 0 <= w < |ws| && Applies(judge, ws[w], f) {
      assert k <= w;
    }
  }

  // ------------------------------------------------------------------- summary

  datatype Summary = Summary(errors: nat, warnings: nat, info: nat, waived: nat)

  /** Where a finding counts. */
  datatype Bucket = AsWaived | As(severity: Severity)

  function BucketOf(f: Finding): Bucket {
    if f.suppression.Some? then AsWaived else As(f.severity)
  }

  function Count(findings: seq<Finding>, bucket: Bucket): nat {
    if findings == [] then 0
    else Count(findings[..|findings| - 1], bucket) + if BucketOf(findings[|findings| - 1]) == bucket then 1 else 0
  }

  /** The counts: suppressed findings count as waived only, and every finding counts once. */
  method Summarize(findings: seq<Finding>) returns (s: Summary)
    ensures s.errors + s.warnings + s.info + s.waived == |findings|
    ensures s.errors == Count(findings, As(Error)) && s.warnings == Count(findings, As(Warning))
    ensures s.info == Count(findings, As(Info)) && s.waived == Count(findings, AsWaived)
  {
    s := Summary(0, 0, 0, 0);
    for i := 0 to |findings|
      invariant s.errors + s.warnings + s.info + s.waived == i
      invariant s.errors == Count(findings[..i], As(Error)) && s.warnings == Count(findings[..i], As(Warning))
      invariant s.info == Count(findings[..i], As(Info)) && s.waived == Count(findings[..i], AsWaived)
    {
      assert findings[..i + 1][..i] == findings[..i];
      var f := findings[i];
      if f.suppression.Some? {
        s := s.(waived := s.waived + 1);
        continue;
      }
      match f.severity {
        case Error => s := s.(errors := s.errors + 1);
        case Warning => s := s.(warnings := s.warnings + 1);
        case Info => s := s.(info := s.info + 1);
      }
    }
    assert findings[..|findings|] == findings;
  }

  datatype Verdict = Fail | Warn | Ok

  function Status(s: Summary): Verdict {
    if s.errors > 0 then Fail else if s.warnings > 0 then Warn else Ok
  }

  lemma {:induction false} CountPositive(findings: seq<Finding>, bucket: Bucket)
    ensures Count(findings, bucket) > 0 <==> exists f :: f in findings && BucketOf(f) == bucket
  {
    if findings != [] {
      var shorter, last := findings[..|findings| - 1], findings[|findings| - 1];
      CountPositive(shorter, bucket);
      assert findings == shorter + [last];
    }
  }

  /** The audit fails exactly on an error that is not waived, and passes exactly without open errors and warnings. */
  lemma StatusMeans(findings: seq<Finding>, s: Summary)
    requires s.errors == Count(findings, As(Error)) && s.warnings == Count(findings, As(Warning))
    ensures Status(s) == Fail <==> exists f :: f in findings && f.suppression.None? && f.severity == Error
    ensures Status(s) == Ok <==> forall f | f in findings :: f.suppression.Some? || f.severity == Info
  {
    CountPositive(findings, As(Error));
    CountPositive(findings, As(Warning));
    assert forall f: Finding :: f.suppression.None? && f.severity == Error <==> BucketOf(f) == As(Error);
  }
}
