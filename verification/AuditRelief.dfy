/**
 What takes findings back, read off the rules: the waive rules that silence a finding, and the
 raw-HTML rules that let a sink through.
 */
module AuditRelief {
  import opened Text
  import opened Dedupe
  import opened AuditTypes
  import opened AuditMatch
  import opened AuditSelectors
  import opened AuditRules
  import opened AuditBaseline
  import W = AuditWaivers
  import E = AuditEngine

  /** What an attribute of a rule says, when it says something. */
  predicate Given(rule: Rule, key: string, text: string) {
    key in rule.attrs && text == TrimSpace(rule.attrs[key]) && text != ""
  }

  lemma GivenIff(rule: Rule, key: string, text: string)
    ensures Given(rule, key, text) <==> text == Attr(rule, key) && text != ""
  {
  }

  // --------------------------------------------------------------------- waivers

  /** A digest the rule pins is the current one, when the current one is known. */
  ghost predicate Current(rule: Rule, key: string, digest: string) {
    digest == "" || forall pinned :: Given(rule, key, pinned) ==> pinned == digest
  }

  /** A waive rule that speaks for the code at the target: complete, not expired, and not drifted. */
  ghost predicate WaivesBy(env: Env, ctx: W.WaiverContext, rule: Rule, code: string, target: string) {
    && rule.kind == Waive && code != "" && code == TrimSpace(rule.value)
    && (exists glob :: Given(rule, "target", glob) && Accepts(glob, target))
    && (exists owner :: Given(rule, "owner", owner)) && (exists why :: Given(rule, "justification", why))
    && (exists date :: Given(rule, "expires", date) && env.expiry(date).Some? && env.expiry(date).value > ctx.now)
    && Current(rule, "policy_digest", ctx.policyDigest) && Current(rule, "posture_digest", ctx.postureDigest)
  }

  lemma WaivesIff(env: Env, ctx: W.WaiverContext, rule: Rule, policy: string, code: string, target: string)
    requires rule.kind == Waive
    ensures var w := W.WaiverOf(rule, policy);
            Honoured(env, ctx, w) && AuditBaseline.Names(w, code, target) <==> WaivesBy(env, ctx, rule, code, target)
  {
    hide TrimSpace, Accepts;
    forall key, text
      ensures Given(rule, key, text) <==> text == Attr(rule, key) && text != ""
    {
      GivenIff(rule, key, text);
    }
    var w := W.WaiverOf(rule, policy);
    assert w.target != "" <==> Given(rule, "target", w.target);
    assert w.owner != "" <==> Given(rule, "owner", w.owner);
    assert w.justification != "" <==> Given(rule, "justification", w.justification);
    assert w.expires != "" <==> Given(rule, "expires", w.expires);
    AttrTrimmed(rule, "target");
    CurrentIff(rule, "policy_digest", ctx.policyDigest);
    CurrentIff(rule, "posture_digest", ctx.postureDigest);
  }

  lemma CurrentIff(rule: Rule, key: string, digest: string)
    ensures Current(rule, key, digest) <==> Attr(rule, key) == "" || digest == "" || Attr(rule, key) == digest
  {
    GivenIff(rule, key, Attr(rule, key));
  }

  lemma AttrTrimmed(rule: Rule, key: string)
    ensures TrimSpace(Attr(rule, key)) == Attr(rule, key)
  {
    if key in rule.attrs {
      TrimSpaceTrims(rule.attrs[key]);
      TrimSpaceTrims(Attr(rule, key));
    }
  }

  lemma {:induction false} RuleListed(rules: seq<Rule>, policy: string, rule: Rule)
    requires rule in rules && rule.kind == Waive
    ensures W.WaiverOf(rule, policy) in W.RuleWaivers(rules, policy)
  {
    var before, last := rules[..|rules| - 1], rules[|rules| - 1];
    assert rules == before + [last];
    if rule in before {
      RuleListed(before, policy, rule);
    }
  }

  lemma {:induction false} WaiverListed(policies: seq<Policy>, p: Policy, rule: Rule)
    requires p in policies && rule in p.rules && rule.kind == Waive
    ensures W.WaiverOf(rule, p.name) in W.AllWaivers(policies)
  {
    var before, last := policies[..|policies| - 1], policies[|policies| - 1];
    assert policies == before + [last];
    if p in before {
      WaiverListed(before, p, rule);
    } else {
      RuleListed(p.rules, p.name, rule);
    }
  }

  /** What is kept of a sequence is what is first of its key. */
  lemma KeptIff<T(!new)>(xs: seq<T>, key: T -> string, y: T)
    ensures y in KeepFirst(xs, key) <==> FirstOfKey(xs, key, y)
  {
    KeepFirstExact(xs, key);
    if i :| 0 <= i < |xs| && xs[i] == y && forall j | 0 <= j < i :: key(xs[j]) != key(y) {
      var kept := KeptFor(xs, key, y);
      var k :| 0 <= k < |xs| && xs[k] == kept && forall j | 0 <= j < k :: key(xs[j]) != key(kept);
      assert i == k;
    }
  }

  /** The waive rule is in force, and no earlier one has its code, target, source and expiry. */
  ghost predicate LeadingWaiver(inForce: seq<Policy>, p: Policy, rule: Rule) {
    && p in inForce && rule in p.rules && rule.kind == Waive
    && FirstOfKey(W.AllWaivers(inForce), W.WaiverKey, W.WaiverOf(rule, p.name))
  }

  /** The waivers of the audit are those of the leading waive rules. */
  lemma CollectedIff(inForce: seq<Policy>, w: W.Waiver)
    ensures w in W.Collected(inForce) <==> exists p, rule :: LeadingWaiver(inForce, p, rule) && w == W.WaiverOf(rule, p.name)
  {
    KeptIff(W.AllWaivers(inForce), W.WaiverKey, w);
    if w in W.Collected(inForce) {
      KeptIsFrom(W.AllWaivers(inForce), W.WaiverKey, w);
      var p, rule := W.WaiverFrom(inForce, w);
      assert LeadingWaiver(inForce, p, rule);
    }
  }

  /**
   Exactly when a finding of the report is silenced, read off the rules: its code is not one about
   policies or waivers, and a leading waive rule in force speaks for the code at the target.
   */
  lemma SilencedIff(env: Env, ctx: W.WaiverContext, m: Manifest, policies: seq<Policy>, g: Finding)
    requires HeadersFresh(env) && BuiltinsPlain(policies) && g in E.Report(env, ctx, m, policies)
    ensures g.suppression.Some? <==>
              && !("policy_" <= g.code) && !("audit_waiver_" <= g.code)
              && exists p, rule :: LeadingWaiver(E.InForce(env, policies), p, rule) && WaivesBy(env, ctx, rule, g.code, g.target)
  {
    hide Honoured, AuditBaseline.Names, WaivesBy, W.WaiverOf, LeadingWaiver;
    var inForce := E.InForce(env, policies);
    SuppressedIff(env, ctx, m, policies, g);
    forall w
      ensures w in W.Collected(inForce) <==> exists p, rule :: LeadingWaiver(inForce, p, rule) && w == W.WaiverOf(rule, p.name)
    {
      CollectedIff(inForce, w);
    }
    forall p, rule | LeadingWaiver(inForce, p, rule)
      ensures Honoured(env, ctx, W.WaiverOf(rule, p.name)) && AuditBaseline.Names(W.WaiverOf(rule, p.name), g.code, g.target)
              <==> WaivesBy(env, ctx, rule, g.code, g.target)
    {
      LeadingWaives(inForce, p, rule);
      WaivesIff(env, ctx, rule, p.name, g.code, g.target);
    }
  }

  lemma LeadingWaives(inForce: seq<Policy>, p: Policy, rule: Rule)
    requires LeadingWaiver(inForce, p, rule)
    ensures rule.kind == Waive
  {
  }

  /** What a silenced finding records: the owner, the justification, the expiry and the ticket of the rule. */
  predicate Records(rule: Rule, s: Suppression) {
    && Given(rule, "owner", s.owner) && Given(rule, "justification", s.justification) && Given(rule, "expires", s.expires)
    && (s.ticket == "" || Given(rule, "ticket", s.ticket))
  }

  /** The rule a silenced finding records is a leading waive rule that speaks for it. */
  lemma SilencedBy(env: Env, ctx: W.WaiverContext, m: Manifest, policies: seq<Policy>, g: Finding)
    requires HeadersFresh(env) && BuiltinsPlain(policies) && g in E.Report(env, ctx, m, policies) && g.suppression.Some?
    ensures exists p, rule ::
              LeadingWaiver(E.InForce(env, policies), p, rule) && WaivesBy(env, ctx, rule, g.code, g.target) && Records(rule, g.suppression.value)
  {
    hide LeadingWaiver, WaivesBy, W.Collected, E.InForce, E.Raised, KeepFirst, W.Waived, W.Applies;
    var inForce := E.InForce(env, policies);
    var ws, f := SuppressedFrom(env, ctx, m, policies, g);
    W.SuppressionExact(W.Program(env, ctx), ws, f);
    var i :| 0 <= i < |ws| && W.Applies(W.Program(env, ctx), ws[i], f)
             && W.Waived(W.Program(env, ctx), ws, f) == f.(suppression := Some(W.Program(env, ctx).mark(ws[i])));
    AppliesIff(env, ctx, ws[i], f);
    assert ws[i] in W.Collected(inForce);
    CollectedIff(inForce, ws[i]);
    var p, rule :| LeadingWaiver(inForce, p, rule) && ws[i] == W.WaiverOf(rule, p.name);
    LeadingWaives(inForce, p, rule);
    WaivesIff(env, ctx, rule, p.name, g.code, g.target);
    MarkRecords(env, ctx, rule, p.name);
  }

  /** A suppressed finding of the report comes from an open one. */
  lemma SuppressedFrom(env: Env, ctx: W.WaiverContext, m: Manifest, policies: seq<Policy>, g: Finding) returns (ws: seq<W.Waiver>, f: Finding)
    requires HeadersFresh(env) && BuiltinsPlain(policies) && g in E.Report(env, ctx, m, policies) && g.suppression.Some?
    ensures ws == W.Collected(E.InForce(env, policies)) && g == W.Waived(W.Program(env, ctx), ws, f) && f.suppression.None?
    ensures f.code == g.code && f.target == g.target && g != f
  {
    hide W.Collected, E.InForce, W.Waived, W.Used, W.ReportOn;
    ws := W.Collected(E.InForce(env, policies));
    var judge, raised := W.Program(env, ctx), E.Raised(env, m, policies);
    var findings := KeepFirst(raised, E.DedupeKey);
    if g in W.Reports(judge, ws, findings, |ws|) {
      ReportsExempt(judge, code => true, ws, findings, |ws|, g);
      assert false;
    }
    var i :| 0 <= i < |findings| && g == W.WaivedAll(judge, ws, findings)[i];
    f := findings[i];
    KeptIsFrom(raised, E.DedupeKey, f);
    RaisedFresh(env, m, policies);
    W.SuppressionExact(judge, ws, f);
    assert W.Erased(g) == W.Erased(f);
  }

  lemma MarkRecords(env: Env, ctx: W.WaiverContext, rule: Rule, policy: string)
    requires rule.kind == Waive && Honoured(env, ctx, W.WaiverOf(rule, policy))
    ensures Records(rule, W.Program(env, ctx).mark(W.WaiverOf(rule, policy)))
  {
    var w := W.WaiverOf(rule, policy);
    GivenIff(rule, "owner", w.owner);
    GivenIff(rule, "justification", w.justification);
    GivenIff(rule, "expires", w.expires);
    GivenIff(rule, "ticket", w.ticket);
  }

  /** What is wrong with a waiver: incomplete or without a readable date, over, or drifted from a digest it pins. */
  predicate WaiverFault(env: Env, ctx: W.WaiverContext, w: W.Waiver, code: string) {
    if w.code == "" || w.target == "" || w.owner == "" || w.justification == "" || w.expires == "" || env.expiry(w.expires).None?
    then code == WAIVER_MALFORMED
    else if env.expiry(w.expires).value <= ctx.now then code == WAIVER_EXPIRED
    else code == WAIVER_DIGEST && !Honoured(env, ctx, w)
  }

  /** The waiver is the first honoured one for some finding that is raised and may be waived. */
  ghost predicate Serves(env: Env, ctx: W.WaiverContext, m: Manifest, policies: seq<Policy>, i: nat)
    requires i < |W.Collected(E.InForce(env, policies))|
  {
    var ws := W.Collected(E.InForce(env, policies));
    exists f :: f in KeepFirst(E.Raised(env, m, policies), E.DedupeKey)
      && f.suppression.None? && !("policy_" <= f.code) && !("audit_waiver_" <= f.code)
      && Honoured(env, ctx, ws[i]) && AuditBaseline.Names(ws[i], f.code, f.target)
      && forall j | 0 <= j < i :: !(Honoured(env, ctx, ws[j]) && AuditBaseline.Names(ws[j], f.code, f.target))
  }

  lemma AppliesIff(env: Env, ctx: W.WaiverContext, w: W.Waiver, f: Finding)
    ensures W.Applies(W.Program(env, ctx), w, f) <==> Honoured(env, ctx, w) && AuditBaseline.Names(w, f.code, f.target)
  {
    hide TrimSpace, MatchGlob;
    ValidIff(env, ctx, w);
    GlobIff(TrimSpace(w.target), f.target);
  }

  lemma UsedIff(env: Env, ctx: W.WaiverContext, m: Manifest, policies: seq<Policy>, i: nat)
    requires i < |W.Collected(E.InForce(env, policies))|
    ensures W.Used(W.Program(env, ctx), W.Collected(E.InForce(env, policies)), KeepFirst(E.Raised(env, m, policies), E.DedupeKey), i)
            <==> Serves(env, ctx, m, policies, i)
  {
    hide Honoured, AuditBaseline.Names, W.Applies, W.Collected, E.InForce, E.Raised, KeepFirst;
    var judge, ws, findings := W.Program(env, ctx), W.Collected(E.InForce(env, policies)), KeepFirst(E.Raised(env, m, policies), E.DedupeKey);
    forall j, f | 0 <= j < |ws|
      ensures W.Applies(judge, ws[j], f) <==> Honoured(env, ctx, ws[j]) && AuditBaseline.Names(ws[j], f.code, f.target)
    {
      AppliesIff(env, ctx, ws[j], f);
    }
    forall f
      ensures W.First(judge, ws, f) == i <==> W.Applies(judge, ws[i], f) && forall j | 0 <= j < i :: !W.Applies(judge, ws[j], f)
    {
    }
    forall f: Finding
      ensures W.Open(judge, f) <==> f.suppression.None? && !("policy_" <= f.code) && !("audit_waiver_" <= f.code)
    {
    }
  }

  lemma FaultCode(env: Env, ctx: W.WaiverContext, w: W.Waiver, used: bool, code: string)
    ensures var on := W.ReportOn(W.Program(env, ctx), w, used);
            (exists f :: f in on && f.code == code) <==>
              if Honoured(env, ctx, w) then !used && code == WAIVER_UNMATCHED else WaiverFault(env, ctx, w, code)
    ensures forall f | f in W.ReportOn(W.Program(env, ctx), w, used) :: f.policy == w.policy && f.source == w.source
  {
    ValidIff(env, ctx, w);
    var on := W.ReportOn(W.Program(env, ctx), w, used);
    if on != [] {
      assert on[0] in on;
    }
  }

  lemma {:induction false} ReportsHave(judge: W.Judge, ws: seq<W.Waiver>, findings: seq<Finding>, n: nat, i: nat, f: Finding)
    requires i < n <= |ws| && f in W.ReportOn(judge, ws[i], W.Used(judge, ws, findings, i))
    ensures f in W.Reports(judge, ws, findings, n)
    decreases n
  {
    hide W.ReportOn, W.Used;
    if i < n - 1 {
      ReportsHave(judge, ws, findings, n - 1, i, f);
    }
  }

  /**
   What the report says of the waivers themselves: one that is not honoured is reported under the
   code of what is wrong with it, and one that is honoured but serves nothing as unmatched.
   */
  lemma WaiverFaultsReported(env: Env, ctx: W.WaiverContext, m: Manifest, policies: seq<Policy>, i: nat, code: string)
    requires i < |W.Collected(E.InForce(env, policies))|
    requires var w := W.Collected(E.InForce(env, policies))[i];
             if Honoured(env, ctx, w) then code == WAIVER_UNMATCHED && !Serves(env, ctx, m, policies, i) else WaiverFault(env, ctx, w, code)
    ensures var w := W.Collected(E.InForce(env, policies))[i];
            exists g :: g in E.Report(env, ctx, m, policies) && g.code == code && g.policy == w.policy && g.source == w.source
  {
    hide Honoured, WaiverFault, Serves, W.ReportOn, W.Used, W.Collected, E.InForce, E.Raised, KeepFirst;
    var judge, ws, findings := W.Program(env, ctx), W.Collected(E.InForce(env, policies)), KeepFirst(E.Raised(env, m, policies), E.DedupeKey);
    UsedIff(env, ctx, m, policies, i);
    FaultCode(env, ctx, ws[i], W.Used(judge, ws, findings, i), code);
    var f :| f in W.ReportOn(judge, ws[i], W.Used(judge, ws, findings, i)) && f.code == code;
    ReportsHave(judge, ws, findings, |ws|, i, f);
    assert f in E.Report(env, ctx, m, policies);
  }

  // ------------------------------------------------------------------ raw HTML

  predicate IsBrace(c: char) {
    c == '{' || c == '}'
  }

  predicate AllBraces(s: string) {
    forall i | 0 <= i < |s| :: IsBrace(s[i])
  }

  /** A text without all of the braces around it. */
  ghost predicate Bare(s: string, t: string) {
    && (t != "" ==> !IsBrace(t[0]) && !IsBrace(t[|t| - 1]))
    && exists lead, tail :: AllBraces(lead) && AllBraces(tail) && s == lead + t + tail
  }

  lemma {:induction false} LeftBraces(s: string) returns (lead: string)
    ensures AllBraces(lead) && s == lead + TrimBracesLeft(s)
    ensures TrimBracesLeft(s) != "" ==> !IsBrace(TrimBracesLeft(s)[0])
  {
    lead := "";
    if s != "" && IsBrace(s[0]) {
      var more := LeftBraces(s[1..]);
      lead := [s[0]] + more;
    }
  }

  lemma {:induction false} RightBraces(s: string) returns (tail: string)
    ensures AllBraces(tail) && s == TrimBracesRight(s) + tail
    ensures TrimBracesRight(s) != "" ==> !IsBrace(TrimBracesRight(s)[|TrimBracesRight(s)| - 1])
  {
    tail := "";
    if s != "" && IsBrace(s[|s| - 1]) {
      var more := RightBraces(s[..|s| - 1]);
      tail := more + [s[|s| - 1]];
    }
  }

  lemma {:induction false} LeftBraced(lead: string, s: string)
    requires AllBraces(lead) && (s == "" || !IsBrace(s[0]))
    ensures TrimBracesLeft(lead + s) == s
  {
    if lead == "" {
      assert lead + s == s;
    } else {
      assert (lead + s)[1..] == lead[1..] + s;
      LeftBraced(lead[1..], s);
    }
  }

  lemma {:induction false} RightBraced(s: string, tail: string)
    requires AllBraces(tail) && (s == "" || !IsBrace(s[|s| - 1]))
    ensures TrimBracesRight(s + tail) == s
  {
    if tail == "" {
      assert s + tail == s;
    } else {
      var before := tail[..|tail| - 1];
      assert (s + tail)[..|s + tail| - 1] == s + before;
      RightBraced(s, before);
    }
  }

  lemma BareIff(s: string, t: string)
    ensures TrimBraces(s) == t <==> Bare(s, t)
  {
    var lead := LeftBraces(s);
    var tail := RightBraces(TrimBracesLeft(s));
    assert s == lead + TrimBraces(s) + tail;
    assert TrimBraces(s) != "" ==> TrimBraces(s)[0] == TrimBracesLeft(s)[0];
    if Bare(s, t) {
      var lead, tail :| AllBraces(lead) && AllBraces(tail) && s == lead + t + tail;
      if t == "" {
        assert s == (lead + tail) + "";
        LeftBraced(lead + tail, "");
      } else {
        assert s == lead + (t + tail);
        LeftBraced(lead, t + tail);
        RightBraced(t, tail);
      }
    }
  }

  /** What an allow value stands for: its text, and, cut at its first colon, an owner with a field that may stand in braces. */
  ghost predicate Entry(value: string, entry: string) {
    && value != ""
    && (entry == value
        || exists owner, field, bare ::
             && value == owner + ":" + field && ':' !in owner && Bare(TrimSpace(field), bare)
             && TrimSpace(owner) != "" && bare != "" && entry == TrimSpace(owner) + ":" + bare)
  }

  /** An entry names a sink by its source, or by its owner and field, with or without the braces around it. */
  ghost predicate Points(entry: string, sink: Sink) {
    || entry == TrimSpace(sink.source)
    || entry == sink.ownerId + ":" + TrimSpace(sink.field)
    || exists bare :: Bare(TrimSpace(sink.field), bare) && entry == sink.ownerId + ":" + bare
  }

  lemma EntryIff(raw: string, entry: string)
    ensures entry in AllowEntries(raw) <==> Entry(TrimSpace(raw), entry)
  {
    hide TrimBraces, Bare, TrimSpace, IndexOf, AllowEntries;
    var value := TrimSpace(raw);
    var colon := IndexOf(value, ':');
    BeforeIndex(value, ':');
    AllowedEntries(raw, entry);
    if colon >= 0 {
      var owner, field := value[..colon], value[colon + 1..];
      assert value == owner + ":" + field;
      BareIff(TrimSpace(field), TrimBraces(TrimSpace(field)));
    }
    forall owner, field, bare | value == owner + ":" + field && ':' !in owner && Bare(TrimSpace(field), bare)
      ensures colon == |owner| && value[..colon] == owner && value[colon + 1..] == field && bare == TrimBraces(TrimSpace(field))
    {
      assert [':'] == ":";
      IndexOfFirst(owner, ':', field);
      BareIff(TrimSpace(field), bare);
    }
  }

  lemma AllowedEntries(raw: string, entry: string)
    ensures var value := TrimSpace(raw);
            var colon := IndexOf(value, ':');
            entry in AllowEntries(raw) <==>
              && value != ""
              && (entry == value
                  || (colon >= 0
                      && var owner, field := TrimSpace(value[..colon]), TrimBraces(TrimSpace(value[colon + 1..]));
                         owner != "" && field != "" && entry == owner + ":" + field))
  {
    hide TrimSpace, TrimBraces, IndexOf;
  }

  lemma {:induction false} BeforeIndex(s: string, c: char)
    ensures IndexOf(s, c) < 0 ==> c !in s
    ensures IndexOf(s, c) >= 0 ==> c !in s[..IndexOf(s, c)]
  {
    if s != "" && s[0] != c {
      BeforeIndex(s[1..], c);
      var i := IndexOf(s, c);
      assert s == [s[0]] + s[1..];
      if i >= 0 {
        assert s[..i] == [s[0]] + s[1..][..i - 1];
      }
    }
  }

  lemma PointsIff(entry: string, sink: Sink)
    ensures AuditRules.Names(entry, sink) <==> Points(entry, sink)
  {
    hide TrimBraces, Bare, TrimSpace;
    var field := TrimSpace(sink.field);
    BareIff(field, TrimBraces(field));
    forall bare | Bare(field, bare)
      ensures bare == TrimBraces(field)
    {
      BareIff(field, bare);
    }
  }

  /** An exception for the sink's fingerprint: complete and not expired. */
  ghost predicate Excepts(env: Env, rule: Rule, sink: Sink) {
    && rule.kind == ExceptRawHTML && sink.fingerprint != "" && sink.fingerprint == TrimSpace(rule.value)
    && (exists owner :: Given(rule, "owner", owner)) && (exists why :: Given(rule, "justification", why))
    && (exists name :: Given(rule, "sanitizer", name))
    && exists date :: Given(rule, "expires", date) && env.expiry(date).Some? && env.expiry(date).value > env.now
  }

  lemma ExceptsIff(env: Env, sinks: seq<Sink>, rule: Rule, policy: string, sink: Sink)
    requires rule.kind == ExceptRawHTML && sink in sinks
    ensures var e := ExceptionOf(rule, policy);
            ClassifyException(env, sinks, e).Active? && e.fingerprint == sink.fingerprint <==> Excepts(env, rule, sink)
  {
    hide TrimSpace;
    var e := ExceptionOf(rule, policy);
    forall key, text
      ensures Given(rule, key, text) <==> text == Attr(rule, key) && text != ""
    {
      GivenIff(rule, key, text);
    }
    assert e.owner != "" <==> Given(rule, "owner", e.owner);
    assert e.justification != "" <==> Given(rule, "justification", e.justification);
    assert e.sanitizer != "" <==> Given(rule, "sanitizer", e.sanitizer);
    assert e.expires != "" <==> Given(rule, "expires", e.expires);
  }

  /** A rule in force on the frontend. */
  ghost predicate OnFrontend(inForce: seq<Policy>, p: Policy, rule: Rule) {
    p in inForce && rule in p.rules && exists s :: s in p.selectors && s.kind == FrontendSelector
  }

  /** The exception is in force on the frontend, and no earlier one has its fingerprint, source and expiry. */
  ghost predicate LeadingException(inForce: seq<Policy>, p: Policy, rule: Rule) {
    && OnFrontend(inForce, p, rule) && rule.kind == ExceptRawHTML
    && FirstOfKey(AllExceptions(inForce), ExceptionKey, ExceptionOf(rule, p.name))
  }

  lemma {:induction false} ExceptionListed(policies: seq<Policy>, p: Policy, rule: Rule)
    requires OnFrontend(policies, p, rule) && rule.kind == ExceptRawHTML
    ensures ExceptionOf(rule, p.name) in AllExceptions(policies)
  {
    assert policies == [policies[0]] + policies[1..];
    if p in policies[1..] {
      ExceptionListed(policies[1..], p, rule);
    } else {
      ExceptionRuleListed(p.rules, p.name, rule);
    }
  }

  lemma {:induction false} ExceptionRuleListed(rules: seq<Rule>, policy: string, rule: Rule)
    requires rule in rules && rule.kind == ExceptRawHTML
    ensures ExceptionOf(rule, policy) in RuleExceptions(rules, policy)
  {
    assert rules == [rules[0]] + rules[1..];
    if rule in rules[1..] {
      ExceptionRuleListed(rules[1..], policy, rule);
    }
  }

  lemma ExceptionsIff(inForce: seq<Policy>, e: Exception)
    ensures e in CollectExceptions(inForce) <==> exists p, rule :: LeadingException(inForce, p, rule) && e == ExceptionOf(rule, p.name)
  {
    KeptIff(AllExceptions(inForce), ExceptionKey, e);
    if e in CollectExceptions(inForce) {
      KeptIsFrom(AllExceptions(inForce), ExceptionKey, e);
      var p, rule := ExceptionFrom(inForce, e);
      assert LeadingException(inForce, p, rule);
    }
  }

  /**
   Exactly which sinks are let in, read off the rules in force on the frontend: an allow rule has an
   entry that points at the sink, or a leading exception is for its fingerprint.
   */
  lemma LetInIff(env: Env, m: Manifest, inForce: seq<Policy>, sink: Sink)
    requires sink in m.frontend.sinks
    ensures LetIn(env, m, inForce, sink) <==>
              || (exists p, rule, entry :: OnFrontend(inForce, p, rule) && rule.kind == AllowRawHTML
                    && Entry(TrimSpace(rule.value), entry) && Points(entry, sink))
              || (exists p, rule :: LeadingException(inForce, p, rule) && Excepts(env, rule, sink))
  {
    hide AllowedBy, Entry, Points, OnFrontend, Excepts, ClassifyException;
    forall p, rule
      ensures AllowedBy(inForce, p, rule, sink) <==>
                OnFrontend(inForce, p, rule) && rule.kind == AllowRawHTML && exists entry :: Entry(TrimSpace(rule.value), entry) && Points(entry, sink)
    {
      AllowedIff(inForce, p, rule, sink);
    }
    ExceptedIff(env, m, inForce, sink);
  }

  lemma AllowedIff(inForce: seq<Policy>, p: Policy, rule: Rule, sink: Sink)
    ensures AllowedBy(inForce, p, rule, sink) <==>
              OnFrontend(inForce, p, rule) && rule.kind == AllowRawHTML && exists entry :: Entry(TrimSpace(rule.value), entry) && Points(entry, sink)
  {
    hide AllowEntries, Entry, Points, AuditRules.Names;
    forall entry
      ensures entry in AllowEntries(rule.value) <==> Entry(TrimSpace(rule.value), entry)
    {
      EntryIff(rule.value, entry);
    }
    forall entry
      ensures AuditRules.Names(entry, sink) <==> Points(entry, sink)
    {
      PointsIff(entry, sink);
    }
  }

  lemma ExceptedIff(env: Env, m: Manifest, inForce: seq<Policy>, sink: Sink)
    requires sink in m.frontend.sinks
    ensures (exists e :: e in CollectExceptions(inForce) && ClassifyException(env, m.frontend.sinks, e).Active? && e.fingerprint == sink.fingerprint)
            <==> (exists p, rule :: LeadingException(inForce, p, rule) && Excepts(env, rule, sink))
  {
    hide Excepts, ClassifyException, ExceptionOf, FirstOfKey;
    forall e
      ensures e in CollectExceptions(inForce) <==> exists p, rule :: LeadingException(inForce, p, rule) && e == ExceptionOf(rule, p.name)
    {
      ExceptionsIff(inForce, e);
    }
    forall p, rule | LeadingException(inForce, p, rule)
      ensures var e := ExceptionOf(rule, p.name);
              ClassifyException(env, m.frontend.sinks, e).Active? && e.fingerprint == sink.fingerprint <==> Excepts(env, rule, sink)
    {
      ExceptsIff(env, m.frontend.sinks, rule, p.name, sink);
    }
  }
}
