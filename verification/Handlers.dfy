/**
 Generated request handlers, internal/appgen/source_actions.go, source_api.go,
 source_contracts.go, source_fragments.go, source_guards.go and source_rate_limit.go.

 The statements the generators emit are a small syntax tree; an interpreter runs them against an
 environment that decides every test and every fallible call, and records the milestones a run
 passes.  For every endpoint configuration and every panic-free run, the recorded trace is the
 expected sequence of milestones cut short by one response, or complete with one response.
 */
module Handlers {
  import opened Text
  import opened Guards
  import opened HttpMethods

  // ------------------------------------------------------- emitted statements

  datatype Milestone =
    | BodyCap                        // the request body has been wrapped in a size limit
    | RateOk                         // the registered limiter allowed the request
    | GuardOk(name: string)          // the named guard passed
    | Parsing | Parsed               // form parsing was attempted, and succeeded
    | CsrfOk                         // the registered validator accepted the token
    | Validated(required: seq<string>, rules: seq<Rule>) // the submission was checked against these and found valid
    | Decoding                       // typed input decoding was attempted
    | Handler                        // the application function or contract ran
    | Dispatched                     // the command's events were dispatched
    | Write                          // a response was written

  /** A validation rule on one field; zero bounds and an empty pattern ask for nothing. */
  datatype Rule = Rule(field: string, minLength: int, maxLength: int, pattern: string)

  /** The decoded submission: the fields that were submitted, the first value of each, and which values a pattern matches. */
  datatype Submission = Submission(submitted: set<string>, first: string -> string, matches: (string, string) -> bool)

  /** Conditions of emitted if statements. */
  datatype Cond =
    | Test                                                       // decided by the environment, nothing recorded
    | Fails(attempt: Option<Milestone>, success: Option<Milestone>) // a fallible call: err != nil
    | CsrfRegistered                                             // csrfValidator != nil
    | LimiterMissing                                             // rateLimiter == nil
    | RunRateLimit                                               // runRateLimit(response, request)
    | NotRunGuards(names: seq<string>)                           // !runGuards(response, request, names)
    | GuardsFail(names: seq<string>)                             // err := RunGuardsWithAuth(...); err != nil
    | Unsubmitted(field: string)                                 // !values.HasSubmitted(field)
    | Given(field: string)                                       // value != "", with value the trimmed first value
    | TooShort(field: string, bound: int)                        // utf8.RuneCountInString(value) < bound
    | TooLong(field: string, bound: int)                         // utf8.RuneCountInString(value) > bound
    | Unmatched(field: string, pattern: string)                  // err != nil || !matched
    | Invalid                                                    // !validation.OK()

  /** Do stands for an assignment, a definition, a deferred call or an effect worth recording. */
  datatype Stmt =
    | Do(effect: Option<Milestone>)
    | NewResult                                                  // validation := Result{}
    | AddCode(field: string, code: string)                       // validation.AddCode(field, code, ...)
    | If(cond: Cond, body: seq<Stmt>, otherwise: seq<Stmt>)
    | Return(value: bool)

  const SKIP := Do(None)

  function Note(m: Milestone): Stmt {
    Do(Some(m))
  }

  /** Write a response and report the request as handled. */
  const RESPOND := [Do(Some(Write)), Return(true)]

  // ---------------------------------------------------------------- interpreter

  /** What a run meets: registered collaborators, and the outcome of each decision in turn. */
  datatype World = World(csrfRegistered: bool, limiterRegistered: bool, registry: Registry, submission: Submission, decide: nat -> bool)

  /** What a run has done so far, and the errors of the validation result in hand. */
  datatype State = State(decisions: nat, trace: seq<Milestone>, errors: seq<(string, string)>)

  datatype Outcome = Fell | Returned(value: bool)

  function Log(s: State, m: Option<Milestone>): State {
    if m.Some? then s.(trace := s.trace + [m.value]) else s
  }

  /** Asks the environment for one more decision. */
  function Decide(w: World, s: State): (State, bool) {
    (s.(decisions := s.decisions + 1), w.decide(s.decisions))
  }

  /** The emitted function runRateLimit. */
  function RunRateLimitBody(): seq<Stmt> {
    [If(LimiterMissing, [Return(false)], []),
     SKIP,                                      // result, err := rateLimiter.AllowRequest(request)
     If(Test, RESPOND, []),                      // err != nil: HandleError
     SKIP,                                      // WriteHeaders
     If(Fails(None, Some(RateOk)), RESPOND, []), // !result.Allowed: HandleLimit
     Return(false)]
  }

  /** The emitted function runGuards, for the names it is called with. */
  function RunGuardsBody(names: seq<string>): seq<Stmt> {
    [If(GuardsFail(names), [Note(Write), Return(false)], []), Return(true)]
  }

  function GuardOks(names: seq<string>): (ms: seq<Milestone>)
    ensures |ms| == |names| && forall i | 0 <= i < |ms| :: ms[i] == GuardOk(names[i])
  {
    seq(|names|, i requires 0 <= i < |names| => GuardOk(names[i]))
  }

  /** The loop over guards, recording each that passes. */
  function RunGuardNames(w: World, names: seq<string>, s: State): (State, bool) {
    var r := Guards.Run(w.registry, w.decide, s.decisions, names);
    (s.(decisions := r.next, trace := s.trace + GuardOks(names[..r.passed])), r.passed < |names|)
  }

  /** The trimmed first value of a field. */
  function ValueOf(submission: Submission, field: string): string {
    TrimSpace(submission.first(field))
  }

  /** The conditions on the submission and on the validation result. */
  predicate HoldsOf(submission: Submission, cond: Cond, errors: seq<(string, string)>) {
    match cond
    case Unsubmitted(field) => field !in submission.submitted
    case Given(field) => ValueOf(submission, field) != ""
    case TooShort(field, bound) => |ValueOf(submission, field)| < bound
    case TooLong(field, bound) => |ValueOf(submission, field)| > bound
    case Unmatched(field, pattern) => !submission.matches(pattern, ValueOf(submission, field))
    case Invalid => errors != []
    case _ => false
  }

  /** A statement that neither branches nor returns. */
  function Effect(stmt: Stmt, s: State): State {
    match stmt
    case Do(effect) => Log(s, effect)
    case NewResult => s.(errors := [])
    case AddCode(field, code) => s.(errors := s.errors + [(field, code)])
    case _ => s
  }

  /** A condition that calls no helper function. */
  function Evaluate(w: World, cond: Cond, s: State): (State, bool) {
    match cond
    case Test => Decide(w, s)
    case Fails(attempt, success) =>
      var (u, failed) := Decide(w, Log(s, attempt));
      (if failed then u else Log(u, success), failed)
    case CsrfRegistered => (s, w.csrfRegistered)
    case LimiterMissing => (s, !w.limiterRegistered)
    case GuardsFail(names) => RunGuardNames(w, names, s)
    case _ => (s, HoldsOf(w.submission, cond, s.errors))
  }

  /** Runs statements; inside a helper function no further helper is called. */
  function Exec(inHelper: bool, w: World, stmts: seq<Stmt>, s: State): (State, Outcome)
    decreases !inHelper, stmts
  {
    if stmts == [] then (s, Fell)
    else
      var (t, out) :=
        match stmts[0]
        case Return(value) => (s, Returned(value))
        case If(cond, body, otherwise) =>
          var (t, holds) :=
            if cond.RunRateLimit? && !inHelper then
              var (u, limited) := Exec(true, w, RunRateLimitBody(), s);
              (u, limited == Returned(true))
            else if cond.NotRunGuards? && !inHelper then
              var (u, passed) := Exec(true, w, RunGuardsBody(cond.names), s);
              (u, passed == Returned(false))
            else Evaluate(w, cond, s);
          Exec(inHelper, w, if holds then body else otherwise, t)
        case _ => (Effect(stmts[0], s), Fell);
      if out.Fell? then Exec(inHelper, w, stmts[1..], t) else (t, out)
  }

  // ------------------------------------------------------- gates and endings

  /** The run stopped after the first k milestones with one response. */
  ghost predicate Stopped(before: seq<Milestone>, after: seq<Milestone>, ms: seq<Milestone>) {
    exists k | 0 <= k <= |ms| :: after == before + ms[..k] + [Write]
  }

  /** Every rule is met by a value that was given, and every required field was submitted. */
  ghost predicate Valid(submission: Submission, required: seq<string>, rules: seq<Rule>) {
    && (forall field | field in required :: field in submission.submitted)
    && (forall rule | rule in rules :: Meets(submission, rule))
  }

  predicate Meets(submission: Submission, rule: Rule) {
    var value := TrimSpace(submission.first(rule.field));
    value != "" ==>
      && (rule.minLength > 0 ==> |value| >= rule.minLength)
      && (rule.maxLength > 0 ==> |value| <= rule.maxLength)
      && (rule.pattern != "" ==> submission.matches(rule.pattern, value))
  }

  /** Nothing in the way of these milestones: no call fails, every guard admits, the submission is valid. */
  ghost predicate Open(w: World, ms: seq<Milestone>) {
    && (forall n :: !w.decide(n))
    && (forall m | m in ms :: Clears(w, m))
  }

  ghost predicate Clears(w: World, m: Milestone) {
    match m
    case GuardOk(name) => Admits(w.registry, name)
    case Validated(required, rules) => Valid(w.submission, required, rules)
    case _ => true
  }

  /** How a gate leaves a run: through, with all of its milestones, or answered; and through when nothing is in the way. */
  ghost predicate Passed(w: World, before: seq<Milestone>, r: (State, Outcome), ms: seq<Milestone>) {
    && ((r.1 == Fell && r.0.trace == before + ms) || (r.1 == Returned(true) && Stopped(before, r.0.trace, ms)))
    && (Open(w, ms) ==> r.1 == Fell)
  }

  /** How an ending leaves a run: answered; and after all of its milestones when nothing is in the way. */
  ghost predicate Answered(w: World, before: seq<Milestone>, r: (State, Outcome), ms: seq<Milestone>) {
    && r.1 == Returned(true) && Stopped(before, r.0.trace, ms)
    && (Open(w, ms) ==> r.0.trace == before + ms + [Write])
  }

  /** Statements that either let the request through, having passed all of ms, or answer it for good. */
  ghost predicate Gate(w: World, stmts: seq<Stmt>, ms: seq<Milestone>) {
    forall s: State {:trigger Exec(false, w, stmts, s)} :: Passed(w, s.trace, Exec(false, w, stmts, s), ms)
  }

  /** Statements that always answer the request and report it as handled. */
  ghost predicate Ending(w: World, stmts: seq<Stmt>, ms: seq<Milestone>) {
    forall s: State {:trigger Exec(false, w, stmts, s)} :: Answered(w, s.trace, Exec(false, w, stmts, s), ms)
  }

  lemma OpenParts(w: World, am: seq<Milestone>, bm: seq<Milestone>)
    ensures Open(w, am + bm) <==> Open(w, am) && Open(w, bm)
  {
    if Open(w, am + bm) {
      assert forall m | m in am :: m in am + bm;
      assert forall m | m in bm :: m in am + bm;
    }
  }

  lemma {:induction false} ExecAppend(h: bool, w: World, a: seq<Stmt>, b: seq<Stmt>, s: State)
    ensures var (t, out) := Exec(h, w, a, s);
            Exec(h, w, a + b, s) == if out.Fell? then Exec(h, w, b, t) else (t, out)
    decreases |a|
  {
    if a == [] {
      assert a + b == b;
    } else {
      assert (a + b)[1..] == a[1..] + b;
      var (u, out) := Exec(h, w, [a[0]], s);
      assert [a[0]][1..] == [];
      ExecHead(h, w, a, s);
      ExecHead(h, w, a + b, s);
      ExecAppend(h, w, a[1..], b, u);
    }
  }

  /** A list runs as its first statement followed by the rest. */
  lemma ExecHead(h: bool, w: World, a: seq<Stmt>, s: State)
    requires a != []
    ensures var (t, out) := Exec(h, w, [a[0]], s);
            Exec(h, w, a, s) == if out.Fell? then Exec(h, w, a[1..], t) else (t, out)
  {
    assert [a[0]][1..] == [];
  }

  lemma StoppedLater(before: seq<Milestone>, am: seq<Milestone>, after: seq<Milestone>, bm: seq<Milestone>)
    requires Stopped(before + am, after, bm)
    ensures Stopped(before, after, am + bm)
  {
    var k :| 0 <= k <= |bm| && after == before + am + bm[..k] + [Write];
    assert (am + bm)[..|am| + k] == am + bm[..k];
    assert before + am + bm[..k] + [Write] == before + (am + bm)[..|am| + k] + [Write];
  }

  lemma StoppedEarlier(before: seq<Milestone>, am: seq<Milestone>, after: seq<Milestone>, bm: seq<Milestone>)
    requires Stopped(before, after, am)
    ensures Stopped(before, after, am + bm)
  {
    var k :| 0 <= k <= |am| && after == before + am[..k] + [Write];
    assert (am + bm)[..k] == am[..k];
  }

  lemma GateSeq(w: World, a: seq<Stmt>, am: seq<Milestone>, b: seq<Stmt>, bm: seq<Milestone>)
    requires Gate(w, a, am) && Gate(w, b, bm)
    ensures Gate(w, a + b, am + bm)
  {
    forall s: State
      ensures Passed(w, s.trace, Exec(false, w, a + b, s), am + bm)
    {
      ExecAppend(false, w, a, b, s);
      var r := Exec(false, w, a, s);
      PassedThen(w, s.trace, r, am, Exec(false, w, b, r.0), bm);
    }
  }

  lemma PassedThen(w: World, before: seq<Milestone>, first: (State, Outcome), am: seq<Milestone>, second: (State, Outcome), bm: seq<Milestone>)
    requires Passed(w, before, first, am) && (first.1.Fell? ==> Passed(w, first.0.trace, second, bm))
    ensures Passed(w, before, if first.1.Fell? then second else first, am + bm)
  {
    OpenParts(w, am, bm);
    if first.1.Fell? {
      if second.1.Fell? {
        assert before + am + bm == before + (am + bm);
      } else {
        StoppedLater(before, am, second.0.trace, bm);
      }
    } else {
      StoppedEarlier(before, am, first.0.trace, bm);
    }
  }

  lemma EndingSeq(w: World, a: seq<Stmt>, am: seq<Milestone>, b: seq<Stmt>, bm: seq<Milestone>)
    requires Gate(w, a, am) && Ending(w, b, bm)
    ensures Ending(w, a + b, am + bm)
  {
    forall s: State
      ensures Answered(w, s.trace, Exec(false, w, a + b, s), am + bm)
    {
      ExecAppend(false, w, a, b, s);
      var r := Exec(false, w, a, s);
      AnsweredThen(w, s.trace, r, am, Exec(false, w, b, r.0), bm);
    }
  }

  lemma AnsweredThen(w: World, before: seq<Milestone>, first: (State, Outcome), am: seq<Milestone>, second: (State, Outcome), bm: seq<Milestone>)
    requires Passed(w, before, first, am) && (first.1.Fell? ==> Answered(w, first.0.trace, second, bm))
    ensures Answered(w, before, if first.1.Fell? then second else first, am + bm)
  {
    OpenParts(w, am, bm);
    if first.1.Fell? {
      StoppedLater(before, am, second.0.trace, bm);
      assert before + am + bm + [Write] == before + (am + bm) + [Write];
    } else {
      StoppedEarlier(before, am, first.0.trace, bm);
    }
  }

  // -------------------------------------------------------- building blocks

  function Opt(m: Option<Milestone>): seq<Milestone> {
    if m.Some? then [m.value] else []
  }

  /** An if statement that calls no helper. */
  lemma ExecIf(h: bool, w: World, cond: Cond, body: seq<Stmt>, otherwise: seq<Stmt>, s: State)
    requires h || (!cond.RunRateLimit? && !cond.NotRunGuards?)
    ensures var (t, holds) := Evaluate(w, cond, s);
            Exec(h, w, [If(cond, body, otherwise)], s) == Exec(h, w, if holds then body else otherwise, t)
  {
    assert [If(cond, body, otherwise)][1..] == [];
  }

  lemma GateNil(w: World)
    ensures Gate(w, [], [])
  {
    assert forall s: State :: s.trace + [] == s.trace;
  }

  lemma GateDo(w: World, effect: Option<Milestone>)
    ensures Gate(w, [Do(effect)], Opt(effect))
  {
    assert [Do(effect)][1..] == [];
    assert forall s: State :: s.trace + [] == s.trace;
  }

  /** Any number of statements that record nothing. */
  function Skips(n: nat): seq<Stmt> {
    if n == 0 then [] else Skips(n - 1) + [SKIP]
  }

  lemma {:induction false} GateSkips(w: World, n: nat)
    ensures Gate(w, Skips(n), [])
  {
    hide Gate;
    if n == 0 {
      GateNil(w);
    } else {
      GateSkips(w, n - 1);
      GateDo(w, None);
      GateQuiet(w, Skips(n - 1), [SKIP]);
    }
  }

  /** Two silent gates in a row. */
  lemma GateQuiet(w: World, a: seq<Stmt>, b: seq<Stmt>)
    requires Gate(w, a, []) && Gate(w, b, [])
    ensures Gate(w, a + b, [])
  {
    hide Gate;
    GateSeq(w, a, [], b, []);
    var none: seq<Milestone> := [];
    assert none + none == none;
  }

  /** A list that ends in a response and return true, after statements that let the request through. */
  lemma EndingRespond(w: World)
    ensures Ending(w, RESPOND, [])
  {
    forall s: State
      ensures Answered(w, s.trace, Exec(false, w, RESPOND, s), [])
    {
      ExecRespond(w, s);
      assert s.trace + [][..0] + [Write] == s.trace + [Write];
      assert s.trace + [] == s.trace;
    }
  }

  lemma ExecRespond(w: World, s: State)
    ensures Exec(false, w, RESPOND, s) == (s.(trace := s.trace + [Write]), Returned(true))
  {
    assert RESPOND[1..] == [Return(true)];
  }

  lemma EndingAfter(w: World, a: seq<Stmt>, am: seq<Milestone>)
    requires Gate(w, a, am)
    ensures Ending(w, a + RESPOND, am)
  {
    hide Gate, Ending;
    EndingRespond(w);
    EndingSeq(w, a, am, RESPOND, []);
    assert am + [] == am;
  }

  lemma ExecNothing(w: World, s: State)
    ensures Exec(false, w, [], s) == (s, Fell)
  {
  }

  /** When nothing is in the way, no test holds and no call fails. */
  lemma TestFailsOpen(w: World, s: State, ms: seq<Milestone>)
    requires Open(w, ms)
    ensures !Decide(w, s).1
  {
  }

  /** if <test> { <ending> }: nothing is recorded when the test fails. */
  lemma GateTest(w: World, body: seq<Stmt>)
    requires Ending(w, body, [])
    ensures Gate(w, [If(Test, body, [])], [])
  {
    hide Exec, Stopped, Open;
    forall s: State
      ensures Passed(w, s.trace, Exec(false, w, [If(Test, body, [])], s), [])
    {
      ExecIf(false, w, Test, body, [], s);
      ExecNothing(w, Decide(w, s).0);
      assert s.trace + [] == s.trace;
      if Open(w, []) {
        TestFailsOpen(w, s, []);
      }
    }
  }

  /** if <test> { <gate> } else { <gate> }, neither recording anything. */
  lemma GateChoice(w: World, body: seq<Stmt>, otherwise: seq<Stmt>)
    requires Gate(w, body, []) && Gate(w, otherwise, [])
    ensures Gate(w, [If(Test, body, otherwise)], [])
  {
    hide Exec, Stopped, Open;
    forall s: State
      ensures Passed(w, s.trace, Exec(false, w, [If(Test, body, otherwise)], s), [])
    {
      ExecIf(false, w, Test, body, otherwise, s);
    }
  }

  /** if <test> { <ending> } else { <ending> }. */
  lemma EndingChoice(w: World, body: seq<Stmt>, otherwise: seq<Stmt>)
    requires Ending(w, body, []) && Ending(w, otherwise, [])
    ensures Ending(w, [If(Test, body, otherwise)], [])
  {
    hide Exec, Stopped, Open;
    forall s: State
      ensures Answered(w, s.trace, Exec(false, w, [If(Test, body, otherwise)], s), [])
    {
      ExecIf(false, w, Test, body, otherwise, s);
    }
  }

  /** if err := <call>; err != nil { <ending> } else { <gate> }. */
  lemma GateFails(w: World, attempt: Option<Milestone>, success: Option<Milestone>, body: seq<Stmt>, otherwise: seq<Stmt>)
    requires Ending(w, body, []) && Gate(w, otherwise, [])
    requires otherwise == [] || success.None?
    ensures Gate(w, [If(Fails(attempt, success), body, otherwise)], Opt(attempt) + Opt(success))
  {
    hide Exec, Stopped, Open;
    var ms := Opt(attempt) + Opt(success);
    if otherwise == [] {
      GateNil(w);
    }
    forall s: State
      ensures Passed(w, s.trace, Exec(false, w, [If(Fails(attempt, success), body, otherwise)], s), ms)
    {
      ExecIf(false, w, Fails(attempt, success), body, otherwise, s);
      var (u, failed) := Decide(w, Log(s, attempt));
      assert u.trace == s.trace + Opt(attempt);
      if failed {
        var (t, out) := Exec(false, w, body, u);
        AnsweredAfter(s.trace, Opt(attempt), t.trace, Opt(success));
        if Open(w, ms) {
          TestFailsOpen(w, Log(s, attempt), ms);
        }
      } else {
        var v := Log(u, success);
        assert v.trace == s.trace + Opt(attempt) + Opt(success);
        if otherwise == [] {
          ExecNothing(w, v);
        }
        FailsNot(w, s, attempt, success, otherwise, Exec(false, w, otherwise, v));
      }
    }
  }

  /** The call succeeded: what follows it is a silent gate. */
  lemma FailsNot(w: World, s: State, attempt: Option<Milestone>, success: Option<Milestone>, otherwise: seq<Stmt>, r: (State, Outcome))
    requires otherwise == [] || success.None?
    requires Passed(w, s.trace + Opt(attempt) + Opt(success), r, [])
    requires otherwise == [] ==> r.1.Fell?
    ensures Passed(w, s.trace, r, Opt(attempt) + Opt(success))
  {
    hide Stopped;
    OpenParts(w, Opt(attempt) + Opt(success), []);
    assert Opt(attempt) + Opt(success) + [] == Opt(attempt) + Opt(success);
    if r.1.Fell? {
      assert s.trace + Opt(attempt) + Opt(success) + [] == s.trace + (Opt(attempt) + Opt(success));
    } else {
      assert Opt(success) == [] && s.trace + Opt(attempt) + [] == s.trace + Opt(attempt);
      AnsweredAfter(s.trace, Opt(attempt), r.0.trace, []);
    }
  }

  lemma AnsweredAfter(before: seq<Milestone>, am: seq<Milestone>, after: seq<Milestone>, bm: seq<Milestone>)
    requires Stopped(before + am, after, [])
    ensures Stopped(before, after, am + bm)
  {
    StoppedLater(before, am, after, []);
    assert am + [] == am;
    StoppedEarlier(before, am, after, bm);
  }

  // ------------------------------------------ rate limit, guards, CSRF, denial

  function RateLimitStmts(enabled: bool): seq<Stmt> {
    if enabled then [If(RunRateLimit, [Return(true)], [])] else []
  }

  function GuardStmts(guards: seq<string>): seq<Stmt> {
    var names := RuntimeGuardNames(guards);
    if names == [] then [] else [If(NotRunGuards(names), [Return(true)], [])]
  }

  /** The CSRF check of actions, commands and APIs. */
  function CsrfStmts(csrf: bool): seq<Stmt> {
    if csrf then [If(CsrfRegistered, [If(Fails(None, Some(CsrfOk)), RESPOND, [])], [])] else []
  }

  function RateMilestones(w: World, enabled: bool): seq<Milestone> {
    if enabled && w.limiterRegistered then [RateOk] else []
  }

  function GuardMilestones(guards: seq<string>): seq<Milestone> {
    GuardOks(RuntimeGuardNames(guards))
  }

  function CsrfMilestones(w: World, csrf: bool): seq<Milestone> {
    if csrf && w.csrfRegistered then [CsrfOk] else []
  }

  lemma HelperRespond(w: World, s: State, value: bool)
    ensures Exec(true, w, [Note(Write), Return(value)], s) == (s.(trace := s.trace + [Write]), Returned(value))
  {
    assert [Note(Write), Return(value)][1..] == [Return(value)];
  }

  /** A helper's if statement whose body answers the request. */
  lemma HelperIf(w: World, cond: Cond, value: bool, s: State)
    requires cond.Test? || (cond.Fails? && cond.attempt.None?)
    ensures var (u, holds) := Decide(w, s);
            Exec(true, w, [If(cond, [Note(Write), Return(value)], [])], s)
            == if holds then (u.(trace := u.trace + [Write]), Returned(value))
               else (if cond.Test? then u else Log(u, cond.success), Fell)
  {
    var (u, holds) := Decide(w, s);
    HelperRespond(w, u, value);
    assert [If(cond, [Note(Write), Return(value)], [])][1..] == [];
  }

  lemma HelperReturn(w: World, s: State, value: bool)
    ensures Exec(true, w, [Return(value)], s) == (s, Returned(value))
  {
  }

  lemma HelperNothing(w: World, s: State)
    ensures Exec(true, w, [], s) == (s, Fell)
  {
  }

  lemma HelperSkip(w: World, s: State)
    ensures Exec(true, w, [SKIP], s) == (s, Fell)
  {
    assert [SKIP][1..] == [];
  }

  /** runRateLimit: true after answering the request, false when there is no limiter or it allowed the request. */
  lemma RunRateLimitHelper(w: World, s: State)
    ensures var (t, out) := Exec(true, w, RunRateLimitBody(), s);
            && ((out == Returned(true) && t.trace == s.trace + [Write])
                || (out == Returned(false) && t.trace == s.trace + RateMilestones(w, true)))
            && ((forall n :: !w.decide(n)) ==> out == Returned(false))
  {
    hide Exec;
    var missing, skip, failed := [If(LimiterMissing, [Return(false)], [])], [SKIP], [If(Test, RESPOND, [])];
    var limited, done := [If(Fails(None, Some(RateOk)), RESPOND, [])], [Return(false)];
    assert RunRateLimitBody() == missing + (skip + (failed + (skip + (limited + done))));
    ExecIf(true, w, LimiterMissing, [Return(false)], [], s);
    HelperReturn(w, s, false);
    HelperNothing(w, s);
    ExecAppend(true, w, missing, skip + (failed + (skip + (limited + done))), s);
    if w.limiterRegistered {
      HelperSkip(w, s);
      ExecAppend(true, w, skip, failed + (skip + (limited + done)), s);
      HelperIf(w, Test, true, s);
      ExecAppend(true, w, failed, skip + (limited + done), s);
      var (u, err) := Decide(w, s);
      HelperSkip(w, u);
      ExecAppend(true, w, skip, limited + done, u);
      HelperIf(w, Fails(None, Some(RateOk)), true, u);
      ExecAppend(true, w, limited, done, u);
      HelperReturn(w, Log(Decide(w, u).0, Some(RateOk)), false);
    } else {
      assert s.trace + [] == s.trace;
    }
  }

  lemma GateRateLimit(w: World, enabled: bool)
    ensures Gate(w, RateLimitStmts(enabled), RateMilestones(w, enabled))
  {
    if enabled {
      var ms := RateMilestones(w, true);
      assert [If(RunRateLimit, [Return(true)], [])][1..] == [];
      forall s: State
        ensures Passed(w, s.trace, Exec(false, w, RateLimitStmts(true), s), ms)
      {
        RunRateLimitHelper(w, s);
        assert s.trace + ms[..0] + [Write] == s.trace + [Write];
      }
    } else {
      GateNil(w);
    }
  }

  /** runGuards: true exactly when every guard passed; otherwise the failure is answered. */
  lemma RunGuardsHelper(w: World, names: seq<string>, s: State)
    ensures var (t, out) := Exec(true, w, RunGuardsBody(names), s);
            var passed := Guards.Run(w.registry, w.decide, s.decisions, names).passed;
            && out == Returned(passed == |names|)
            && t.trace == s.trace + GuardOks(names[..passed]) + if passed < |names| then [Write] else []
  {
    RunGuardsExec(w, names, s, RunGuardsBody(names));
  }

  lemma RunGuardsExec(w: World, names: seq<string>, s: State, b: seq<Stmt>)
    requires |b| == 2 && b[0] == If(GuardsFail(names), [Note(Write), Return(false)], []) && b[1] == Return(true)
    ensures var (u, failed) := RunGuardNames(w, names, s);
            Exec(true, w, b, s) == if failed then (u.(trace := u.trace + [Write]), Returned(false)) else (u, Returned(true))
  {
    HelperGuards(w, names, s);
    ExecHead(true, w, b, s);
    var (u, failed) := RunGuardNames(w, names, s);
    assert [b[0]] == [If(GuardsFail(names), [Note(Write), Return(false)], [])] && b[1..] == [Return(true)];
    HelperReturn(w, u, true);
  }

  /** The if statement of runGuards. */
  lemma HelperGuards(w: World, names: seq<string>, s: State)
    ensures var (u, failed) := RunGuardNames(w, names, s);
            Exec(true, w, [If(GuardsFail(names), [Note(Write), Return(false)], [])], s)
            == if failed then (u.(trace := u.trace + [Write]), Returned(false)) else (u, Fell)
  {
    var check := If(GuardsFail(names), [Note(Write), Return(false)], []);
    var (u, failed) := RunGuardNames(w, names, s);
    assert [check][1..] == [];
    HelperRespond(w, u, false);
  }

  /** The guard check of a handler with guards to run: falls through exactly when every guard passed. */
  lemma GuardCheck(w: World, guards: seq<string>, s: State)
    requires RuntimeGuardNames(guards) != []
    ensures var names := RuntimeGuardNames(guards);
            var passed := Guards.Run(w.registry, w.decide, s.decisions, names).passed;
            var (t, out) := Exec(false, w, GuardStmts(guards), s);
            && out == (if passed == |names| then Fell else Returned(true))
            && t.trace == s.trace + GuardOks(names)[..passed] + if passed < |names| then [Write] else []
  {
    var names := RuntimeGuardNames(guards);
    assert [If(NotRunGuards(names), [Return(true)], [])][1..] == [];
    RunGuardsHelper(w, names, s);
    var passed := Guards.Run(w.registry, w.decide, s.decisions, names).passed;
    assert GuardOks(names[..passed]) == GuardOks(names)[..passed];
  }

  lemma GateGuards(w: World, guards: seq<string>)
    ensures Gate(w, GuardStmts(guards), GuardMilestones(guards))
  {
    var names := RuntimeGuardNames(guards);
    if names == [] {
      GateNil(w);
    } else {
      var ms := GuardOks(names);
      forall s: State
        ensures Passed(w, s.trace, Exec(false, w, GuardStmts(guards), s), ms)
      {
        GuardCheck(w, guards, s);
        assert ms[..|names|] == ms;
        if Open(w, ms) {
          GuardsOpen(w, names, s.decisions);
        }
      }
    }
  }

  /** When nothing is in the way, every guard passes. */
  lemma GuardsOpen(w: World, names: seq<string>, next: nat)
    requires Open(w, GuardOks(names))
    ensures Guards.Run(w.registry, w.decide, next, names).passed == |names|
  {
    forall i: nat | i < |names|
      ensures Passes(w.registry, w.decide, next, names, i)
    {
      assert Clears(w, GuardOks(names)[i]);
    }
    RunPassesIff(w.registry, w.decide, next, names, |names|);
  }

  // ------------------------------------------------------------- refused guards

  /** Every non-public guard is registered, or native and satisfied. */
  predicate Admitted(w: World, guards: seq<string>) {
    forall i | 0 <= i < |RuntimeGuardNames(guards)| :: Admits(w.registry, RuntimeGuardNames(guards)[i])
  }

  /** Otherwise the guard check answers every request. */
  lemma EndingGuards(w: World, guards: seq<string>)
    requires !Admitted(w, guards)
    ensures Ending(w, GuardStmts(guards), GuardMilestones(guards))
  {
    var names := RuntimeGuardNames(guards);
    var i :| 0 <= i < |names| && !Admits(w.registry, names[i]);
    var ms := GuardOks(names);
    assert ms[i] in ms && !Clears(w, ms[i]);
    forall s: State
      ensures Answered(w, s.trace, Exec(false, w, GuardStmts(guards), s), ms)
    {
      GuardCheck(w, guards, s);
      RunStopsAtMissing(w.registry, w.decide, s.decisions, names, i);
    }
  }

  /** What follows an ending is never reached. */
  lemma EndingThen(w: World, a: seq<Stmt>, ms: seq<Milestone>, b: seq<Stmt>)
    requires Ending(w, a, ms)
    ensures Ending(w, a + b, ms)
  {
    forall s: State
      ensures Answered(w, s.trace, Exec(false, w, a + b, s), ms)
    {
      ExecAppend(false, w, a, b, s);
      var (t, out) := Exec(false, w, a, s);
    }
  }

  lemma GateIfRegistered(w: World, inner: seq<Stmt>, ms: seq<Milestone>)
    requires Gate(w, inner, ms)
    ensures Gate(w, [If(CsrfRegistered, inner, [])], if w.csrfRegistered then ms else [])
  {
    var stmts := [If(CsrfRegistered, inner, [])];
    assert stmts[1..] == [];
    GateNil(w);
    forall s: State
      ensures Passed(w, s.trace, Exec(false, w, stmts, s), if w.csrfRegistered then ms else [])
    {
      var (t, out) := Exec(false, w, if w.csrfRegistered then inner else [], s);
    }
  }

  lemma GateCsrf(w: World, csrf: bool)
    ensures Gate(w, CsrfStmts(csrf), CsrfMilestones(w, csrf))
  {
    hide Gate, Ending;
    GateNil(w);
    if csrf {
      EndingRespond(w);
      GateFails(w, None, Some(CsrfOk), RESPOND, []);
      assert Opt(None) + Opt(Some(CsrfOk)) == [CsrfOk];
      GateIfRegistered(w, [If(Fails(None, Some(CsrfOk)), RESPOND, [])], [CsrfOk]);
    }
  }

  // ----------------------------------------------------------------- actions

  datatype Status = NoBinding | Bound | Missing | Unsupported

  datatype Signature =
    | Action0 | ActionValues | ActionData | ActionForm | ActionFormPtr
    | Api | Api0 | ApiInput | ApiInputPtr | OtherSignature

  datatype Action = Action(
    guards: seq<string>, errorPage: string, status: Status, signature: Signature, fileInputs: bool, uploads: bool,
    inputType: string, validatesInput: bool, requiredFields: seq<string>, rules: seq<Rule>, fragments: seq<string>, redirect: string)
  {
    predicate NeedsData() {
      uploads || signature.ActionData? || fileInputs
    }

    /** multipartActionNeedsValues and actionNeedsValues. */
    predicate NeedsValues() {
      if uploads then
        || (validatesInput && rules != [])
        || !status.Bound?
        || signature.ActionValues?
        || ((signature.ActionForm? || signature.ActionFormPtr?) && !fileInputs)
      else !status.Bound? || validatesInput || !signature.Action0?
    }

    predicate Validates() {
      && validatesInput
      && (if status.Bound? then
            signature.Action0? || signature.ActionValues? || signature.ActionData? || signature.ActionForm? || signature.ActionFormPtr?
          else inputType != "")
    }
  }

  /** actionParseFormStmtsWithErrors. */
  function ParseFormStmts(csrf: bool, multipart: bool): seq<Stmt> {
    [If(Fails(Some(Parsing), Some(Parsed)), [If(Test, RESPOND, [])] + RESPOND, [])]
    + (if multipart then [If(Test, [SKIP], [])] else [])
    + CsrfStmts(csrf)
  }

  /** The definitions of data and values before decoding. */
  function ValueStmts(a: Action): seq<Stmt> {
    if a.uploads then Skips(if a.NeedsValues() then 2 else 1)
    else if a.NeedsData() then Skips(2)
    else if a.NeedsValues() then Skips(1)
    else []
  }

  /** expectedSubmissionStmts: DecodeExpected or DecodeExpectedData. */
  function ExpectedStmts(a: Action): seq<Stmt> {
    if a.NeedsData() then
      [If(Fails(Some(Decoding), None), RESPOND, Skips(if a.NeedsValues() then 2 else 1))] + Skips(if a.NeedsValues() then 1 else 0)
    else [If(Fails(Some(Decoding), None), RESPOND, Skips(1))]
  }

  function ExpectedValuesStmts(): seq<Stmt> {
    [If(Fails(Some(Decoding), None), RESPOND, Skips(1))]
  }

  /** A decoder call followed by ifErrReturnInvalidForm. */
  function DecoderStmts(): seq<Stmt> {
    [If(Fails(Some(Decoding), None), RESPOND, [])]
  }

  function RequiredFieldStmts(fields: seq<string>): seq<Stmt> {
    if fields == [] then []
    else
      var last := fields[|fields| - 1];
      RequiredFieldStmts(fields[..|fields| - 1]) + [If(Unsubmitted(last), [AddCode(last, "validation_required")], [])]
  }

  /** One check of actionValidationRuleStmt, emitted only when the rule asks for it. */
  function CheckStmts(asked: bool, cond: Cond, field: string, code: string): seq<Stmt> {
    if asked then [If(cond, [AddCode(field, code)], [])] else []
  }

  function RuleChecks(r: Rule): seq<Stmt> {
    CheckStmts(r.minLength > 0, TooShort(r.field, r.minLength), r.field, "validation_min_length")
    + CheckStmts(r.maxLength > 0, TooLong(r.field, r.maxLength), r.field, "validation_max_length")
    + CheckStmts(r.pattern != "", Unmatched(r.field, r.pattern), r.field, "validation_pattern")
  }

  function RuleStmts(rules: seq<Rule>): seq<Stmt> {
    if rules == [] then []
    else
      var last := rules[|rules| - 1];
      RuleStmts(rules[..|rules| - 1]) + [If(Given(last.field), RuleChecks(last), [])]
  }

  /** The answer to an invalid submission. */
  const INVALID_RESPONSE := Skips(2) + [If(Test, RESPOND, [])] + RESPOND

  /** actionRequiredValidationStmts; the note marks where the submission has been found valid. */
  function ValidationStmts(a: Action): seq<Stmt> {
    [NewResult] + RequiredFieldStmts(a.requiredFields) + RuleStmts(a.rules)
    + [If(Invalid, INVALID_RESPONSE, [])] + [Note(Validated(a.requiredFields, a.rules))]
  }

  /** Decoding, as actionInputDecodeStmts and boundActionInputDecodeStmts begin. */
  function DecodeStmts(a: Action): seq<Stmt> {
    if a.status.Bound? then
      match a.signature
      case Action0 => if a.uploads then ExpectedStmts(a) else []
      case ActionForm => ExpectedStmts(a) + DecoderStmts()
      case ActionFormPtr => ExpectedStmts(a) + DecoderStmts()
      case _ => ExpectedStmts(a)
    else if a.inputType == "" then ExpectedValuesStmts()
    else DecoderStmts() + Skips(2)
  }

  /** Validation, as they end: with every signature of an action function, and for typed input without one. */
  function ValidationIf(a: Action): seq<Stmt> {
    if a.Validates() then ValidationStmts(a) else []
  }

  /** fragmentResponseStmts. */
  const FRAGMENT_RESPONSE := [SKIP] + [If(Test, [If(Test, [SKIP], [])], [])] + RESPOND

  /** fragmentSwitchStmt: the clauses in order, then the default. */
  function FragmentSwitch(fragments: seq<string>): seq<Stmt> {
    if fragments == [] then RESPOND else [If(Test, FRAGMENT_RESPONSE, FragmentSwitch(fragments[1..]))]
  }

  function PartialBranchStmts(a: Action): seq<Stmt> {
    [SKIP] + [If(Test, if a.fragments == [] then RESPOND else [SKIP] + FragmentSwitch(a.fragments), [])]
  }

  /** actionResultStmts, or the bound call and its result, with the final return true. */
  function ActionResultStmts(a: Action): seq<Stmt> {
    if a.status.Bound? then [Note(Handler)] + [If(Test, RESPOND, [])] + RESPOND
    else PartialBranchStmts(a) + Skips(if TrimSpace(a.redirect) == "" then 1 else 0) + RESPOND
  }

  function ContextStmts(errorPage: string): seq<Stmt> {
    Skips(if errorPage != "" then 3 else 2)
  }

  /** actionCaseStmts. */
  function ActionCaseStmts(a: Action, csrf: bool, rateLimit: bool): seq<Stmt> {
    if a.guards == [] then RESPOND
    else
      var front := ActionFront(a, rateLimit);
      if !a.status.NoBinding? && !a.status.Bound? then front + RESPOND
      else front + ParseFormStmts(csrf, a.uploads) + ValueStmts(a) + DecodeStmts(a) + ValidationIf(a) + ActionResultStmts(a)
  }

  lemma GateBenignIf(w: World)
    ensures Gate(w, [If(Test, [SKIP], [])], [])
  {
    hide Gate, Ending;
    GateNil(w);
    GateDo(w, None);
    GateChoice(w, [SKIP], []);
  }

  lemma GateParseForm(w: World, csrf: bool, multipart: bool)
    ensures Gate(w, ParseFormStmts(csrf, multipart), [Parsing, Parsed] + CsrfMilestones(w, csrf))
  {
    hide Gate, Ending;
    EndingRespond(w);
    GateTest(w, RESPOND);
    EndingAfter(w, [If(Test, RESPOND, [])], []);
    GateNil(w);
    var body := [If(Test, RESPOND, [])] + RESPOND;
    GateFails(w, Some(Parsing), Some(Parsed), body, []);
    var parse := [If(Fails(Some(Parsing), Some(Parsed)), body, [])];
    assert Opt(Some(Parsing)) + Opt(Some(Parsed)) == [Parsing, Parsed];
    GateBenignIf(w);
    var cleanup := if multipart then [If(Test, [SKIP], [])] else [];
    GateSeq(w, parse, [Parsing, Parsed], cleanup, []);
    assert [Parsing, Parsed] + [] == [Parsing, Parsed];
    GateCsrf(w, csrf);
    GateSeq(w, parse + cleanup, [Parsing, Parsed], CsrfStmts(csrf), CsrfMilestones(w, csrf));
  }

  lemma GateValues(w: World, a: Action)
    ensures Gate(w, ValueStmts(a), [])
  {
    hide Gate, Ending;
    GateSkips(w, 0);
    GateSkips(w, 1);
    GateSkips(w, 2);
  }

  /** A decoding step: Decoding is recorded, then the request goes on or is answered. */
  lemma GateDecode(w: World, n: nat)
    ensures Gate(w, [If(Fails(Some(Decoding), None), RESPOND, Skips(n))], [Decoding])
  {
    hide Gate, Ending;
    EndingRespond(w);
    GateSkips(w, n);
    GateFails(w, Some(Decoding), None, RESPOND, Skips(n));
    assert Opt(Some(Decoding)) + Opt(None) == [Decoding];
  }

  lemma GateExpected(w: World, a: Action)
    ensures Gate(w, ExpectedStmts(a), [Decoding])
  {
    hide Gate, Ending;
    if a.NeedsData() {
      var n := if a.NeedsValues() then 2 else 1;
      var m := if a.NeedsValues() then 1 else 0;
      GateDecode(w, n);
      GateSkips(w, m);
      GateSeq(w, [If(Fails(Some(Decoding), None), RESPOND, Skips(n))], [Decoding], Skips(m), []);
      assert [Decoding] + [] == [Decoding];
    } else {
      GateDecode(w, 1);
    }
  }

  // ------------------------------------------------------------- validation

  /** The errors of the required fields that were not submitted, in order. */
  function RequiredErrors(submission: Submission, fields: seq<string>): seq<(string, string)> {
    if fields == [] then []
    else
      var last := fields[|fields| - 1];
      RequiredErrors(submission, fields[..|fields| - 1]) + if last !in submission.submitted then [(last, "validation_required")] else []
  }

  function CheckErrors(submission: Submission, asked: bool, cond: Cond, field: string, code: string): seq<(string, string)> {
    if asked && HoldsOf(submission, cond, []) then [(field, code)] else []
  }

  function ErrorsOfRule(submission: Submission, r: Rule): seq<(string, string)> {
    CheckErrors(submission, r.minLength > 0, TooShort(r.field, r.minLength), r.field, "validation_min_length")
    + CheckErrors(submission, r.maxLength > 0, TooLong(r.field, r.maxLength), r.field, "validation_max_length")
    + CheckErrors(submission, r.pattern != "", Unmatched(r.field, r.pattern), r.field, "validation_pattern")
  }

  function RuleErrors(submission: Submission, rules: seq<Rule>): seq<(string, string)> {
    if rules == [] then []
    else
      var last := rules[|rules| - 1];
      RuleErrors(submission, rules[..|rules| - 1])
      + if ValueOf(submission, last.field) != "" then ErrorsOfRule(submission, last) else []
  }

  /** No errors are recorded exactly for a valid submission. */
  lemma {:induction false} NoErrorsIff(submission: Submission, required: seq<string>, rules: seq<Rule>)
    ensures RequiredErrors(submission, required) + RuleErrors(submission, rules) == [] <==> Valid(submission, required, rules)
  {
    RequiredIff(submission, required);
    RulesIff(submission, rules);
  }

  lemma {:induction false} RequiredIff(submission: Submission, fields: seq<string>)
    ensures RequiredErrors(submission, fields) == [] <==> forall field | field in fields :: field in submission.submitted
  {
    if fields != [] {
      RequiredIff(submission, fields[..|fields| - 1]);
      assert fields == fields[..|fields| - 1] + [fields[|fields| - 1]];
    }
  }

  lemma MeetsIff(submission: Submission, r: Rule)
    ensures (ValueOf(submission, r.field) == "" || ErrorsOfRule(submission, r) == []) <==> Meets(submission, r)
  {
  }

  lemma {:induction false} RulesIff(submission: Submission, rules: seq<Rule>)
    ensures RuleErrors(submission, rules) == [] <==> forall rule | rule in rules :: Meets(submission, rule)
  {
    hide Meets, ErrorsOfRule, ValueOf;
    if rules != [] {
      RulesIff(submission, rules[..|rules| - 1]);
      MeetsIff(submission, rules[|rules| - 1]);
      assert rules == rules[..|rules| - 1] + [rules[|rules| - 1]];
    }
  }

  function WithErrors(s: State, errors: seq<(string, string)>): State {
    s.(errors := s.errors + errors)
  }

  lemma ExecAddIf(w: World, cond: Cond, field: string, code: string, s: State)
    requires cond.Unsubmitted? || cond.TooShort? || cond.TooLong? || cond.Unmatched?
    ensures Exec(false, w, [If(cond, [AddCode(field, code)], [])], s)
            == (WithErrors(s, CheckErrors(w.submission, true, cond, field, code)), Fell)
  {
    ExecIf(false, w, cond, [AddCode(field, code)], [], s);
    assert [AddCode(field, code)][1..] == [];
    assert s.errors + [] == s.errors;
  }

  lemma {:induction false} ExecRequired(w: World, fields: seq<string>, s: State)
    ensures Exec(false, w, RequiredFieldStmts(fields), s) == (WithErrors(s, RequiredErrors(w.submission, fields)), Fell)
  {
    hide Exec;
    if fields == [] {
      ExecNothing(w, s);
      assert s.errors + [] == s.errors;
    } else {
      var before, last := fields[..|fields| - 1], fields[|fields| - 1];
      ExecRequired(w, before, s);
      var t := WithErrors(s, RequiredErrors(w.submission, before));
      ExecAddIf(w, Unsubmitted(last), last, "validation_required", t);
      ExecAppend(false, w, RequiredFieldStmts(before), [If(Unsubmitted(last), [AddCode(last, "validation_required")], [])], s);
      MoreErrors(s, RequiredErrors(w.submission, before), CheckErrors(w.submission, true, Unsubmitted(last), last, "validation_required"));
    }
  }

  lemma MoreErrors(s: State, a: seq<(string, string)>, b: seq<(string, string)>)
    ensures WithErrors(WithErrors(s, a), b) == WithErrors(s, a + b)
  {
    assert s.errors + a + b == s.errors + (a + b);
  }

  lemma ExecCheck(w: World, asked: bool, cond: Cond, field: string, code: string, s: State)
    requires cond.TooShort? || cond.TooLong? || cond.Unmatched?
    ensures Exec(false, w, CheckStmts(asked, cond, field, code), s) == (WithErrors(s, CheckErrors(w.submission, asked, cond, field, code)), Fell)
  {
    hide Exec;
    if asked {
      ExecAddIf(w, cond, field, code, s);
    } else {
      ExecNothing(w, s);
      assert s.errors + [] == s.errors;
    }
  }

  lemma ExecRuleChecks(w: World, r: Rule, s: State)
    ensures Exec(false, w, RuleChecks(r), s) == (WithErrors(s, ErrorsOfRule(w.submission, r)), Fell)
  {
    hide Exec, CheckStmts, CheckErrors;
    var a := CheckStmts(r.minLength > 0, TooShort(r.field, r.minLength), r.field, "validation_min_length");
    var b := CheckStmts(r.maxLength > 0, TooLong(r.field, r.maxLength), r.field, "validation_max_length");
    var c := CheckStmts(r.pattern != "", Unmatched(r.field, r.pattern), r.field, "validation_pattern");
    var ae := CheckErrors(w.submission, r.minLength > 0, TooShort(r.field, r.minLength), r.field, "validation_min_length");
    var be := CheckErrors(w.submission, r.maxLength > 0, TooLong(r.field, r.maxLength), r.field, "validation_max_length");
    var ce := CheckErrors(w.submission, r.pattern != "", Unmatched(r.field, r.pattern), r.field, "validation_pattern");
    ExecCheck(w, r.minLength > 0, TooShort(r.field, r.minLength), r.field, "validation_min_length", s);
    ExecCheck(w, r.maxLength > 0, TooLong(r.field, r.maxLength), r.field, "validation_max_length", WithErrors(s, ae));
    ExecCheck(w, r.pattern != "", Unmatched(r.field, r.pattern), r.field, "validation_pattern", WithErrors(s, ae + be));
    ExecAppend(false, w, a, b, s);
    ExecAppend(false, w, a + b, c, s);
    MoreErrors(s, ae, be);
    MoreErrors(s, ae + be, ce);
  }

  lemma {:induction false} ExecRules(w: World, rules: seq<Rule>, s: State)
    ensures Exec(false, w, RuleStmts(rules), s) == (WithErrors(s, RuleErrors(w.submission, rules)), Fell)
  {
    hide Exec, RuleChecks, ErrorsOfRule;
    if rules == [] {
      ExecNothing(w, s);
      assert s.errors + [] == s.errors;
    } else {
      var before, last := rules[..|rules| - 1], rules[|rules| - 1];
      ExecRules(w, before, s);
      var t := WithErrors(s, RuleErrors(w.submission, before));
      ExecIf(false, w, Given(last.field), RuleChecks(last), [], t);
      ExecRuleChecks(w, last, t);
      ExecNothing(w, t);
      ExecAppend(false, w, RuleStmts(before), [If(Given(last.field), RuleChecks(last), [])], s);
      var more := if ValueOf(w.submission, last.field) != "" then ErrorsOfRule(w.submission, last) else [];
      assert t.errors + [] == t.errors;
      MoreErrors(s, RuleErrors(w.submission, before), more);
    }
  }

  /** The checks of an action, up to the test of the result. */
  function CheckedStmts(a: Action): seq<Stmt> {
    [NewResult] + RequiredFieldStmts(a.requiredFields) + RuleStmts(a.rules)
  }

  lemma ExecChecked(w: World, a: Action, s: State)
    ensures var (t, out) := Exec(false, w, CheckedStmts(a), s);
            && out == Fell && t.trace == s.trace
            && (t.errors == [] <==> Valid(w.submission, a.requiredFields, a.rules))
  {
    hide Exec, RequiredFieldStmts, RuleStmts, Valid;
    var empty := s.(errors := []);
    ExecNew(w, s);
    ExecRequired(w, a.requiredFields, empty);
    var required := RequiredErrors(w.submission, a.requiredFields);
    ExecRules(w, a.rules, WithErrors(empty, required));
    ExecAppend(false, w, [NewResult], RequiredFieldStmts(a.requiredFields), s);
    ExecAppend(false, w, [NewResult] + RequiredFieldStmts(a.requiredFields), RuleStmts(a.rules), s);
    assert [] + required == required;
    NoErrorsIff(w.submission, a.requiredFields, a.rules);
  }

  lemma ExecNew(w: World, s: State)
    ensures Exec(false, w, [NewResult], s) == (s.(errors := []), Fell)
  {
    assert [NewResult][1..] == [];
  }

  lemma EndingInvalidResponse(w: World)
    ensures Ending(w, INVALID_RESPONSE, [])
  {
    hide Gate, Ending;
    EndingRespond(w);
    GateTest(w, RESPOND);
    GateSkips(w, 2);
    GateQuiet(w, Skips(2), [If(Test, RESPOND, [])]);
    EndingAfter(w, Skips(2) + [If(Test, RESPOND, [])], []);
  }

  function ValidationMilestones(a: Action): seq<Milestone> {
    if a.Validates() then [Validated(a.requiredFields, a.rules)] else []
  }

  /** The test of the validation result: an invalid submission is answered, a valid one goes on. */
  lemma ExecValidation(w: World, a: Action, s: State)
    ensures var r := Exec(false, w, ValidationStmts(a), s);
            if Valid(w.submission, a.requiredFields, a.rules)
            then r.1 == Fell && r.0.trace == s.trace + [Validated(a.requiredFields, a.rules)]
            else r.1 == Returned(true) && Stopped(s.trace, r.0.trace, [])
  {
    hide Exec, Valid, Stopped, Open, Clears;
    var test, note := [If(Invalid, INVALID_RESPONSE, [])], [Note(Validated(a.requiredFields, a.rules))];
    var (t, out) := Exec(false, w, CheckedStmts(a), s);
    ExecChecked(w, a, s);
    ExecAppend(false, w, CheckedStmts(a), test, s);
    ExecAppend(false, w, CheckedStmts(a) + test, note, s);
    ExecIf(false, w, Invalid, INVALID_RESPONSE, [], t);
    ExecNothing(w, t);
    EndingInvalidResponse(w);
    ExecNote(w, Validated(a.requiredFields, a.rules), t);
    assert Answered(w, t.trace, Exec(false, w, INVALID_RESPONSE, t), []);
  }

  lemma ExecNote(w: World, m: Milestone, s: State)
    ensures Exec(false, w, [Note(m)], s) == (s.(trace := s.trace + [m]), Fell)
  {
    assert [Note(m)][1..] == [];
  }

  lemma GateValidation(w: World, a: Action)
    ensures Gate(w, ValidationIf(a), ValidationMilestones(a))
  {
    hide Exec, Valid, Stopped, ValidationStmts;
    if a.Validates() {
      var m := Validated(a.requiredFields, a.rules);
      forall s: State
        ensures Passed(w, s.trace, Exec(false, w, ValidationStmts(a), s), [m])
      {
        ExecValidation(w, a, s);
        var r := Exec(false, w, ValidationStmts(a), s);
        if r.1.Returned? {
          StoppedEarlier(s.trace, [], r.0.trace, [m]);
          assert [] + [m] == [m];
        }
        assert Open(w, [m]) ==> Clears(w, [m][0]);
      }
    } else {
      GateNil(w);
    }
  }

  /** An invalid submission never gets past validation. */
  lemma EndingInvalid(w: World, a: Action)
    requires a.Validates() && !Valid(w.submission, a.requiredFields, a.rules)
    ensures Ending(w, ValidationIf(a), ValidationMilestones(a))
  {
    hide Exec, Valid, Stopped, ValidationStmts;
    var m := Validated(a.requiredFields, a.rules);
    forall s: State
      ensures Answered(w, s.trace, Exec(false, w, ValidationStmts(a), s), [m])
    {
      ExecValidation(w, a, s);
      var r := Exec(false, w, ValidationStmts(a), s);
      StoppedEarlier(s.trace, [], r.0.trace, [m]);
      assert [] + [m] == [m];
      assert Open(w, [m]) ==> Clears(w, [m][0]);
    }
  }

  /** The decoding steps an action goes through. */
  function DecodeMilestones(a: Action): seq<Milestone> {
    if a.status.Bound? then
      match a.signature
      case Action0 => if a.uploads then [Decoding] else []
      case ActionForm => [Decoding, Decoding]
      case ActionFormPtr => [Decoding, Decoding]
      case _ => [Decoding]
    else [Decoding]
  }

  lemma GateDecoding(w: World, a: Action)
    ensures Gate(w, DecodeStmts(a), DecodeMilestones(a))
  {
    hide Gate, Ending, ExpectedStmts;
    GateNil(w);
    GateExpected(w, a);
    GateDecode(w, 0);
    GateDecode(w, 1);
    GateSkips(w, 2);
    assert [Decoding] + [] == [Decoding] && [Decoding] + [Decoding] == [Decoding, Decoding];
    if !a.status.Bound? {
      GateSeq(w, DecoderStmts(), [Decoding], Skips(2), []);
    } else if a.signature.ActionForm? || a.signature.ActionFormPtr? {
      GateSeq(w, ExpectedStmts(a), [Decoding], DecoderStmts(), [Decoding]);
    }
  }

  lemma EndingFragmentResponse(w: World)
    ensures Ending(w, FRAGMENT_RESPONSE, [])
  {
    hide Gate, Ending;
    GateNil(w);
    GateDo(w, None);
    GateBenignIf(w);
    GateChoice(w, [If(Test, [SKIP], [])], []);
    GateQuiet(w, [SKIP], [If(Test, [If(Test, [SKIP], [])], [])]);
    EndingAfter(w, [SKIP] + [If(Test, [If(Test, [SKIP], [])], [])], []);
  }

  lemma {:induction false} EndingFragmentSwitch(w: World, fragments: seq<string>)
    ensures Ending(w, FragmentSwitch(fragments), [])
  {
    hide Gate, Ending;
    EndingRespond(w);
    if fragments != [] {
      EndingFragmentSwitch(w, fragments[1..]);
      EndingFragmentResponse(w);
      EndingChoice(w, FRAGMENT_RESPONSE, FragmentSwitch(fragments[1..]));
    }
  }

  lemma GatePartialBranch(w: World, a: Action)
    ensures Gate(w, PartialBranchStmts(a), [])
  {
    hide Gate, Ending;
    EndingRespond(w);
    GateDo(w, None);
    var none: seq<Milestone> := [];
    assert none + none == none && Opt(None) == none;
    if a.fragments != [] {
      EndingFragmentSwitch(w, a.fragments);
      EndingSeq(w, [SKIP], none, FragmentSwitch(a.fragments), none);
    }
    var body := if a.fragments == [] then RESPOND else [SKIP] + FragmentSwitch(a.fragments);
    GateTest(w, body);
    GateQuiet(w, [SKIP], [If(Test, body, [])]);
  }

  function ResultMilestones(a: Action): seq<Milestone> {
    if a.status.Bound? then [Handler] else []
  }

  lemma EndingActionResult(w: World, a: Action)
    ensures Ending(w, ActionResultStmts(a), ResultMilestones(a))
  {
    hide Gate, Ending;
    EndingRespond(w);
    GateTest(w, RESPOND);
    if a.status.Bound? {
      GateDo(w, Some(Handler));
      GateSeq(w, [Note(Handler)], [Handler], [If(Test, RESPOND, [])], []);
      assert [Handler] + [] == [Handler];
      EndingAfter(w, [Note(Handler)] + [If(Test, RESPOND, [])], [Handler]);
    } else {
      var n := if TrimSpace(a.redirect) == "" then 1 else 0;
      GatePartialBranch(w, a);
      GateSkips(w, n);
      GateQuiet(w, PartialBranchStmts(a), Skips(n));
      EndingAfter(w, PartialBranchStmts(a) + Skips(n), []);
    }
  }

  /** Context, body cap, rate limit and guards, as every handler but a fragment opens. */
  function FrontMilestones(w: World, capped: bool, rateLimit: bool, guards: seq<string>): seq<Milestone> {
    (if capped then [BodyCap] else []) + RateMilestones(w, rateLimit) + GuardMilestones(guards)
  }

  lemma GateFront(w: World, context: seq<Stmt>, capped: bool, rateLimit: bool, guards: seq<string>)
    requires Gate(w, context, [])
    ensures var cap := if capped then [Note(BodyCap)] else [];
            Gate(w, context + cap + RateLimitStmts(rateLimit) + GuardStmts(guards), FrontMilestones(w, capped, rateLimit, guards))
  {
    hide Gate, Ending;
    GateNil(w);
    GateDo(w, Some(BodyCap));
    var cap := if capped then [Note(BodyCap)] else [];
    var capped' := if capped then [BodyCap] else [];
    GateSeq(w, context, [], cap, capped');
    assert [] + capped' == capped';
    GateRateLimit(w, rateLimit);
    GateSeq(w, context + cap, capped', RateLimitStmts(rateLimit), RateMilestones(w, rateLimit));
    GateGuards(w, guards);
    GateSeq(w, context + cap + RateLimitStmts(rateLimit), capped' + RateMilestones(w, rateLimit), GuardStmts(guards), GuardMilestones(guards));
  }

  /** Every milestone of an action, in the only order a run can pass them. */
  function ActionMilestones(w: World, a: Action, csrf: bool, rateLimit: bool): seq<Milestone> {
    if a.guards == [] then []
    else
      var front := FrontMilestones(w, true, rateLimit, a.guards);
      if !a.status.NoBinding? && !a.status.Bound? then front
      else front + [Parsing, Parsed] + CsrfMilestones(w, csrf) + DecodeMilestones(a) + ValidationMilestones(a) + ResultMilestones(a)
  }

  function ActionFront(a: Action, rateLimit: bool): seq<Stmt> {
    ContextStmts(a.errorPage) + [Note(BodyCap)] + RateLimitStmts(rateLimit) + GuardStmts(a.guards)
  }

  function ActionInputMilestones(w: World, a: Action, csrf: bool, rateLimit: bool): seq<Milestone> {
    FrontMilestones(w, true, rateLimit, a.guards) + [Parsing, Parsed] + CsrfMilestones(w, csrf) + DecodeMilestones(a)
  }

  lemma GateActionFront(w: World, a: Action, rateLimit: bool)
    ensures Gate(w, ActionFront(a, rateLimit), FrontMilestones(w, true, rateLimit, a.guards))
  {
    hide Gate, Ending;
    GateSkips(w, if a.errorPage != "" then 3 else 2);
    GateFront(w, ContextStmts(a.errorPage), true, rateLimit, a.guards);
  }

  /** Everything an action does before it validates its input. */
  lemma GateActionInput(w: World, a: Action, csrf: bool, rateLimit: bool)
    ensures Gate(w, ActionFront(a, rateLimit) + ParseFormStmts(csrf, a.uploads) + ValueStmts(a) + DecodeStmts(a), ActionInputMilestones(w, a, csrf, rateLimit))
  {
    hide Gate, Ending, ParseFormStmts, ValueStmts, DecodeStmts, ActionFront;
    var front, fm := ActionFront(a, rateLimit), FrontMilestones(w, true, rateLimit, a.guards);
    var parse, pm := ParseFormStmts(csrf, a.uploads), [Parsing, Parsed] + CsrfMilestones(w, csrf);
    GateActionFront(w, a, rateLimit);
    GateParseForm(w, csrf, a.uploads);
    GateSeq(w, front, fm, parse, pm);
    GateValues(w, a);
    GateSeq(w, front + parse, fm + pm, ValueStmts(a), []);
    assert fm + pm + [] == fm + pm;
    GateDecoding(w, a);
    GateSeq(w, front + parse + ValueStmts(a), fm + pm, DecodeStmts(a), DecodeMilestones(a));
    assert fm + pm == fm + [Parsing, Parsed] + CsrfMilestones(w, csrf);
  }

  /**
   Actions: every run writes exactly one response and returns true, and its milestones are a
   prefix of body cap, rate limit, guards, parse, CSRF, decode, application function.  An action
   without a guard is answered before anything else happens.
   */
  lemma ActionSafe(w: World, a: Action, csrf: bool, rateLimit: bool)
    ensures Ending(w, ActionCaseStmts(a, csrf, rateLimit), ActionMilestones(w, a, csrf, rateLimit))
  {
    hide Gate, Ending;
    EndingRespond(w);
    if a.guards != [] {
      var front, fm := ActionFront(a, rateLimit), FrontMilestones(w, true, rateLimit, a.guards);
      GateActionFront(w, a, rateLimit);
      if !a.status.NoBinding? && !a.status.Bound? {
        EndingAfter(w, front, fm);
      } else {
        var before, bm := front + ParseFormStmts(csrf, a.uploads) + ValueStmts(a) + DecodeStmts(a), ActionInputMilestones(w, a, csrf, rateLimit);
        GateActionInput(w, a, csrf, rateLimit);
        GateValidation(w, a);
        GateSeq(w, before, bm, ValidationIf(a), ValidationMilestones(a));
        EndingActionResult(w, a);
        EndingSeq(w, before + ValidationIf(a), bm + ValidationMilestones(a), ActionResultStmts(a), ResultMilestones(a));
      }
    }
  }

  // -------------------------------------------------------------------- APIs

  datatype ApiEndpoint = ApiEndpoint(guards: seq<string>, errorPage: string, httpMethod: string, status: Status, signature: Signature) {
    predicate TypedInput() {
      signature.ApiInput? || signature.ApiInputPtr?
    }
  }

  function Upper(s: string): string {
    if s == "" then "" else [if 'a' <= s[0] <= 'z' then s[0] - 'a' + 'A' else s[0]] + Upper(s[1..])
  }

  predicate MethodRequiresCsrf(httpMethod: string) {
    RequiresCSRF(Upper(TrimSpace(httpMethod)))
  }

  /** apiInputDecodeStmts: query-string input answers at once, JSON input tells apart oversized bodies. */
  function ApiDecodeStmts(a: ApiEndpoint): seq<Stmt> {
    if !a.TypedInput() then []
    else if a.httpMethod == "GET" || a.httpMethod == "HEAD" then [If(Fails(Some(Decoding), None), RESPOND, [])]
    else [If(Fails(Some(Decoding), None), [SKIP] + [If(Test, RESPOND, [])] + RESPOND, [])]
  }

  function ApiResultStmts(a: ApiEndpoint): seq<Stmt> {
    [Note(Handler)] + [If(Test, RESPOND, [])]
    + (if a.signature.Api? then [] else Skips(2) + [If(Test, RESPOND, [])])
    + RESPOND
  }

  /** apiCaseStmts, with the CSRF flag apiFuncDecl passes for the endpoint's method. */
  function ApiCaseStmts(a: ApiEndpoint, csrf: bool, rateLimit: bool): seq<Stmt> {
    if a.guards == [] then RESPOND
    else
      var front := ContextStmts(a.errorPage) + [Note(BodyCap)] + RateLimitStmts(rateLimit) + GuardStmts(a.guards);
      if !a.status.Bound? then front + RESPOND
      else front + CsrfStmts(csrf && MethodRequiresCsrf(a.httpMethod)) + ApiDecodeStmts(a) + ApiResultStmts(a)
  }

  function ApiMilestones(w: World, a: ApiEndpoint, csrf: bool, rateLimit: bool): seq<Milestone> {
    if a.guards == [] then []
    else if !a.status.Bound? then FrontMilestones(w, true, rateLimit, a.guards)
    else FrontMilestones(w, true, rateLimit, a.guards)
         + CsrfMilestones(w, csrf && MethodRequiresCsrf(a.httpMethod))
         + (if a.TypedInput() then [Decoding] else []) + [Handler]
  }

  lemma GateApiDecode(w: World, a: ApiEndpoint)
    ensures Gate(w, ApiDecodeStmts(a), if a.TypedInput() then [Decoding] else [])
  {
    hide Gate, Ending;
    GateNil(w);
    EndingRespond(w);
    GateTest(w, RESPOND);
    GateDo(w, None);
    GateQuiet(w, [SKIP], [If(Test, RESPOND, [])]);
    EndingAfter(w, [SKIP] + [If(Test, RESPOND, [])], []);
    GateFails(w, Some(Decoding), None, RESPOND, []);
    GateFails(w, Some(Decoding), None, [SKIP] + [If(Test, RESPOND, [])] + RESPOND, []);
    assert Opt(Some(Decoding)) + Opt(None) == [Decoding];
  }

  /** The application function, the answer to its error, and whatever quiet steps follow before the response. */
  lemma EndingHandler(w: World, tail: seq<Stmt>)
    requires Gate(w, tail, [])
    ensures Ending(w, [Note(Handler)] + [If(Test, RESPOND, [])] + tail + RESPOND, [Handler])
  {
    hide Gate, Ending;
    EndingRespond(w);
    GateTest(w, RESPOND);
    GateDo(w, Some(Handler));
    assert [Handler] + [] == [Handler];
    GateSeq(w, [Note(Handler)], [Handler], [If(Test, RESPOND, [])], []);
    GateSeq(w, [Note(Handler)] + [If(Test, RESPOND, [])], [Handler], tail, []);
    EndingAfter(w, [Note(Handler)] + [If(Test, RESPOND, [])] + tail, [Handler]);
  }

  /** APIs: as actions, with CSRF before decoding for state-changing methods. */
  lemma ApiSafe(w: World, a: ApiEndpoint, csrf: bool, rateLimit: bool)
    ensures Ending(w, ApiCaseStmts(a, csrf, rateLimit), ApiMilestones(w, a, csrf, rateLimit))
  {
    hide Gate, Ending;
    EndingRespond(w);
    if a.guards != [] {
      var context := ContextStmts(a.errorPage);
      GateSkips(w, if a.errorPage != "" then 3 else 2);
      GateFront(w, context, true, rateLimit, a.guards);
      var front := context + [Note(BodyCap)] + RateLimitStmts(rateLimit) + GuardStmts(a.guards);
      var fm := FrontMilestones(w, true, rateLimit, a.guards);
      if !a.status.Bound? {
        EndingAfter(w, front, fm);
      } else {
        var check := csrf && MethodRequiresCsrf(a.httpMethod);
        var dm := if a.TypedInput() then [Decoding] else [];
        GateCsrf(w, check);
        GateSeq(w, front, fm, CsrfStmts(check), CsrfMilestones(w, check));
        GateApiDecode(w, a);
        GateSeq(w, front + CsrfStmts(check), fm + CsrfMilestones(w, check), ApiDecodeStmts(a), dm);
        GateNil(w);
        GateSkips(w, 2);
        GateTest(w, RESPOND);
        GateQuiet(w, Skips(2), [If(Test, RESPOND, [])]);
        EndingHandler(w, if a.signature.Api? then [] else Skips(2) + [If(Test, RESPOND, [])]);
        EndingSeq(w, front + CsrfStmts(check) + ApiDecodeStmts(a), fm + CsrfMilestones(w, check) + dm, ApiResultStmts(a), [Handler]);
      }
    }
  }

  // --------------------------------------------------------------- fragments

  datatype Fragment = Fragment(guards: seq<string>, dynamic: bool, typedParams: nat, status: Status)

  const PARAM_STMTS := [SKIP] + [If(Test, RESPOND, [])] + [If(Test, RESPOND, [])] + [SKIP]

  function ParamStmts(n: nat): seq<Stmt> {
    if n == 0 then [] else ParamStmts(n - 1) + PARAM_STMTS
  }

  /** typedRouteParamStmts: every parameter is decoded, a bad or missing one is answered. */
  function TypedParamStmts(n: nat): seq<Stmt> {
    if n == 0 then [] else [SKIP] + ParamStmts(n) + [SKIP]
  }

  function FragmentContextStmts(f: Fragment): seq<Stmt> {
    [SKIP] + (if f.dynamic then [SKIP] + TypedParamStmts(f.typedParams) else []) + [SKIP]
  }

  /** fragmentCaseStmts and fragmentDynamicCaseStmts. */
  function FragmentCaseStmts(f: Fragment, rateLimit: bool): seq<Stmt> {
    if f.guards == [] then RESPOND
    else
      var front := FragmentContextStmts(f) + [] + RateLimitStmts(rateLimit) + GuardStmts(f.guards);
      if f.status.Unsupported? then front + RESPOND
      else if f.status.Bound? then front + ([Note(Handler)] + [If(Test, RESPOND, [])] + [] + RESPOND)
      else front + [SKIP] + RESPOND
  }

  function FragmentMilestones(w: World, f: Fragment, rateLimit: bool): seq<Milestone> {
    if f.guards == [] then []
    else FrontMilestones(w, false, rateLimit, f.guards) + if f.status.Bound? then [Handler] else []
  }

  lemma {:induction false} GateParams(w: World, n: nat)
    ensures Gate(w, ParamStmts(n), [])
  {
    hide Gate, Ending;
    GateNil(w);
    if n > 0 {
      GateParams(w, n - 1);
      EndingRespond(w);
      GateTest(w, RESPOND);
      GateDo(w, None);
      var test := [If(Test, RESPOND, [])];
      GateQuiet(w, [SKIP], test);
      GateQuiet(w, [SKIP] + test, test);
      GateQuiet(w, [SKIP] + test + test, [SKIP]);
      GateQuiet(w, ParamStmts(n - 1), PARAM_STMTS);
    }
  }

  lemma GateFragmentContext(w: World, f: Fragment)
    ensures Gate(w, FragmentContextStmts(f), [])
  {
    hide Gate, Ending;
    GateNil(w);
    GateDo(w, None);
    var n := f.typedParams;
    GateParams(w, n);
    GateQuiet(w, [SKIP], ParamStmts(n));
    GateQuiet(w, [SKIP] + ParamStmts(n), [SKIP]);
    GateQuiet(w, [SKIP], TypedParamStmts(n));
    var params := if f.dynamic then [SKIP] + TypedParamStmts(n) else [];
    GateQuiet(w, [SKIP], params);
    GateQuiet(w, [SKIP] + params, [SKIP]);
  }

  /** Fragments, on exact and on parameterised routes. */
  lemma FragmentSafe(w: World, f: Fragment, rateLimit: bool)
    ensures Ending(w, FragmentCaseStmts(f, rateLimit), FragmentMilestones(w, f, rateLimit))
  {
    hide Gate, Ending;
    EndingRespond(w);
    if f.guards != [] {
      GateFragmentContext(w, f);
      GateFront(w, FragmentContextStmts(f), false, rateLimit, f.guards);
      var front := FragmentContextStmts(f) + [] + RateLimitStmts(rateLimit) + GuardStmts(f.guards);
      var fm := FrontMilestones(w, false, rateLimit, f.guards);
      assert fm + [] == fm;
      if f.status.Unsupported? {
        EndingAfter(w, front, fm);
      } else if f.status.Bound? {
        GateNil(w);
        EndingHandler(w, []);
        EndingSeq(w, front, fm, [Note(Handler)] + [If(Test, RESPOND, [])] + [] + RESPOND, [Handler]);
      } else {
        GateDo(w, None);
        GateSeq(w, front, fm, [SKIP], []);
        EndingAfter(w, front + [SKIP], fm);
      }
    }
  }

  // ---------------------------------------------------- commands and queries

  datatype Kind = Command | Query | OtherKind

  datatype Contract = Contract(kind: Kind, guards: seq<string>, inputs: bool)

  /** contractInputStmts. */
  function ContractInputStmts(c: Contract, csrf: bool): seq<Stmt> {
    (if c.kind.Command? then ParseFormStmts(csrf, false) else [])
    + [SKIP] + (if c.inputs && !c.kind.OtherKind? then DecoderStmts() else [])
  }

  /** commandInvalidationHeaderStmts, with the patch envelope as an early response. */
  function InvalidationHeaderStmts(queryInvalidations: bool, commandPatches: bool): seq<Stmt> {
    if !queryInvalidations then []
    else [SKIP] + [If(Test, Skips(2) + [If(Test, [SKIP], [])] + (if commandPatches then PATCH_ENVELOPE else []), [])]
  }

  const PATCH_ENVELOPE := [If(Test, [SKIP] + [If(Test, Skips(2) + [If(Test, RESPOND, [])] + RESPOND, [])], [])]

  /** Executing the contract; a command also dispatches its events. */
  function ContractExecStmts(c: Contract, queryInvalidations: bool, commandPatches: bool): seq<Stmt> {
    [Note(Handler)] + [If(Test, RESPOND, [])]
    + (if c.kind.Command?
       then [If(Fails(None, Some(Dispatched)), RESPOND, [])] + InvalidationHeaderStmts(queryInvalidations, commandPatches)
       else [])
    + ([SKIP] + [If(Test, RESPOND, [])])
    + RESPOND
  }

  /** executableContractHandlerStmts. */
  function ContractStmts(c: Contract, csrf: bool, rateLimit: bool, queryInvalidations: bool, commandPatches: bool): seq<Stmt> {
    if c.guards == [] then RESPOND
    else Skips(2) + (if c.kind.Command? then [Note(BodyCap)] else []) + RateLimitStmts(rateLimit) + GuardStmts(c.guards)
         + ContractInputStmts(c, csrf) + ContractExecStmts(c, queryInvalidations, commandPatches)
  }

  function ContractInputMilestones(w: World, c: Contract, csrf: bool): seq<Milestone> {
    (if c.kind.Command? then [Parsing, Parsed] + CsrfMilestones(w, csrf) else [])
    + if c.inputs && !c.kind.OtherKind? then [Decoding] else []
  }

  function ContractMilestones(w: World, c: Contract, csrf: bool, rateLimit: bool): seq<Milestone> {
    if c.guards == [] then []
    else FrontMilestones(w, c.kind.Command?, rateLimit, c.guards) + ContractInputMilestones(w, c, csrf)
         + [Handler] + if c.kind.Command? then [Dispatched] else []
  }

  lemma GateContractInput(w: World, c: Contract, csrf: bool)
    ensures Gate(w, ContractInputStmts(c, csrf), ContractInputMilestones(w, c, csrf))
  {
    hide Gate, Ending;
    GateNil(w);
    GateDo(w, None);
    GateDecode(w, 0);
    GateParseForm(w, csrf, false);
    var parse := if c.kind.Command? then ParseFormStmts(csrf, false) else [];
    var pm := if c.kind.Command? then [Parsing, Parsed] + CsrfMilestones(w, csrf) else [];
    var decode := if c.inputs && !c.kind.OtherKind? then DecoderStmts() else [];
    var dm := if c.inputs && !c.kind.OtherKind? then [Decoding] else [];
    GateSeq(w, parse, pm, [SKIP], []);
    assert pm + [] == pm;
    GateSeq(w, parse + [SKIP], pm, decode, dm);
  }

  lemma GateInvalidationHeader(w: World, queryInvalidations: bool, commandPatches: bool)
    ensures Gate(w, InvalidationHeaderStmts(queryInvalidations, commandPatches), [])
  {
    hide Gate, Ending;
    GateNil(w);
    GateDo(w, None);
    GateSkips(w, 2);
    EndingRespond(w);
    GateTest(w, RESPOND);
    GateQuiet(w, Skips(2), [If(Test, RESPOND, [])]);
    EndingAfter(w, Skips(2) + [If(Test, RESPOND, [])], []);
    var patched := Skips(2) + [If(Test, RESPOND, [])] + RESPOND;
    GateTest(w, patched);
    GateQuiet(w, [SKIP], [If(Test, patched, [])]);
    GateChoice(w, [SKIP] + [If(Test, patched, [])], []);
    GateBenignIf(w);
    GateQuiet(w, Skips(2), [If(Test, [SKIP], [])]);
    var envelope := if commandPatches then PATCH_ENVELOPE else [];
    GateQuiet(w, Skips(2) + [If(Test, [SKIP], [])], envelope);
    GateChoice(w, Skips(2) + [If(Test, [SKIP], [])] + envelope, []);
    GateQuiet(w, [SKIP], [If(Test, Skips(2) + [If(Test, [SKIP], [])] + envelope, [])]);
  }

  lemma EndingContractExec(w: World, c: Contract, queryInvalidations: bool, commandPatches: bool)
    ensures Ending(w, ContractExecStmts(c, queryInvalidations, commandPatches), [Handler] + if c.kind.Command? then [Dispatched] else [])
  {
    hide Gate, Ending;
    EndingRespond(w);
    GateNil(w);
    GateDo(w, None);
    GateDo(w, Some(Handler));
    GateTest(w, RESPOND);
    var test := [If(Test, RESPOND, [])];
    GateSeq(w, [Note(Handler)], [Handler], test, []);
    assert [Handler] + [] == [Handler];
    var dispatch := [If(Fails(None, Some(Dispatched)), RESPOND, [])];
    GateFails(w, None, Some(Dispatched), RESPOND, []);
    assert Opt(None) + Opt(Some(Dispatched)) == [Dispatched];
    GateInvalidationHeader(w, queryInvalidations, commandPatches);
    var header := InvalidationHeaderStmts(queryInvalidations, commandPatches);
    GateSeq(w, dispatch, [Dispatched], header, []);
    assert [Dispatched] + [] == [Dispatched];
    var middle := if c.kind.Command? then dispatch + header else [];
    var mm := if c.kind.Command? then [Dispatched] else [];
    GateSeq(w, [Note(Handler)] + test, [Handler], middle, mm);
    GateQuiet(w, [SKIP], test);
    GateSeq(w, [Note(Handler)] + test + middle, [Handler] + mm, [SKIP] + test, []);
    assert [Handler] + mm + [] == [Handler] + mm;
    EndingAfter(w, [Note(Handler)] + test + middle + ([SKIP] + test), [Handler] + mm);
  }

  /** Commands and queries: commands pass body cap, parse and CSRF before execution, and dispatch events after it. */
  lemma ContractSafe(w: World, c: Contract, csrf: bool, rateLimit: bool, queryInvalidations: bool, commandPatches: bool)
    ensures Ending(w, ContractStmts(c, csrf, rateLimit, queryInvalidations, commandPatches), ContractMilestones(w, c, csrf, rateLimit))
  {
    hide Gate, Ending;
    EndingRespond(w);
    if c.guards != [] {
      GateSkips(w, 2);
      GateFront(w, Skips(2), c.kind.Command?, rateLimit, c.guards);
      var front := Skips(2) + (if c.kind.Command? then [Note(BodyCap)] else []) + RateLimitStmts(rateLimit) + GuardStmts(c.guards);
      var fm := FrontMilestones(w, c.kind.Command?, rateLimit, c.guards);
      GateContractInput(w, c, csrf);
      var im := ContractInputMilestones(w, c, csrf);
      GateSeq(w, front, fm, ContractInputStmts(c, csrf), im);
      EndingContractExec(w, c, queryInvalidations, commandPatches);
      var em := [Handler] + if c.kind.Command? then [Dispatched] else [];
      EndingSeq(w, front + ContractInputStmts(c, csrf), fm + im, ContractExecStmts(c, queryInvalidations, commandPatches), em);
      assert fm + im + em == ContractMilestones(w, c, csrf, rateLimit);
    }
  }

  // ---------------------------------------------------------- what follows

  /** The run of a handler on a fresh response. */
  function Run(w: World, stmts: seq<Stmt>): (State, Outcome) {
    Exec(false, w, stmts, State(0, [], []))
  }

  /** One response, last. */
  ghost predicate OneResponse(trace: seq<Milestone>) {
    trace != [] && trace[|trace| - 1] == Write && Write !in trace[..|trace| - 1]
  }

  /**
   From an ending to the guarantee: the application code is reached only after every gate before
   it, in order, and is reached when nothing is in the way; exactly one response is written, last;
   and the request is reported as handled.
   */
  lemma HandlerOnlyAfterGates(w: World, stmts: seq<Stmt>, gates: seq<Milestone>, rest: seq<Milestone>)
    requires Ending(w, stmts, gates + [Handler] + rest)
    requires Handler !in gates && Write !in gates && Write !in rest
    ensures var (t, out) := Run(w, stmts);
            && out == Returned(true) && OneResponse(t.trace)
            && (Handler in t.trace ==> gates + [Handler] <= t.trace)
            && (Open(w, gates + [Handler] + rest) ==> t.trace == gates + [Handler] + rest + [Write])
  {
    hide Exec, Open, Stopped, OneResponse;
    var ms := gates + [Handler] + rest;
    var (t, out) := Run(w, stmts);
    assert Answered(w, [], Run(w, stmts), ms);
    StoppedShape(gates, rest, t.trace);
    assert [] + ms + [Write] == ms + [Write];
  }

  lemma StoppedShape(gates: seq<Milestone>, rest: seq<Milestone>, trace: seq<Milestone>)
    requires Handler !in gates && Write !in gates && Write !in rest && Stopped([], trace, gates + [Handler] + rest)
    ensures OneResponse(trace) && (Handler in trace ==> gates + [Handler] <= trace)
  {
    var ms := gates + [Handler] + rest;
    var k :| 0 <= k <= |ms| && trace == [] + ms[..k] + [Write];
    TraceShape(gates, rest, k, trace);
  }

  /** A trace that stops after k milestones. */
  lemma TraceShape(gates: seq<Milestone>, rest: seq<Milestone>, k: nat, trace: seq<Milestone>)
    requires Handler !in gates && Write !in gates && Write !in rest
    requires k <= |gates + [Handler] + rest| && trace == [] + (gates + [Handler] + rest)[..k] + [Write]
    ensures OneResponse(trace)
    ensures Handler in trace ==> gates + [Handler] <= trace
  {
    var ms := gates + [Handler] + rest;
    assert trace[..|trace| - 1] == ms[..k];
    assert forall m | m in ms[..k] :: m in ms;
    if k <= |gates| {
      assert ms[..k] == gates[..k];
      assert forall m | m in gates[..k] :: m in gates;
    } else {
      assert ms[..|gates| + 1] == gates + [Handler];
    }
  }

  /** The guarantee for one kind of endpoint, from its milestones. */
  lemma Guaranteed(w: World, stmts: seq<Stmt>, ms: seq<Milestone>, gates: seq<Milestone>, rest: seq<Milestone>, reached: bool)
    requires Ending(w, stmts, ms)
    requires if reached then ms == gates + [Handler] + rest && Handler !in gates && Write !in gates && Write !in rest else Handler !in ms && Write !in ms
    ensures var (t, out) := Run(w, stmts);
            && out == Returned(true) && OneResponse(t.trace)
            && (Handler in t.trace ==> reached && gates + [Handler] <= t.trace)
            && (reached && Open(w, ms) ==> Handler in t.trace)
  {
    hide Ending, Open;
    if reached {
      HandlerOnlyAfterGates(w, stmts, gates, rest);
      assert (ms + [Write])[|gates|] == Handler;
    } else {
      HandlerNever(w, stmts, ms);
    }
  }

  /** Milestones without application code: it is never reached, and still exactly one response is written. */
  lemma HandlerNever(w: World, stmts: seq<Stmt>, ms: seq<Milestone>)
    requires Ending(w, stmts, ms) && Handler !in ms && Write !in ms
    ensures var (t, out) := Run(w, stmts); out == Returned(true) && Handler !in t.trace && OneResponse(t.trace)
  {
    hide Exec, Open;
    var (t, out) := Run(w, stmts);
    assert Answered(w, [], Run(w, stmts), ms);
    var k :| 0 <= k <= |ms| && t.trace == [] + ms[..k] + [Write];
    assert t.trace[..|t.trace| - 1] == ms[..k];
  }

  /** A front whose guards cannot admit answers every request. */
  lemma EndingFront(w: World, context: seq<Stmt>, capped: bool, rateLimit: bool, guards: seq<string>)
    requires Gate(w, context, []) && !Admitted(w, guards)
    ensures var cap := if capped then [Note(BodyCap)] else [];
            Ending(w, context + cap + RateLimitStmts(rateLimit) + GuardStmts(guards), FrontMilestones(w, capped, rateLimit, guards))
  {
    hide Gate, Ending;
    GateNil(w);
    GateDo(w, Some(BodyCap));
    var cap := if capped then [Note(BodyCap)] else [];
    var capped' := if capped then [BodyCap] else [];
    GateSeq(w, context, [], cap, capped');
    assert [] + capped' == capped';
    GateRateLimit(w, rateLimit);
    GateSeq(w, context + cap, capped', RateLimitStmts(rateLimit), RateMilestones(w, rateLimit));
    EndingGuards(w, guards);
    EndingSeq(w, context + cap + RateLimitStmts(rateLimit), capped' + RateMilestones(w, rateLimit), GuardStmts(guards), GuardMilestones(guards));
  }

  /** With such a front, nothing behind it runs. */
  lemma NeverBehind(w: World, front: seq<Stmt>, ms: seq<Milestone>, all: seq<Stmt>)
    requires Ending(w, front, ms) && Handler !in ms && Write !in ms && front <= all
    ensures Handler !in Run(w, all).0.trace
  {
    hide Ending, Run;
    var rest := all[|front|..];
    assert all == front + rest;
    EndingThen(w, front, ms, rest);
    HandlerNever(w, all, ms);
  }

  lemma ActionDenied(w: World, a: Action, csrf: bool, rateLimit: bool)
    requires a.guards != [] && !Admitted(w, a.guards)
    ensures Handler !in Run(w, ActionCaseStmts(a, csrf, rateLimit)).0.trace
  {
    hide Gate, Ending, Run, ParseFormStmts, ValueStmts, DecodeStmts, ValidationStmts, ActionResultStmts;
    GateSkips(w, if a.errorPage != "" then 3 else 2);
    EndingFront(w, ContextStmts(a.errorPage), true, rateLimit, a.guards);
    FrontClean(w, true, rateLimit, a.guards);
    NeverBehind(w, ActionFront(a, rateLimit), FrontMilestones(w, true, rateLimit, a.guards), ActionCaseStmts(a, csrf, rateLimit));
  }

  /** An invalid submission never reaches the application function. */
  lemma ActionInvalid(w: World, a: Action, csrf: bool, rateLimit: bool)
    requires a.guards != [] && a.status.Bound? && a.Validates() && !Valid(w.submission, a.requiredFields, a.rules)
    ensures Handler !in Run(w, ActionCaseStmts(a, csrf, rateLimit)).0.trace
  {
    hide Gate, Ending, Run, Valid, ActionFront, ParseFormStmts, ValueStmts, DecodeStmts, ValidationStmts;
    var before := ActionFront(a, rateLimit) + ParseFormStmts(csrf, a.uploads) + ValueStmts(a) + DecodeStmts(a);
    var ms := ActionInputMilestones(w, a, csrf, rateLimit);
    GateActionInput(w, a, csrf, rateLimit);
    EndingInvalid(w, a);
    EndingSeq(w, before, ms, ValidationIf(a), ValidationMilestones(a));
    FrontClean(w, true, rateLimit, a.guards);
    NeverBehind(w, before + ValidationIf(a), ms + ValidationMilestones(a), ActionCaseStmts(a, csrf, rateLimit));
  }

  lemma ApiDenied(w: World, a: ApiEndpoint, csrf: bool, rateLimit: bool)
    requires a.guards != [] && !Admitted(w, a.guards)
    ensures Handler !in Run(w, ApiCaseStmts(a, csrf, rateLimit)).0.trace
  {
    hide Gate, Ending, Run;
    GateSkips(w, if a.errorPage != "" then 3 else 2);
    EndingFront(w, ContextStmts(a.errorPage), true, rateLimit, a.guards);
    FrontClean(w, true, rateLimit, a.guards);
    var front := ContextStmts(a.errorPage) + [Note(BodyCap)] + RateLimitStmts(rateLimit) + GuardStmts(a.guards);
    NeverBehind(w, front, FrontMilestones(w, true, rateLimit, a.guards), ApiCaseStmts(a, csrf, rateLimit));
  }

  lemma FragmentDenied(w: World, f: Fragment, rateLimit: bool)
    requires f.guards != [] && !Admitted(w, f.guards)
    ensures Handler !in Run(w, FragmentCaseStmts(f, rateLimit)).0.trace
  {
    hide Gate, Ending, Run;
    GateFragmentContext(w, f);
    EndingFront(w, FragmentContextStmts(f), false, rateLimit, f.guards);
    FrontClean(w, false, rateLimit, f.guards);
    var front := FragmentContextStmts(f) + [] + RateLimitStmts(rateLimit) + GuardStmts(f.guards);
    NeverBehind(w, front, FrontMilestones(w, false, rateLimit, f.guards), FragmentCaseStmts(f, rateLimit));
  }

  lemma ContractDenied(w: World, c: Contract, csrf: bool, rateLimit: bool, queryInvalidations: bool, commandPatches: bool)
    requires c.guards != [] && !Admitted(w, c.guards)
    ensures Handler !in Run(w, ContractStmts(c, csrf, rateLimit, queryInvalidations, commandPatches)).0.trace
  {
    hide Gate, Ending, Run;
    GateSkips(w, 2);
    EndingFront(w, Skips(2), c.kind.Command?, rateLimit, c.guards);
    FrontClean(w, c.kind.Command?, rateLimit, c.guards);
    var front := Skips(2) + (if c.kind.Command? then [Note(BodyCap)] else []) + RateLimitStmts(rateLimit) + GuardStmts(c.guards);
    NeverBehind(w, front, FrontMilestones(w, c.kind.Command?, rateLimit, c.guards),
                ContractStmts(c, csrf, rateLimit, queryInvalidations, commandPatches));
  }

  lemma FrontClean(w: World, capped: bool, rateLimit: bool, guards: seq<string>)
    ensures Handler !in FrontMilestones(w, capped, rateLimit, guards) && Write !in FrontMilestones(w, capped, rateLimit, guards)
  {
  }

  // ------------------------------------------------------------ what a reader may rely on

  function Only(condition: bool, m: Milestone): seq<Milestone> {
    if condition then [m] else []
  }

  /** The milestone was passed before the application code ran. */
  ghost predicate Before(trace: seq<Milestone>, m: Milestone) {
    exists i :: 0 <= i < |trace| && trace[i] == m && Handler !in trace[..i + 1]
  }

  /** Every guard but the public marker lets the request through, and passed before the application code. */
  ghost predicate AllGuarded(w: World, guards: seq<string>, trace: seq<Milestone>) {
    forall g | g in guards && TrimSpace(g) != "public" :: Lets(w.registry, g) && Before(trace, GuardOk(g))
  }

  /** Nothing is in the way of an endpoint with these guards: no call fails and every guard lets the request through. */
  ghost predicate Unhindered(w: World, guards: seq<string>) {
    && (forall n :: !w.decide(n))
    && (forall g | g in guards && TrimSpace(g) != "public" :: Lets(w.registry, g))
  }

  lemma GuardBefore(names: seq<string>, early: seq<Milestone>, late: seq<Milestone>, trace: seq<Milestone>, k: nat)
    requires k < |names| && Handler !in early && early + GuardOks(names) + late <= trace
    ensures Before(trace, GuardOk(names[k]))
  {
    var i := |early| + k;
    assert trace[i] == (early + GuardOks(names) + late)[i] == GuardOks(names)[k];
    assert trace[..i + 1] == early + GuardOks(names)[..k + 1];
  }

  lemma GuardsHold(w: World, guards: seq<string>, early: seq<Milestone>, late: seq<Milestone>, trace: seq<Milestone>)
    requires Admitted(w, guards) && Handler !in early && early + GuardMilestones(guards) + late <= trace
    ensures AllGuarded(w, guards, trace)
  {
    hide Before, Lets, Admits, RuntimeGuardNames, RuntimeNames;
    var names := RuntimeGuardNames(guards);
    RuntimeGuardNamesAre(guards);
    forall g | g in guards && TrimSpace(g) != "public"
      ensures Lets(w.registry, g) && Before(trace, GuardOk(g))
    {
      RuntimeNamesHold(guards, names, g);
      var k :| 0 <= k < |names| && names[k] == g;
      AdmitsIff(w.registry, names[k]);
      GuardBefore(names, early, late, trace, k);
    }
  }

  lemma GuardsOpenIff(w: World, guards: seq<string>)
    requires Unhindered(w, guards)
    ensures Open(w, GuardMilestones(guards))
  {
    var names := RuntimeGuardNames(guards);
    RuntimeGuardNamesAre(guards);
    forall m | m in GuardMilestones(guards)
      ensures Clears(w, m)
    {
      var k :| 0 <= k < |names| && m == GuardOk(names[k]);
      RuntimeNamesHold(guards, names, names[k]);
      AdmitsIff(w.registry, names[k]);
    }
  }

  /** Milestones that are neither guards nor validation are never in the way. */
  lemma OpenAround(w: World, guards: seq<string>, early: seq<Milestone>, late: seq<Milestone>)
    requires Unhindered(w, guards)
    requires forall m | m in early :: !m.GuardOk? && !m.Validated?
    requires forall m | m in late :: !m.GuardOk? && (m.Validated? ==> Clears(w, m))
    ensures Open(w, early + GuardMilestones(guards) + late)
  {
    GuardsOpenIff(w, guards);
    assert Open(w, early) && Open(w, late);
    OpenParts(w, early, GuardMilestones(guards));
    OpenParts(w, early + GuardMilestones(guards), late);
  }

  /** Decoding steps of an action with a function. */
  function BoundDecoding(a: Action): seq<Milestone> {
    if a.signature.ActionForm? || a.signature.ActionFormPtr? then [Decoding, Decoding]
    else if a.signature.Action0? && !a.uploads then []
    else [Decoding]
  }

  /**
   The guarantee for actions, spelled out: every run answers once and reports success.  The bound
   application function runs only for a guarded, bound action, after every guard but the public
   marker let the request through, on a valid submission when the action validates its input, and
   behind body cap, rate limit, guards in declared order, parse, CSRF check, decoding and
   validation, in that order.  And it does run when nothing is in the way.
   */
  lemma ActionGuarantee(w: World, a: Action, csrf: bool, rateLimit: bool)
    ensures var (t, out) := Run(w, ActionCaseStmts(a, csrf, rateLimit));
            && out == Returned(true) && OneResponse(t.trace)
            && (Handler in t.trace ==>
                && a.guards != [] && a.status.Bound? && AllGuarded(w, a.guards, t.trace)
                && (a.Validates() ==> Valid(w.submission, a.requiredFields, a.rules))
                && exists names :: RuntimeNames(a.guards, names)
                     && [BodyCap] + Only(rateLimit && w.limiterRegistered, RateOk) + GuardOks(names) + [Parsing, Parsed]
                        + Only(csrf && w.csrfRegistered, CsrfOk) + BoundDecoding(a)
                        + Only(a.Validates(), Validated(a.requiredFields, a.rules)) + [Handler] <= t.trace)
            && ((a.guards != [] && a.status.Bound? && Unhindered(w, a.guards)
                 && (a.Validates() ==> Valid(w.submission, a.requiredFields, a.rules)))
                ==> Handler in t.trace)
  {
    hide Ending, Run, Open, Valid, Unhindered, AllGuarded, RuntimeNames, Admitted, GuardOks, ActionCaseStmts, ActionMilestones, ActionGates;
    var stmts, gates := ActionCaseStmts(a, csrf, rateLimit), ActionGates(w, a, csrf, rateLimit);
    var reached := a.guards != [] && a.status.Bound?;
    ActionSafe(w, a, csrf, rateLimit);
    ActionShape(w, a, csrf, rateLimit);
    assert gates + [Handler] + [] == gates + [Handler];
    Guaranteed(w, stmts, ActionMilestones(w, a, csrf, rateLimit), gates, [], reached);
    RuntimeGuardNamesAre(a.guards);
    if reached {
      ActionOrder(w, a, csrf, rateLimit);
      if Handler in Run(w, stmts).0.trace {
        ActionEarned(w, a, csrf, rateLimit);
      }
      if Unhindered(w, a.guards) && (a.Validates() ==> Valid(w.submission, a.requiredFields, a.rules)) {
        ActionOpen(w, a, csrf, rateLimit);
      }
    }
  }

  lemma ActionOrder(w: World, a: Action, csrf: bool, rateLimit: bool)
    requires a.status.Bound?
    ensures ActionGates(w, a, csrf, rateLimit) + [Handler]
            == [BodyCap] + Only(rateLimit && w.limiterRegistered, RateOk) + GuardOks(RuntimeGuardNames(a.guards)) + [Parsing, Parsed]
               + Only(csrf && w.csrfRegistered, CsrfOk) + BoundDecoding(a)
               + Only(a.Validates(), Validated(a.requiredFields, a.rules)) + [Handler]
  {
    hide *;
    ActionParts(w, a, csrf, rateLimit);
    Reassociate([BodyCap], Only(rateLimit && w.limiterRegistered, RateOk), GuardOks(RuntimeGuardNames(a.guards)), [Parsing, Parsed],
                Only(csrf && w.csrfRegistered, CsrfOk), BoundDecoding(a), Only(a.Validates(), Validated(a.requiredFields, a.rules)));
  }

  lemma ActionParts(w: World, a: Action, csrf: bool, rateLimit: bool)
    requires a.status.Bound?
    ensures ActionGates(w, a, csrf, rateLimit)
            == [BodyCap] + Only(rateLimit && w.limiterRegistered, RateOk) + GuardOks(RuntimeGuardNames(a.guards))
               + ([Parsing, Parsed] + Only(csrf && w.csrfRegistered, CsrfOk) + BoundDecoding(a)
                  + Only(a.Validates(), Validated(a.requiredFields, a.rules)))
  {
    hide GuardOks, RuntimeGuardNames;
    assert DecodeMilestones(a) == BoundDecoding(a);
  }

  lemma Reassociate(a: seq<Milestone>, b: seq<Milestone>, c: seq<Milestone>, d: seq<Milestone>, e: seq<Milestone>, f: seq<Milestone>, g: seq<Milestone>)
    ensures a + b + c + (d + e + f + g) == a + b + c + d + e + f + g
  {
  }

  /** A run that reached the function was guarded and valid. */
  lemma ActionEarned(w: World, a: Action, csrf: bool, rateLimit: bool)
    requires a.guards != [] && a.status.Bound? && Handler in Run(w, ActionCaseStmts(a, csrf, rateLimit)).0.trace
    requires ActionGates(w, a, csrf, rateLimit) + [Handler] <= Run(w, ActionCaseStmts(a, csrf, rateLimit)).0.trace
    ensures AllGuarded(w, a.guards, Run(w, ActionCaseStmts(a, csrf, rateLimit)).0.trace)
    ensures a.Validates() ==> Valid(w.submission, a.requiredFields, a.rules)
  {
    hide Run, Valid, AllGuarded, Admitted, ActionCaseStmts, ActionLate;
    if a.Validates() && !Valid(w.submission, a.requiredFields, a.rules) {
      ActionInvalid(w, a, csrf, rateLimit);
    }
    if !Admitted(w, a.guards) {
      ActionDenied(w, a, csrf, rateLimit);
    } else {
      GuardsHold(w, a.guards, [BodyCap] + RateMilestones(w, rateLimit), ActionLate(w, a, csrf) + [Handler],
                 Run(w, ActionCaseStmts(a, csrf, rateLimit)).0.trace);
    }
  }

  lemma ActionOpen(w: World, a: Action, csrf: bool, rateLimit: bool)
    requires a.guards != [] && a.status.Bound? && Unhindered(w, a.guards) && (a.Validates() ==> Valid(w.submission, a.requiredFields, a.rules))
    ensures Open(w, ActionMilestones(w, a, csrf, rateLimit))
  {
    hide Open, Unhindered, Valid, ActionLate, ActionMilestones, GuardMilestones;
    ActionLateClean(w, a, csrf);
    ActionShape(w, a, csrf, rateLimit);
    var early, late := [BodyCap] + RateMilestones(w, rateLimit), ActionLate(w, a, csrf);
    OpenAround(w, a.guards, early, late + [Handler]);
    assert early + GuardMilestones(a.guards) + late + [Handler] == early + GuardMilestones(a.guards) + (late + [Handler]);
  }

  /** What an action passes between its guards and its function. */
  function ActionLate(w: World, a: Action, csrf: bool): seq<Milestone> {
    [Parsing, Parsed] + CsrfMilestones(w, csrf) + DecodeMilestones(a) + ValidationMilestones(a)
  }

  function ActionGates(w: World, a: Action, csrf: bool, rateLimit: bool): seq<Milestone> {
    [BodyCap] + RateMilestones(w, rateLimit) + GuardMilestones(a.guards) + ActionLate(w, a, csrf)
  }

  lemma ActionShape(w: World, a: Action, csrf: bool, rateLimit: bool)
    ensures var ms, gates := ActionMilestones(w, a, csrf, rateLimit), ActionGates(w, a, csrf, rateLimit);
            if a.guards != [] && a.status.Bound? then ms == gates + [Handler] && Handler !in gates && Write !in gates
            else Handler !in ms && Write !in ms
  {
    hide DecodeMilestones, ValidationMilestones, CsrfMilestones, GuardMilestones, RateMilestones;
    FrontClean(w, true, rateLimit, a.guards);
    ActionLateClean(w, a, csrf);
    var front, late := FrontMilestones(w, true, rateLimit, a.guards), ActionLate(w, a, csrf);
    assert front == [BodyCap] + RateMilestones(w, rateLimit) + GuardMilestones(a.guards);
    assert front + [Parsing, Parsed] + CsrfMilestones(w, csrf) + DecodeMilestones(a) + ValidationMilestones(a) == front + late;
  }

  lemma ActionLateClean(w: World, a: Action, csrf: bool)
    ensures Handler !in ActionLate(w, a, csrf) && Write !in ActionLate(w, a, csrf)
    ensures forall m | m in ActionLate(w, a, csrf) :: !m.GuardOk? && (m.Validated? ==> a.Validates() && m == Validated(a.requiredFields, a.rules))
  {
    DecodeClean(a);
  }

  lemma DecodeClean(a: Action)
    ensures forall m | m in DecodeMilestones(a) :: m == Decoding
  {
  }

  predicate ChecksCsrf(w: World, a: ApiEndpoint, csrf: bool) {
    csrf && w.csrfRegistered && Upper(TrimSpace(a.httpMethod)) !in SAFE_METHODS
  }

  /**
   The guarantee for APIs: as for actions, with the CSRF check for methods that change state, before
   any input is decoded.
   */
  lemma ApiGuarantee(w: World, a: ApiEndpoint, csrf: bool, rateLimit: bool)
    ensures var (t, out) := Run(w, ApiCaseStmts(a, csrf, rateLimit));
            && out == Returned(true) && OneResponse(t.trace)
            && (Handler in t.trace ==>
                && a.guards != [] && a.status.Bound? && AllGuarded(w, a.guards, t.trace)
                && exists names :: RuntimeNames(a.guards, names)
                     && [BodyCap] + Only(rateLimit && w.limiterRegistered, RateOk) + GuardOks(names)
                        + Only(ChecksCsrf(w, a, csrf), CsrfOk)
                        + Only(a.signature.ApiInput? || a.signature.ApiInputPtr?, Decoding) + [Handler] <= t.trace)
            && (a.guards != [] && a.status.Bound? && Unhindered(w, a.guards) ==> Handler in t.trace)
  {
    hide Ending, Run, Open, Unhindered, AllGuarded, RuntimeNames, Admitted, GuardOks, ApiCaseStmts, ApiMilestones, ApiLate;
    var stmts, early, late := ApiCaseStmts(a, csrf, rateLimit), [BodyCap] + RateMilestones(w, rateLimit), ApiLate(w, a, csrf);
    var gates := early + GuardMilestones(a.guards) + late;
    var reached := a.guards != [] && a.status.Bound?;
    ApiSafe(w, a, csrf, rateLimit);
    ApiShape(w, a, csrf, rateLimit);
    assert gates + [Handler] + [] == gates + [Handler];
    Guaranteed(w, stmts, ApiMilestones(w, a, csrf, rateLimit), gates, [], reached);
    RuntimeGuardNamesAre(a.guards);
    if reached {
      ApiOrder(w, a, csrf, rateLimit);
      if Handler in Run(w, stmts).0.trace {
        if !Admitted(w, a.guards) {
          ApiDenied(w, a, csrf, rateLimit);
        } else {
          GuardsHold(w, a.guards, early, late + [Handler], Run(w, stmts).0.trace);
        }
      }
      if Unhindered(w, a.guards) {
        ApiLateClean(w, a, csrf);
        OpenAround(w, a.guards, early, late + [Handler]);
        assert early + GuardMilestones(a.guards) + (late + [Handler]) == gates + [Handler];
      }
    }
  }

  function ApiLate(w: World, a: ApiEndpoint, csrf: bool): seq<Milestone> {
    CsrfMilestones(w, csrf && MethodRequiresCsrf(a.httpMethod)) + (if a.TypedInput() then [Decoding] else [])
  }

  lemma ApiLateClean(w: World, a: ApiEndpoint, csrf: bool)
    ensures forall m | m in ApiLate(w, a, csrf) :: m == CsrfOk || m == Decoding
  {
  }

  lemma ApiOrder(w: World, a: ApiEndpoint, csrf: bool, rateLimit: bool)
    ensures [BodyCap] + RateMilestones(w, rateLimit) + GuardMilestones(a.guards) + ApiLate(w, a, csrf) + [Handler]
            == [BodyCap] + Only(rateLimit && w.limiterRegistered, RateOk) + GuardOks(RuntimeGuardNames(a.guards))
               + Only(ChecksCsrf(w, a, csrf), CsrfOk)
               + Only(a.signature.ApiInput? || a.signature.ApiInputPtr?, Decoding) + [Handler]
  {
    hide GuardOks, RuntimeGuardNames, Upper, TrimSpace;
    RequiresIff(Upper(TrimSpace(a.httpMethod)));
    assert CsrfMilestones(w, csrf && MethodRequiresCsrf(a.httpMethod)) == Only(ChecksCsrf(w, a, csrf), CsrfOk);
    Regroup([BodyCap] + RateMilestones(w, rateLimit) + GuardMilestones(a.guards),
            Only(ChecksCsrf(w, a, csrf), CsrfOk), if a.TypedInput() then [Decoding] else []);
  }

  lemma ApiShape(w: World, a: ApiEndpoint, csrf: bool, rateLimit: bool)
    ensures var ms := ApiMilestones(w, a, csrf, rateLimit);
            var gates := [BodyCap] + RateMilestones(w, rateLimit) + GuardMilestones(a.guards) + ApiLate(w, a, csrf);
            if a.guards != [] && a.status.Bound? then ms == gates + [Handler] && Handler !in gates && Write !in gates
            else Handler !in ms && Write !in ms
  {
    hide CsrfMilestones, GuardMilestones, RateMilestones;
    FrontClean(w, true, rateLimit, a.guards);
    ApiLateClean(w, a, csrf);
    var front := FrontMilestones(w, true, rateLimit, a.guards);
    assert front == [BodyCap] + RateMilestones(w, rateLimit) + GuardMilestones(a.guards);
    Regroup(front, CsrfMilestones(w, csrf && MethodRequiresCsrf(a.httpMethod)), if a.TypedInput() then [Decoding] else []);
  }

  /** The guarantee for fragments: behind rate limit and guards. */
  lemma FragmentGuarantee(w: World, f: Fragment, rateLimit: bool)
    ensures var (t, out) := Run(w, FragmentCaseStmts(f, rateLimit));
            && out == Returned(true) && OneResponse(t.trace)
            && (Handler in t.trace ==>
                && f.guards != [] && f.status.Bound? && AllGuarded(w, f.guards, t.trace)
                && exists names :: RuntimeNames(f.guards, names)
                     && Only(rateLimit && w.limiterRegistered, RateOk) + GuardOks(names) + [Handler] <= t.trace)
            && (f.guards != [] && f.status.Bound? && Unhindered(w, f.guards) ==> Handler in t.trace)
  {
    hide Ending, Run, Open, Unhindered, AllGuarded, RuntimeNames, Admitted, GuardOks, FragmentCaseStmts, FragmentMilestones;
    var stmts, early := FragmentCaseStmts(f, rateLimit), RateMilestones(w, rateLimit);
    var gates := early + GuardMilestones(f.guards);
    var reached := f.guards != [] && f.status.Bound?;
    FragmentSafe(w, f, rateLimit);
    FragmentShape(w, f, rateLimit);
    assert gates + [Handler] + [] == gates + [Handler];
    Guaranteed(w, stmts, FragmentMilestones(w, f, rateLimit), gates, [], reached);
    RuntimeGuardNamesAre(f.guards);
    if reached {
      if Handler in Run(w, stmts).0.trace {
        if !Admitted(w, f.guards) {
          FragmentDenied(w, f, rateLimit);
        } else {
          GuardsHold(w, f.guards, early, [Handler], Run(w, stmts).0.trace);
        }
      }
      if Unhindered(w, f.guards) {
        OpenAround(w, f.guards, early, [Handler]);
      }
    }
  }

  lemma FragmentShape(w: World, f: Fragment, rateLimit: bool)
    ensures var ms, gates := FragmentMilestones(w, f, rateLimit), RateMilestones(w, rateLimit) + GuardMilestones(f.guards);
            if f.guards != [] && f.status.Bound? then ms == gates + [Handler] && Handler !in gates && Write !in gates
            else Handler !in ms && Write !in ms
  {
    FrontClean(w, false, rateLimit, f.guards);
    assert FrontMilestones(w, false, rateLimit, f.guards) == RateMilestones(w, rateLimit) + GuardMilestones(f.guards);
  }

  /**
   The guarantee for commands and queries: queries behind rate limit and guards; commands also
   behind body cap, parse and CSRF check, with their events dispatched only after they ran.
   */
  lemma ContractGuarantee(w: World, c: Contract, csrf: bool, rateLimit: bool, queryInvalidations: bool, commandPatches: bool)
    ensures var (t, out) := Run(w, ContractStmts(c, csrf, rateLimit, queryInvalidations, commandPatches));
            && out == Returned(true) && OneResponse(t.trace)
            && (Handler in t.trace ==>
                && c.guards != [] && AllGuarded(w, c.guards, t.trace)
                && exists names :: RuntimeNames(c.guards, names)
                     && Only(c.kind.Command?, BodyCap) + Only(rateLimit && w.limiterRegistered, RateOk) + GuardOks(names)
                        + Only(c.kind.Command?, Parsing) + Only(c.kind.Command?, Parsed) + Only(c.kind.Command? && csrf && w.csrfRegistered, CsrfOk)
                        + Only(c.inputs && (c.kind.Command? || c.kind.Query?), Decoding) + [Handler] <= t.trace)
            && (Dispatched in t.trace ==> c.kind.Command? && Handler in t.trace)
            && (c.guards != [] && Unhindered(w, c.guards) ==> Handler in t.trace && (c.kind.Command? ==> Dispatched in t.trace))
  {
    hide Ending, Run, Open, Unhindered, AllGuarded, RuntimeNames, Admitted, GuardOks, ContractStmts, ContractMilestones, ContractInputMilestones, ContractEarly, GuardMilestones;
    var stmts := ContractStmts(c, csrf, rateLimit, queryInvalidations, commandPatches);
    var early, late := ContractEarly(w, c, rateLimit), ContractInputMilestones(w, c, csrf);
    var gates, rest := early + GuardMilestones(c.guards) + late, if c.kind.Command? then [Dispatched] else [];
    ContractSafe(w, c, csrf, rateLimit, queryInvalidations, commandPatches);
    ContractShape(w, c, csrf, rateLimit);
    Guaranteed(w, stmts, ContractMilestones(w, c, csrf, rateLimit), gates, rest, c.guards != []);
    ContractDispatch(w, c, csrf, rateLimit, queryInvalidations, commandPatches);
    RuntimeGuardNamesAre(c.guards);
    if c.guards != [] {
      ContractOrder(w, c, csrf, rateLimit);
      if Handler in Run(w, stmts).0.trace {
        ContractEarned(w, c, csrf, rateLimit, queryInvalidations, commandPatches);
      }
      if Unhindered(w, c.guards) {
        ContractOpen(w, c, csrf, rateLimit);
      }
    }
  }

  /** A run that reached the contract was guarded. */
  lemma ContractEarned(w: World, c: Contract, csrf: bool, rateLimit: bool, queryInvalidations: bool, commandPatches: bool)
    requires var trace := Run(w, ContractStmts(c, csrf, rateLimit, queryInvalidations, commandPatches)).0.trace;
             && c.guards != [] && Handler in trace
             && ContractEarly(w, c, rateLimit) + GuardMilestones(c.guards) + ContractInputMilestones(w, c, csrf) + [Handler] <= trace
    ensures AllGuarded(w, c.guards, Run(w, ContractStmts(c, csrf, rateLimit, queryInvalidations, commandPatches)).0.trace)
  {
    hide Run, AllGuarded, Admitted, ContractStmts, ContractInputMilestones, GuardMilestones;
    if !Admitted(w, c.guards) {
      ContractDenied(w, c, csrf, rateLimit, queryInvalidations, commandPatches);
    } else {
      var late := ContractInputMilestones(w, c, csrf);
      Regroup(ContractEarly(w, c, rateLimit) + GuardMilestones(c.guards), late, [Handler]);
      GuardsHold(w, c.guards, ContractEarly(w, c, rateLimit), late + [Handler],
                 Run(w, ContractStmts(c, csrf, rateLimit, queryInvalidations, commandPatches)).0.trace);
    }
  }

  lemma ContractOpen(w: World, c: Contract, csrf: bool, rateLimit: bool)
    requires c.guards != [] && Unhindered(w, c.guards)
    ensures Open(w, ContractMilestones(w, c, csrf, rateLimit))
  {
    hide Open, Unhindered, ContractMilestones, ContractInputMilestones, GuardMilestones;
    ContractShape(w, c, csrf, rateLimit);
    ContractLateClean(w, c, csrf);
    var early, late := ContractEarly(w, c, rateLimit), ContractInputMilestones(w, c, csrf);
    var rest := if c.kind.Command? then [Dispatched] else [];
    OpenAround(w, c.guards, early, late + [Handler] + rest);
    assert early + GuardMilestones(c.guards) + (late + [Handler] + rest) == early + GuardMilestones(c.guards) + late + [Handler] + rest;
  }

  function ContractEarly(w: World, c: Contract, rateLimit: bool): seq<Milestone> {
    (if c.kind.Command? then [BodyCap] else []) + RateMilestones(w, rateLimit)
  }

  lemma ContractLateClean(w: World, c: Contract, csrf: bool)
    ensures forall m | m in ContractInputMilestones(w, c, csrf) :: m == Parsing || m == Parsed || m == CsrfOk || m == Decoding
  {
  }

  lemma ContractOrder(w: World, c: Contract, csrf: bool, rateLimit: bool)
    ensures ContractEarly(w, c, rateLimit) + GuardMilestones(c.guards) + ContractInputMilestones(w, c, csrf) + [Handler]
            == Only(c.kind.Command?, BodyCap) + Only(rateLimit && w.limiterRegistered, RateOk) + GuardOks(RuntimeGuardNames(c.guards))
               + Only(c.kind.Command?, Parsing) + Only(c.kind.Command?, Parsed) + Only(c.kind.Command? && csrf && w.csrfRegistered, CsrfOk)
               + Only(c.inputs && (c.kind.Command? || c.kind.Query?), Decoding) + [Handler]
  {
    hide *;
    ContractParts(w, c, csrf, rateLimit);
    Reassociate(Only(c.kind.Command?, BodyCap), Only(rateLimit && w.limiterRegistered, RateOk), GuardOks(RuntimeGuardNames(c.guards)),
                Only(c.kind.Command?, Parsing), Only(c.kind.Command?, Parsed), Only(c.kind.Command? && csrf && w.csrfRegistered, CsrfOk),
                Only(c.inputs && (c.kind.Command? || c.kind.Query?), Decoding));
  }

  lemma ContractParts(w: World, c: Contract, csrf: bool, rateLimit: bool)
    ensures ContractEarly(w, c, rateLimit) == Only(c.kind.Command?, BodyCap) + Only(rateLimit && w.limiterRegistered, RateOk)
    ensures GuardMilestones(c.guards) == GuardOks(RuntimeGuardNames(c.guards))
    ensures ContractInputMilestones(w, c, csrf)
            == Only(c.kind.Command?, Parsing) + Only(c.kind.Command?, Parsed) + Only(c.kind.Command? && csrf && w.csrfRegistered, CsrfOk)
               + Only(c.inputs && (c.kind.Command? || c.kind.Query?), Decoding)
  {
  }

  lemma ContractShape(w: World, c: Contract, csrf: bool, rateLimit: bool)
    ensures var ms := ContractMilestones(w, c, csrf, rateLimit);
            var gates := ContractEarly(w, c, rateLimit) + GuardMilestones(c.guards) + ContractInputMilestones(w, c, csrf);
            if c.guards != [] then ms == gates + [Handler] + (if c.kind.Command? then [Dispatched] else []) && Handler !in gates && Write !in gates
            else ms == []
  {
    FrontClean(w, c.kind.Command?, rateLimit, c.guards);
    ContractLateClean(w, c, csrf);
  }

  /** Events are dispatched by commands only, after the command ran, and are when nothing is in the way. */
  lemma ContractDispatch(w: World, c: Contract, csrf: bool, rateLimit: bool, queryInvalidations: bool, commandPatches: bool)
    ensures var trace := Run(w, ContractStmts(c, csrf, rateLimit, queryInvalidations, commandPatches)).0.trace;
            && (Dispatched in trace ==> c.kind.Command? && Handler in trace)
            && (c.guards != [] && c.kind.Command? && Unhindered(w, c.guards) ==> Dispatched in trace)
  {
    hide Exec, Open, Unhindered, ContractStmts, ContractMilestones, ContractInputMilestones, GuardMilestones;
    var stmts, ms := ContractStmts(c, csrf, rateLimit, queryInvalidations, commandPatches), ContractMilestones(w, c, csrf, rateLimit);
    ContractSafe(w, c, csrf, rateLimit, queryInvalidations, commandPatches);
    ContractShape(w, c, csrf, rateLimit);
    ContractLateClean(w, c, csrf);
    GuardMilestonesOnly(c.guards);
    assert Answered(w, [], Run(w, stmts), ms);
    var trace := Run(w, stmts).0.trace;
    var k :| 0 <= k <= |ms| && trace == [] + ms[..k] + [Write];
    var gates := ContractEarly(w, c, rateLimit) + GuardMilestones(c.guards) + ContractInputMilestones(w, c, csrf);
    if c.guards != [] {
      DispatchShape(gates, c.kind.Command?, k, trace);
      if Unhindered(w, c.guards) && c.kind.Command? {
        ContractOpen(w, c, csrf, rateLimit);
        assert Dispatched in ms;
      }
    }
  }

  lemma GuardMilestonesOnly(guards: seq<string>)
    ensures forall m | m in GuardMilestones(guards) :: m.GuardOk?
  {
  }

  lemma DispatchShape(gates: seq<Milestone>, command: bool, k: nat, trace: seq<Milestone>)
    requires Dispatched !in gates && Write !in gates
    requires var ms := gates + [Handler] + (if command then [Dispatched] else []); k <= |ms| && trace == [] + ms[..k] + [Write]
    ensures Dispatched in trace ==> command && Handler in trace
  {
    var ms := gates + [Handler] + (if command then [Dispatched] else []);
    if k <= |gates| + 1 {
      assert ms[..k] <= gates + [Handler];
    } else {
      assert ms[..k] == ms && command;
      assert trace[|gates|] == Handler;
    }
  }
}
