# GOWDK verification model

This project models seven parts of GOWDK in Dafny and proves what they promise, for all inputs
and all runs:

1. **Audit policy engine** (`Audit*.dfy`, `Dedupe.dfy`). Policies extend each other, are resolved
   by a depth-first search with cycle detection, evaluated over a posture manifest, deduplicated
   in place and waived in place. Main results: what the report holds under any policies, stated on
   selector texts, rules and the manifest, in both directions; extends resolution is exact; waiver
   accounting and the exact condition under which a finding is silenced; what the baseline reports
   with no configuration, code by code and target by target; the built-in baseline is monotonic
   under composition, and the audit fails closed.
2. **Build-time expressions** (`BuildScanner.dfy`, `BuildEval.dfy`, `BuildMeaning.dfy`,
   `BuildProgram.dfy`, `BuildBlock.dfy`, `BuildBlockMeaning.dfy`, `BuildRoundTrip.dfy`,
   `BuildComprehension.dfy`, `BuildLiterals.dfy`). A bracket and string scanner, list and object literals, comprehensions,
   blocks of fields, a shared budget and a depth limit. Main results: a bound on the work of every
   text and every block; the text of a comprehension evaluates to filter-then-map, in both
   directions; printing a literal tree or a comprehension and reading the text gives it back, and
   evaluating a printed tree gives its value exactly when it fits the limits. The program itself, with its mutable budget and
   scopes, computes what these functions say.
3. **Sessions** (`SessionTokens.dfy`, `Sessions.dfy`, `DefaultManager.dfy`, `Passwords.dfy`,
   `Base64.dfy`). Signed tokens with key rotation, a revocable session store, a lazily built
   default manager, password records. Main results: when a request is answered, on the fields of
   the stored record; exact session lifetime; permanent revocation under interleaving, with the
   exact condition under which an ID revives; exactly which texts verify as tokens and as password
   records; round trips; no deadlock in the default manager.
4. **Migrations** (`Migrations.dfy`, `MigrationRaces.dfy`). Main results: exactly when a run
   succeeds and what it then appends to the log; exactly once, over any history of runs with
   failures, one after the other or interleaved statement by statement.
5. **Generated handlers** (`Handlers.dfy`, `Guards.dfy`). The emitted statements are a syntax tree
   with an interpreter; guards are looked up and run one by one, submissions are validated. Main
   result: for every endpoint configuration and every panic-free run, the application code is
   reached only behind every gate and after every declared guard but the public marker admitted the
   request, in order; it is reached when nothing is in the way; and exactly one response is written.
6. **SSR routes** (`SsrRoutes.dfy`, `RouteSyntax.dfy`, `RouteRoundTrip.dfy`, `RouteTables.dfy`).
   Main results: exactly which texts the compiler accepts as routes and what it reads; what it
   accepts is canonical, so on compiled routes the overlap test is exact and dispatch does not
   depend on route order; exactly which tables are accepted and which page serves which path; the
   exact conditions on all routes the generator alone accepts.
7. **Realtime fan-out and the environment contract** (`Realtime.dfy`, `RealtimeProgram.dfy`,
   `RealtimePages.dfy`, `EnvContract.dfy`). Main results: from a program's pages, subscriptions and
   invalidations to what a client on a path receives, delivery is exact; what each diagnostic of
   `EnvConfig.Validate` means, and exactly when the emitted environment check says the same.

`Text.dfy` holds the string operations of Go's standard library that these rely on, and
`HttpMethods.dfy` the methods that change state.

What lies outside is a parameter: the leaf evaluator of build expressions, the diagnostic
registry, message wording, date parsing, case mapping, the clock, the MAC (HMAC, section 2 of
RFC 2104), the key derivation (PBKDF2, section 5.2 of RFC 8018), the checksum, JSON, and the
outcome of every test in an emitted handler. Results hold for every choice, under the hypotheses
a contract states: the leaf evaluator only spends budget (`Thrifty`) and ignores what is left over
(`Uniform`), header findings are raised like all others (`HeadersFresh`), a checksum is a
hexadecimal string (`IsDigest`). Base64 is implemented in full (sections 4,
5 and 3.2 of RFC 4648). Text is a sequence of code points; byte lengths are explicit where the
program counts bytes.

Where code and documentation disagree, the model follows the code:

- `**` in a route glob is documented to match trailing segments; the code accepts at the first
  `**` and ignores what follows it. They agree on all paths if and only if nothing follows the
  first `**` (`AuditMatch.GlobAsDocumentedIff`); `**/b` matches `c` (`AuditMatch.GlobIgnoresTail`).
- `TouchSession` is documented to update a live session; the code updates a session if and only if
  it is stored, a revoked one included, and leaves it revoked (`Sessions.TouchReachesStored`,
  `Sessions.RevokedIsTouched`).

Three guarantees hold under a condition, which is stated exactly:

- The emitted environment check looks names up as they are written, `EnvConfig.Validate` trims
  them first. They agree in every environment if and only if every name that can be reported at run
  time has no white space around it (`EnvContract.AgreesIff`); `EnvContract.UntrimmedNameDiffers`
  shows a name where they differ.
- A revoked session ID answers again if and only if a later step issues a session under that ID
  (`Sessions.RevivedIff`).
- `validateSSRRoutes` alone, given routes that did not pass `ParseRoutePattern`, misses overlaps of
  routes with segments that path cleaning removes, such as `/{a}/.` beside `/{b}`
  (`SsrRoutes.OverlapMissesExample`). Its verdicts are right for a route if and only if the route is
  canonical (`SsrRoutes.OverlapRightIff`), and every compiled route is (`RouteSyntax.CompiledRoute`).

## Model

| member | source | states |
|---|---|---|
| `AuditResolve.Resolver.FlattenRules` | internal/auditspec/engine.go:200-237 | the recursive search with its visiting set and findings list computes Flatten, leaves the visiting set as it found it, and terminates on the declared names not on the path |
| `AuditResolve.FlattenExact` | internal/auditspec/engine.go:198-237 | a name resolves if and only if no chain of extends from it ends in an undefined name or returns to itself; then to its parents' rules in order followed by its own and without findings; a defined name that fails leaves exactly one finding, the report of such a chain |
| `AuditResolve.Resolve` | internal/auditspec/engine.go:136-196 | the three passes compute the resolved policies and the findings of repeated names, unknown selectors and failed expansions, in order |
| `AuditResolve.ResolveKeeps` | internal/auditspec/engine.go:183-195 | a policy is resolved if and only if it is a first declaration from which no bad chain starts, carrying its parents' rules and then its own |
| `AuditResolve.DroppedIsReported` | internal/auditspec/engine.go:188-231 | every first declaration that is dropped leaves a cycle or unknown-extends finding that reports a bad chain from it |
| `AuditResolve.ResolvedRuleOrigin` | internal/auditspec/engine.go:218-236 | resolution invents no rules: every rule in force is a rule of some declared policy |
| `AuditCodes.ValidatePolicyRuleCodes` | internal/auditspec/codes.go:94-116 | the loop replaces exactly the violating overrides of declared policies by the default code and reports each |
| `AuditCodes.NeverWeakened` | internal/auditspec/codes.go:43-139 | after validation a rule has no code or a registered code of its own family at or above its severity floor, checks what it checked before, and validating again changes nothing |
| `AuditCodes.RuleFindingsExact` | internal/auditspec/codes.go:103-139 | a code finding is reported if and only if some rule of the policy violates |
| `AuditMatch.MatchSegments` | internal/auditspec/engine.go:803-819 | the loop decides the declarative meaning of a route glob |
| `AuditMatch.GlobSegmentsMeaning` | internal/auditspec/engine.go:794-819 | a glob matches if and only if every segment matches up to the first `**`, or, without one, the lengths agree and every segment matches |
| `AuditMatch.GlobAsDocumentedIff` | internal/auditspec/engine.go:794-819 | the code matches as documented, `**` standing for trailing segments, on every path if and only if nothing follows the first `**` |
| `AuditMatch.GlobIgnoresTail` | internal/auditspec/engine.go:803-819 | the glob `**/b` matches `c`, which its documented meaning does not |
| `AuditRules.FrontendUnderExemptions` | internal/auditspec/engine.go:545-616 | under exemptions a frontend policy reports what it reports without them, except that a raw-HTML sink report stays if and only if it is about a sink that is not exempt |
| `AuditRules.ExemptIff` | internal/auditspec/engine.go:599-665 | a sink is exempt if and only if an allow rule of a frontend policy names it or a collected exception for its fingerprint is active |
| `AuditEngine.EvaluateRows` | internal/auditspec/engine.go:46-99 | the nested loops over entries and policies append the findings of every matching pair in order and record the matching policies |
| `AuditEngine.RowsHas` | internal/auditspec/engine.go:46-99 | a finding is raised if and only if some policy that matches some entry raises it about that entry |
| `AuditEngine.ReportUnmatched` | internal/auditspec/engine.go:239-259 | one finding for each name of a declared policy with selectors that matched nothing |
| `AuditEngine.EvaluateWithWaivers` | internal/auditspec/engine.go:34-111 | the imperative pipeline computes the report: validation, resolution, evaluation, in-place deduplication, in-place waiving, waiver findings |
| `Dedupe.Compact` | internal/auditspec/engine.go:113-129 | the in-place filter leaves the first item of every key at the front of the array, in order |
| `Dedupe.KeepFirstExact` | internal/auditspec/engine.go:113-129 | exactly one item of every key remains and it is the first of its key |
| `AuditWaivers.CollectWaivers` | internal/auditspec/waiver.go:47-76 | the waivers in force are the first of each code, target, source and expiry among all waive rules |
| `AuditWaivers.WaiverFrom` | internal/auditspec/waiver.go:50-66 | every waiver in force is a waive rule of one of the policies |
| `AuditWaivers.ApplyWaivers` | internal/auditspec/waiver.go:83-138 | the nested loops write into the array exactly the suppressions of the specification and return its waiver findings |
| `AuditWaivers.SuppressionExact` | internal/auditspec/waiver.go:93-114 | a finding is newly suppressed if and only if it is open and some valid waiver matches; the first such waiver is recorded; erasing suppressions restores the finding |
| `AuditBaseline.SuppressedIff` | internal/auditspec/waiver.go:83-188 | a finding of the report is silenced if and only if it is not about policies or waivers themselves and a waiver in force that is complete, unexpired and pinned to current digests names its code and a glob that accepts its target |
| `AuditWaivers.Accounting` | internal/auditspec/waiver.go:92-137 | a waiver that suppresses something is valid and not reported, every other is reported exactly once, and the reports are as many as the unused waivers |
| `AuditWaivers.Summarize` | internal/auditspec/auditspec.go:158-175 | the four counts are the counts of their classes and add up to the number of findings |
| `AuditWaivers.StatusMeans` | internal/auditspec/auditspec.go:177-188 | the audit fails if and only if an error is not waived, and passes if and only if neither error nor warning is left open |
| `AuditBaseline.BaselineIsBaseline` | internal/auditspec/baseline.go:11-148 | the shipped baseline has distinct built-in names, no extends, known selectors, codes without NUL and no rule that relaxes anything |
| `AuditBaseline.BaselineMonotone` | internal/auditspec/ir.go:45-57 | every finding key the baseline alone reports is still reported after composition, unsuppressed or suppressed by a declared waiver that is valid and matches it, unless it reports a sink that a declared raw-HTML rule in force on the frontend lets through |
| `AuditBaseline.SinkStaysIff` | internal/auditspec/engine.go:545-665 | a policy still reports raw HTML under the policies in force if and only if some sink it reports is named by no allow rule there and has no active exception |
| `AuditBaseline.ComposedBaselineHolds` | internal/auditspec/ir.go:54-57 | the same for the shipped baseline, with the same code and severity, and the same target, source and message unless one of them holds a NUL |
| `AuditBaseline.KeyFields` | internal/auditspec/engine.go:117-127 | the joined key of a finding without NUL in its fields belongs to those fields only |
| `AuditBaseline.FailClosed` | internal/auditspec/ir.go:47-53 | one error the baseline raises alone keeps the audit failing, unless a declared rule excuses that very error |
| `AuditBaseline.OverrideRejected` | internal/auditspec/engine.go:131-161 | a declared policy under a baseline name is reported as an override, and what is in force under that name is the baseline's policy |
| `AuditGates.BaselineReportsFaults` | internal/auditspec/baseline.go:11-148 | with the shipped baseline alone the report cites a code about a target only for a fault of that code there, and every fault (CSRF, guards, late, missing or unbounded request limits, guard evidence, roles, each weakness of traces, secrets, client routes, sinks, headers, wildcard CORS with and without credentials) is reported and open |
| `AuditGates.BaselineSilentIffSecure` | internal/auditspec/baseline.go:11-148 | so that report is empty if and only if the manifest is secure |
| `AuditGates.EndpointGates` | internal/auditspec/engine.go:329-412 | some baseline policy cites a code about a target for an endpoint if and only if the endpoint has that fault |
| `AuditGates.TraceGates` | internal/auditspec/engine.go:472-533 | the same for trace endpoints |
| `AuditGates.FrontendGates` | internal/auditspec/engine.go:545-597 | the same for the frontend |
| `AuditDeclared.EndpointEnforced` | internal/auditspec/engine.go:46-54 | whatever a rule in force finds about an endpoint that a selector of its policy selects is in the report |
| `AuditDeclared.TighteningWorks` | internal/auditspec/engine.go:346-412 | an endpoint that breaks a CSRF, guard, public-access, body-size or request-limit rule in force on it is reported under the code of the rule, of the kind of endpoint when a CSRF rule pins none, or of the limit that is missing |
| `AuditDeclared.PostureIff` | internal/auditspec/engine.go:46-99 | the rules in force cite a code about a target if and only if some rule of a policy in force is broken there by an endpoint, route, contract, trace endpoint or frontend that one of the policy's selectors selects; each kind of rule has its own breach |
| `AuditDeclared.ReportsBreaches` | internal/auditspec/engine.go:34-111 | the report under any policies: every such breach is in it under its code, and every finding that is not about the policies themselves is about such a breach |
| `AuditAttribution.PostureAttributed` | internal/auditspec/engine.go:667-682 | every finding about the manifest names a policy in force and one of its rules, at the registered severity of its code or as an error, open, and with the origin of its code: baseline, default or override |
| `AuditDeclared.IdleIff` | internal/auditspec/engine.go:239-259 | a policy in force is reported as matching nothing if and only if it is declared, has selectors none of which selects anything, and holds no waiver |
| `AuditFaults.RaisedIff` | internal/auditspec/engine.go:34-111 | a finding is raised if and only if it is one of: an override that does not stand, a repeated name, an unknown selector, a bad chain of extends, a policy that selects nothing, an exception that does not hold, or what the rules in force say |
| `AuditFaults.FaultsReported` | internal/auditspec/engine.go:136-259 | every fault of the policies themselves is in the report |
| `AuditFaults.LapsedRaised` | internal/auditspec/rawhtml.go:44-158 | an exception in force that does not hold is raised under the code that says why: incomplete or without a readable date, over, or for no sink |
| `AuditSelectors.GlobIff` | internal/auditspec/engine.go:782-792 | a glob accepts itself; with a star at its end everything that begins with its stem; the empty glob everything |
| `AuditSelectors.StemSelects` | internal/auditspec/engine.go:261-280 | `kind:stem*` selects exactly the endpoints of that kind whose ID or path begins with the stem |
| `AuditSelectors.TextSelects` | internal/auditspec/engine.go:261-280 | `kind:text` selects exactly the endpoint of that kind with that ID or path |
| `AuditSelectors.EndpointIff` | internal/auditspec/engine.go:261-280 | a selector selects an endpoint if and only if it is an endpoint selector for its kind whose glob accepts its ID or path, or a route selector whose segments match its path |
| `AuditSelectors.MatchesContractIff` | internal/auditspec/engine.go:290-301 | a policy matches a contract if and only if it has the selector `contract`, or `contract:` with a glob that accepts its name or kind |
| `AuditSelectors.MatchesTraceIff` | internal/auditspec/engine.go:303-318 | the same for trace endpoints, by ID or kind |
| `AuditSelectors.RouteGlobIff` | internal/auditspec/engine.go:794-819 | a route glob matches a path if and only if the segments of both, the texts between slashes without slashes at either end, match |
| `AuditSelectors.SegmentsIff` | internal/auditspec/engine.go:797-801 | those segments are the only ones that spell the path |
| `AuditRelief.SilencedIff` | internal/auditspec/waiver.go:47-188 | read off the rules: a finding of the report is silenced if and only if its code is not about policies or waivers and a waive rule in force, the first of its code, target, source and expiry, is complete, unexpired, not drifted, and names the code and a glob for the target |
| `AuditRelief.SilencedBy` | internal/auditspec/waiver.go:93-114 | a silenced finding records the owner, justification, expiry and ticket of such a rule |
| `AuditRelief.WaiverFaultsReported` | internal/auditspec/waiver.go:116-188 | a waiver that is not honoured is reported under the code of what is wrong with it, and one that is honoured but is the first for no open finding as unmatched |
| `AuditRelief.LetInIff` | internal/auditspec/engine.go:599-665 | read off the rules: a sink is let in if and only if an allow rule on the frontend has an entry that points at it, by source or by owner and field with or without braces, or an exception for its fingerprint is complete and not expired |
| `AuditSizes.SizeMeans` | internal/auditspec/engine.go:821-847 | a text is a size if and only if it is a decimal count, perhaps empty, with white space around it and an optional unit, and then stands for that many units in 64-bit arithmetic |
| `BuildRoundTrip.Wrap` | internal/buildgen/build_data_iteration.go:335-385 | matching brackets around a closed text give a closed text with nothing at top level |
| `BuildScanner.IndexTopLevelByte` | internal/buildgen/build_data_iteration.go:286-296 | the loop finds the first occurrence at top level, or none |
| `BuildScanner.SplitTopLevel` | internal/buildgen/build_data_iteration.go:298-311 | the loop splits at exactly the top-level separators |
| `BuildScanner.IndexTopLevelWord` | internal/buildgen/build_data_iteration.go:313-330 | the loop finds the first space-delimited word at top level, or none |
| `BuildProgram.EvalExprString` | internal/buildgen/build_data_iteration.go:89-112 | result, budget left and calls made equal the specification; only the budget changes |
| `BuildProgram.EvalListLiteral` | internal/buildgen/build_data_iteration.go:209-226 | the appending loop equals the specification; only the budget changes |
| `BuildProgram.EvalObjectLiteral` | internal/buildgen/build_data_iteration.go:228-262 | the field loop equals the specification, malformed and repeated fields before payment; only the budget changes |
| `BuildProgram.EvalParsedComprehension` | internal/buildgen/build_data_iteration.go:118-182 | source, then one iteration per element with its index, equals the specification; only the budget changes |
| `BuildProgram.EvalIteration` | internal/buildgen/build_data_iteration.go:153-180 | variables are bound in a fresh scope, so the parent scope and every existing scope keep their bindings |
| `BuildProgram.BuildEnv.Child` | internal/buildgen/build_data_iteration.go:44-52 | a fresh scope with the same bindings, the same budget, one level deeper |
| `BuildProgram.SplitElements` | internal/buildgen/build_data_iteration.go:264-284 | trimmed elements, one trailing comma tolerated, other empty elements rejected |
| `BuildProgram.ParseComprehensionText` | internal/buildgen/build_data_iteration.go:118-152 | template, variables, source and filter of a comprehension, or a syntax error |
| `BuildComprehension.ParsePrintedComprehension` | internal/buildgen/build_data_iteration.go:118-207 | the text `[T for v, i in S if C]` of closed, trimmed, nonempty parts without the words at top level and of two different names, with or without index and filter, is read as that comprehension |
| `BuildComprehension.TextIsFilterMap` | internal/buildgen/build_data_iteration.go:118-182 | that text evaluates to a list if and only if the source has a list value and the result is filter-then-map over it, for any leaf evaluator |
| `BuildComprehension.BindIs` | internal/buildgen/build_data_iteration.go:153-163 | the scope of an iteration holds the element under the item variable, the index under the index variable, and every other name as before |
| `BuildComprehension.QuotedIsClosed` | internal/buildgen/build_data_iteration.go:335-385 | a quoted string, escapes included, is closed and has nothing at top level |
| `BuildComprehension.TrailingComma` | internal/buildgen/build_data_iteration.go:264-284 | one trailing comma is tolerated |
| `BuildComprehension.EmptyElement` | internal/buildgen/build_data_iteration.go:264-284 | an empty element before another is a syntax error |
| `BuildLiterals.VarsIff` | internal/buildgen/build_data_iteration.go:184-207 | one literal name or two different ones bind variables; anything else is a syntax error |
| `BuildLiterals.FieldIff` | internal/buildgen/build_data_iteration.go:228-250 | a field is a literal name, the first top-level colon and a value that is not blank |
| `BuildLiterals.ListIff` | internal/buildgen/build_data_iteration.go:209-226 | a list literal has a value if and only if every element has, and then the list of theirs |
| `BuildLiterals.ObjectIff` | internal/buildgen/build_data_iteration.go:228-262 | an object literal has a value if and only if its fields are well formed, under distinct names, and every field has a value; then the object of the names in order with those values |
| `BuildBlock.EvalBlock` | internal/buildgen/data.go:129-155 | the loop over records and fields on one environment and one budget computes the data of the block, or fails at the first bad, empty or repeated field |
| `BuildBlock.BlockBound` | internal/buildgen/data.go:129-155 | a block makes at most 66 * (n + 2c) evaluator calls for n fields evaluated and c elements consumed, and consumes no more than the budget |
| `BuildBlock.FieldHolds` | internal/buildgen/data.go:136-153 | each field of a record that evaluates was new, holds the value of its text in the data of the fields before it, and keeps it |
| `BuildBlockMeaning.BlockIff` | internal/buildgen/data.go:129-155 | with enough budget a block gives some data if and only if its first record is not empty and its fields resolve to it one after the other: literal new names, values in the data before them, and no blank text |
| `BuildEval.WorkBound` | internal/buildgen/build_data_iteration.go:61-70 | for every text, scope and budget: at most 66 * (1 + 2c) calls, budget never earned, and success only within it |
| `BuildMeaning.EvalShift` | internal/buildgen/build_data_iteration.go:61-112 | more budget leaves a successful evaluation as it is and is all left over |
| `BuildMeaning.ComprehensionRefines` | internal/buildgen/build_data_iteration.go:152-182 | a successful loop is filter-then-map over the source enumerated with its original indices |
| `BuildMeaning.ComprehensionIffFilterMap` | internal/buildgen/build_data_iteration.go:152-182 | for some budget the loop yields a list if and only if that list is filter-then-map over the enumerated source |
| `BuildRoundTrip.SplitUndoesJoin` | internal/buildgen/build_data_iteration.go:264-311 | splitting joined parts gives the parts back, for closed parts without top-level commas |
| `BuildRoundTrip.ParsePrint` | internal/buildgen/build_data_iteration.go:89-112 | the parser recognises a printed tree as what it is, lists never as comprehensions |
| `BuildRoundTrip.RoundTrip` | internal/buildgen/build_data_iteration.go:89-262 | evaluating a printed tree yields its value and charges one element per list element and field, if and only if it fits depth limit and budget; otherwise it is an error |
| `SessionTokens.SessionSigningKeys` | addons/auth/session.go:235-269 | the key ring of the options, or an error exactly when a secret or key ID is unacceptable |
| `SessionTokens.PreviousKeyTable` | addons/auth/session.go:246-260 | the loop accepts if and only if every previous key is valid, and holds the last key of each ID |
| `SessionTokens.LastKeyWins` | addons/auth/session.go:246-260 | the key listed last under an ID is the one found under it |
| `SessionTokens.OnlyListedKeys` | addons/auth/session.go:246-260 | every key found was listed |
| `SessionTokens.VerifySound` | addons/auth/session.go:575-651 | a token verifies only if its decoded tag is the MAC of its payload under a key accepted for the token's shape |
| `SessionTokens.VerifyIff` | addons/auth/session.go:575-651 | exactly which texts verify, and as what: two or three parts around dots whose last two are base64 for a payload and the MAC of that payload under a key the ring trusts, at that instant, for the ID the text claims |
| `SessionTokens.SignedTokenVerdict` | addons/auth/session.go:561-651 | a signed token verifies if and only if a key accepted for its shape gives the same tag |
| `SessionTokens.VerifyOwnSignature` | addons/auth/session.go:561-622 | a manager verifies what it signs, with named and unnamed keys |
| `SessionTokens.RotationDeadline` | addons/auth/session.go:624-651 | tokens of a previous key under another ID are accepted if and only if no deadline is set or now precedes it |
| `SessionTokens.RotationUnderSameId` | addons/auth/session.go:624-636 | a previous key under the current ID is shadowed by the current key |
| `Sessions.ExpiryTestsAgree` | addons/auth/session.go:364-371 | the cookie's test in whole seconds and the record's test in time agree at every instant |
| `Sessions.InMemorySessionStore.CreateSession` | addons/auth/session_store.go:71-88 | refused, and the store unchanged, exactly when the session or principal ID is empty; otherwise the trimmed record is stored under its trimmed ID and every other ID is as before |
| `Sessions.CreateThenLookup` | addons/auth/session_store.go:71-106 | a created session is found under every spelling of its ID and every other lookup is as before |
| `Sessions.RevokeTouch` | addons/auth/session_store.go:108-166 | revoking is idempotent and commutes with touching, so neither undoes it |
| `Sessions.InMemorySessionStore.RevokeSession` | addons/auth/session_store.go:108-126 | the stored session is revoked and otherwise the same, and every other ID is as before |
| `Sessions.InMemorySessionStore.RevokePrincipal` | addons/auth/session_store.go:128-146 | exactly the records of the principal are marked revoked |
| `Sessions.InMemorySessionStore.TouchSession` | addons/auth/session_store.go:148-166 | refused exactly when the ID is not stored; otherwise the two times of the record move, its revoked mark stands, and every other ID is as before |
| `Sessions.TouchReachesStored` | addons/auth/session_store.go:148-166 | a touch moves the times of a session if and only if the session is stored, revoked or not |
| `Sessions.RevokedIsTouched` | addons/auth/session_store.go:148-166 | the times of a stored revoked session move and it stays revoked |
| `Sessions.Manager.Cookie` | addons/auth/session.go:311-362 | the store holds the new record and the payload describes it |
| `Sessions.Manager.Resolve` | addons/auth/session.go:457-517 | result and new store are those of the access function: lookup, checks, touch |
| `Sessions.AnsweredIff` | addons/auth/session.go:457-547 | for every store, cookie and clock: a request is answered if and only if the cookie is before its expiry and the record under its trimmed session ID is unrevoked, before both expiries, of a principal with an ID and at the cookie's version (and stored under its own ID where it is to be touched); the answer is its principal at that version; only its two times move, and an unanswered request changes nothing |
| `Sessions.KeyedAlways` | addons/auth/session_store.go:71-88 | in every store that is reached each record is stored under its own trimmed ID, so that last clause always holds |
| `Sessions.RequestVerdict` | addons/auth/session.go:486-517 | a request with the session's cookie is accepted exactly while the session is alive |
| `Sessions.SessionLifetime` | addons/auth/session.go:311-517 | after any sequential history, a request is accepted if and only if the session is unrevoked and before both rounded expiries, the idle one counted from the last accepted request |
| `Sessions.RevocationIsPermanent` | addons/auth/session.go:383-438 | after a revoke of a session or its principal took effect, every later lookup is unauthenticated, whatever steps of other requests come in between, as long as nothing is issued under its own ID |
| `Sessions.RevivedIff` | addons/auth/session_store.go:71-88 | a revoked session answers again at some later state if and only if a step in between issues a session under its ID |
| `DefaultManager.NextInv` | addons/auth/session.go:194-233 | every step of every call keeps the lock invariant |
| `DefaultManager.NeverReplaced` | addons/auth/session.go:210-233 | no step of DefaultSessions replaces a manager that is already there |
| `DefaultManager.BuiltOnce` | addons/auth/session.go:210-233 | without Configure, construction succeeds at most once and all successful callers get the same manager |
| `DefaultManager.ManagerStays` | addons/auth/session.go:196-233 | without Configure, a manager once there stays |
| `DefaultManager.NoDeadlock` | addons/auth/session.go:194-233 | in every run, while a call is under way some call can take a step, and every step brings its call nearer its end |
| `Passwords.DecodeRendered` | addons/auth/password.go:125-143 | decoding a record returns exactly the encoded iterations, salt and key |
| `Passwords.RenderInjective` | addons/auth/password.go:66-89 | different parts give different records |
| `Passwords.PasswordRoundTrip` | addons/auth/password.go:66-143 | for every password, salt and valid iteration count the record decodes to its parts and VerifyPassword accepts it |
| `Passwords.VerifyIff` | addons/auth/password.go:91-143 | exactly which stored texts accept a password: four parts with an iteration count between 600000 and 2000000, a 16-byte salt and the derived 32-byte key |
| `Base64.DecodeEncode` | addons/auth/session.go:561-622 | decoding what was encoded gives the bytes back, in both alphabets without padding |
| `Base64.GroupBits` | addons/auth/session.go:561-622 | three bytes become four groups of the same 24-bit number, one or two bytes are filled up with zero bits |
| `Migrations.Database.ApplyMigrations` | addons/db/migrate.go:75-147 | the loop inside the transaction, committed or rolled back, leaves the database and the report of Migrate |
| `Migrations.SucceedsIff` | addons/db/migrate.go:75-204 | a run succeeds if and only if it meets no fault, every file is readable with a name of at most 255 characters, and every file already recorded is recorded under its current checksum; the new log is then the old one followed by exactly the statements of the unrecorded files, in order |
| `Migrations.RunKeepsSound` | addons/db/tx.go:12-39 | a run keeps the database sound, loses no record, and a failing run leaves it unchanged |
| `Migrations.ExactlyOnce` | addons/db/migrate.go:75-204 | over any history of runs, failures included, each recorded migration's statement was committed exactly once, nothing is pending and earlier records stand |
| `Migrations.RunFiles` | addons/db/migrate.go:149-167 | the files of a run are the SQL files of the tree, each once, in lexical order |
| `Migrations.SuccessReport` | addons/db/migrate.go:75-147 | Applied and Skipped are the sorted files split by whether they were recorded, and every file ends with its current checksum |
| `Migrations.RerunAppliesNothing` | addons/db/migrate.go:181-204 | running the same files again changes nothing, applies nothing, and succeeds without faults |
| `MigrationRaces.NextInv` | addons/db/migrate.go:98-140 | every statement of every interleaved run keeps the tracking table and log sound, the rows in hand of different runs apart, and loses no record |
| `MigrationRaces.ExactlyOnceInterleaved` | addons/db/migrate.go:98-204 | for any number of runs over any file trees, interleaved statement by statement and aborted anywhere, each recorded migration has been committed exactly once at every moment and earlier records stand |
| `MigrationRaces.CommittedRunIsRecorded` | addons/db/migrate.go:98-147 | a run that commits leaves every file of its tree recorded under its current checksum, whichever run applied it |
| `MigrationRaces.FinalizeFindsItsRow` | addons/db/migrate.go:124-137 | the update that finalizes a reservation finds its row, and no other run holds or has committed that name |
| `MigrationRaces.RunAlone` | addons/db/migrate.go:75-147 | a successful run that is left alone is one of the interleaved histories and ends in the database the sequential program leaves |
| `Handlers.ActionSafe` | internal/appgen/source_actions.go:191-358 | every run of an emitted action is a prefix of its milestones followed by one response and true |
| `Handlers.ActionGuarantee` | internal/appgen/source_actions.go:191-535 | the bound function runs only for a guarded, bound action, after every declared guard but the public marker was registered, or native and satisfied, and let the request through, on a valid submission when the action validates, behind body cap, rate limit, guards in declared order, parse, CSRF, decoding and validation; it does run when nothing is in the way; every run answers once |
| `Handlers.ApiGuarantee` | internal/appgen/source_api.go:64-142 | the same for APIs, both directions, with CSRF for state-changing methods before any decoding |
| `Handlers.FragmentGuarantee` | internal/appgen/source_fragments.go:64-160 | the same for fragments, behind rate limit and guards |
| `Handlers.ContractGuarantee` | internal/appgen/source_contracts.go:40-239 | the same for commands and queries, commands also behind body cap, parse and CSRF; the events of a command are dispatched only after it ran, and then always when nothing is in the way |
| `Handlers.ActionInvalid` | internal/appgen/source_actions.go:401-496 | a submission that breaks a required field or a rule never reaches the application function |
| `Handlers.ExecValidation` | internal/appgen/source_actions.go:401-496 | the emitted validation lets a run on exactly when the submission holds every required field and meets every rule, and otherwise answers it |
| `Handlers.HandlerOnlyAfterGates` | internal/appgen/source_actions.go:191-240 | statements that end in milestones reach the application code only after all gates before it, and write exactly one response, last |
| `Handlers.GateRateLimit` | internal/appgen/source_rate_limit.go:43-77 | the emitted limiter check lets a run pass only when no limiter is registered or it allowed the request, and otherwise answers once |
| `Handlers.GateGuards` | internal/appgen/source_guards.go:104-140 | the emitted guard check passes in order the milestones of the guards it runs, lets a run through when none is in the way, and otherwise answers once |
| `Guards.RunGuardsWithAuth` | runtime/guard/guard.go:25-41 | the loop over the names computes the verdict and how many guards ran, stopping at the first that is missing or refuses |
| `Guards.RuntimeGuardNamesAre` | internal/appgen/source_guards.go:202-211 | the names checked at run time are exactly the declared guards that are not the public marker, in declared order |
| `Guards.AdmitsIff` | runtime/guard/guard.go:71-110 | a name admits if and only if it is registered, or it is `role:` or `permission:` with a text that names one of the principal's, once trimmed |
| `Guards.RunPassesIff` | runtime/guard/guard.go:25-41 | a run gets past its first k guards if and only if each of them is registered or native and lets the request through at its turn |
| `Guards.RunAdmits` | runtime/guard/guard.go:25-110 | every guard a run got past is registered, or native and satisfied by the principal; the one it stops at is missing, unsatisfied or refused |
| `Guards.RunStopsAtMissing` | runtime/guard/guard.go:25-41 | a run never gets past a name that is neither registered nor native and satisfied |
| `Handlers.GateCsrf` | internal/appgen/source_api.go:353-368 | the emitted CSRF check lets a run pass only when no validator is registered or it accepted the token |
| `SsrRoutes.CommonPathIffCleanOverlap` | runtime/route/route.go:13-101 | two valid routes serve a common path if and only if the overlap test holds on their cleaned segments |
| `RouteSyntax.ParseRoutePattern` | internal/source/routes.go:30-183 | the loop over the segments with its parameter counts computes the issues, normalised text and parameters of a route |
| `RouteRoundTrip.CompiledIff` | internal/source/routes.go:30-261 | exactly which texts the compiler accepts: slashes before literal segments without special, space or control characters and other than dot segments, `{name}`, `{name:kind}` and, last, `{name...}`, with distinct names and known kinds |
| `RouteRoundTrip.ParseWritten` | internal/source/routes.go:30-261 | reading such a text gives its normal form, its parameters in order, its rest parameter and no issue |
| `RouteSyntax.CompiledRoute` | internal/source/routes.go:30-183 | a route without issues is valid for the generator, has no empty or dot segment, and normalises to the same pattern in both |
| `RouteSyntax.CompiledOverlapExact` | internal/appgen/validate_ssr.go:140-207 | on compiled routes ssrRoutePatternsOverlap holds if and only if some request path matches both |
| `RouteSyntax.CompiledDispatch` | internal/appgen/source_ssr.go:12-58 | in every accepted table of compiled routes no path matches two dynamic routes, and every reordering serves every path by the same page |
| `RouteTables.MatchesIff` | runtime/route/route.go:13-101 | a compiled route serves exactly the paths without empty, dot or dot-dot segments whose segments fit it: literals themselves, a parameter any one, a rest parameter one or more |
| `RouteTables.AcceptedIff` | internal/appgen/validate_ssr.go:10-138 | a table of compiled routes is accepted if and only if every entry has a page, HTML, a known error page if any and proper distinct replacements for its own parameters, no two routes are the same up to names and kinds, and no two dynamic ones serve a common path |
| `RouteTables.ServedIff` | internal/appgen/source_ssr.go:12-58 | in an accepted table of compiled routes a path is served by the static entry that it spells, and by the one dynamic entry it fits |
| `RouteTables.CleanLaws` | runtime/route/route.go:94-101 | cleaning a path drops empty and dot segments, dot-dot takes the segment before it along, and nothing else changes |
| `RouteSyntax.DotSegmentRejected` | internal/source/routes.go:82-93 | the compiler rejects a route that ends in a dot segment |
| `SsrRoutes.OverlapRightIff` | internal/appgen/validate_ssr.go:157-207 | for every valid route: the test is right about it and every canonical route if and only if the route is canonical itself |
| `SsrRoutes.OverlapMissesExample` | internal/appgen/validate_ssr.go:157-182 | `/{a}/.` and `/{b}`, which only a caller that skips the compiler can hand over, are valid, pass the test and both serve `/x` |
| `SsrRoutes.ValidateSSRRoutes` | internal/appgen/validate_ssr.go:10-55 | the loop accepts if and only if every entry is valid and no two clash, and normalises error pages in place |
| `SsrRoutes.AtMostOneDynamicIff` | internal/appgen/source_ssr.go:32-58 | in every accepted table no path matches two dynamic routes if and only if no two dynamic entries overlap after cleaning |
| `SsrRoutes.DispatchOrderIff` | internal/appgen/source_ssr.go:12-58 | for every accepted table dispatch is the same under all reorderings if and only if no two dynamic entries overlap after cleaning |
| `Realtime.CollectStreams` | internal/appgen/source_realtime.go:120-159 | one stream for each distinct route and guard list, the first of each, in order |
| `RealtimeProgram.SortStreamsSorts` | internal/appgen/source_realtime.go:160-165 | the sort leaves a permutation ordered by route and then by guards |
| `RealtimeProgram.StreamRoutes` | internal/appgen/source_realtime.go:120-183 | collecting, sorting and labelling give the streams and the label table of the program, every stream under the label of its route |
| `Realtime.AssignLabels` | internal/appgen/source_realtime.go:120-183 | labels are one-to-one with routes and every stream carries the label of its route |
| `Realtime.StreamKeyRoute` | internal/appgen/source_realtime.go:120-172 | equal stream keys of routes without NUL have equal routes |
| `Realtime.BuildTables` | internal/appgen/source_realtime.go:185-280 | the loops that fill the audience and broadcast tables, and the sort of the audiences, reflect exactly the claims |
| `RealtimeProgram.LabelledIff` | internal/appgen/source_realtime.go:105-183 | a route is labelled if and only if it is the route of a page that owns a bound subscription or invalidation |
| `RealtimeProgram.EntriesCovered` | internal/appgen/source_realtime.go:120-280 | every bound subscription or invalidation on a page with a route has that route labelled, so it is never broadcast for want of a label |
| `Realtime.QueryInvalidationAudienceEvents` | internal/appgen/source_realtime.go:709-793 | the emitted loops produce one event for unscoped queries and one for each audience, with the queries filed under it |
| `Realtime.FanOutReceived` | internal/appgen/source_realtime.go:656-793 | how often any client receives a query, from its labels and the tables |
| `Realtime.SingleLabelDelivery` | addons/realtime/realtime.go:55-57 | a client with one label receives a query as often as the notice lists it if it is broadcast, has no audiences or lists the label, and otherwise never |
| `RealtimeProgram.RouteHears` | internal/appgen/source_realtime.go:226-280 | end to end: a client labelled with a route receives a query as often as the notice lists it if the query is not scoped or a page with that route owns a bound invalidation of it, and otherwise never |
| `RealtimeProgram.EntryIff` | internal/appgen/source_realtime.go:58-92 | a query and a route make an entry exactly when a bound invalidation of the query is owned by a page with the route |
| `RealtimeProgram.StrangerHears` | internal/appgen/source_realtime.go:226-280 | a client without a label receives exactly the queries that are not scoped |
| `RealtimeProgram.RouteReceivesEvent` | internal/appgen/source_realtime.go:185-224 | end to end: a client labelled with a route receives a subscribed event once if the event is not scoped or a page with that route subscribes to it, and otherwise not at all |
| `RealtimeProgram.ClientRouteIff` | internal/appgen/source_realtime.go:594-616 | a client on a path gets the label of a route if and only if the route is labelled, matches the path, and no labelled route before it in byte order matches too |
| `RealtimeProgram.OtherPagesLabel` | internal/appgen/source_realtime.go:594-616 | so with `/{id}` and `/~x` both labelled, a client on `/~x` does not get the label of its own page |
| `RealtimeProgram.ClientHears` | internal/appgen/source_realtime.go:594-793 | what the client on a path receives of a query, from its label and the entries |
| `RealtimePages.RoutesByPageIff` | internal/appgen/source_realtime.go:105-118 | the route of a page is the last one declared under its ID that is not blank |
| `RealtimePages.LiveIff` | internal/appgen/source_realtime.go:30-183 | a route is labelled if and only if a bound invalidation or subscription is owned by a page with that route |
| `RealtimePages.StreamsIff` | internal/appgen/source_realtime.go:120-183 | every stream comes from a bound entry on its route with the guards it checks at run time, and every such entry has one |
| `RealtimePages.ClientReceives` | internal/appgen/source_realtime.go:594-793 | from the program alone: a client on a path receives of a presentation event all that the notice lists of a query, unless only pages with routes invalidate it and none with the client's route does |
| `RealtimePages.ClientReceivesEvent` | internal/appgen/source_realtime.go:594-707 | and of any other event one copy if a page listens to it, unless only pages with routes listen and none with the client's route does; otherwise nothing |
| `RealtimePages.AllSentOn` | internal/appgen/source_realtime.go:656-793 | apart from the queries it lists and the label it gains, an event is sent on as it came |
| `Realtime.SubscriptionDelivery` | internal/appgen/source_realtime.go:656-707 | a subscribed event reaches a one-label client exactly once or not at all, as its audiences say |
| `EnvContract.Validate` | gowdk.go:316-375 | the two loops report exactly the diagnostics of the specification, in order |
| `EnvContract.DiagnosticIff` | gowdk.go:316-384 | a diagnostic is reported if and only if it is true: a blank name, a name declared twice, a variable whose name ends like a secret's, a required variable without default or a required secret that is not set, a secret that is set to less than its minimum |
| `EnvContract.ValidateEnvContractDecl` | internal/appgen/source_env.go:99-176 | the emitted statements, in order, or nothing when no runtime check is needed |
| `EnvContract.EmittedContractAgrees` | internal/appgen/source_env.go:99-176 | for every structurally sound configuration whose checked names are trimmed and every environment, the emitted check and EnvConfig.Validate give the same verdict and the same error text |
| `EnvContract.AgreesIff` | internal/appgen/source_env.go:99-176 | for a structurally sound configuration they agree in every environment if and only if every name that can be reported at run time is trimmed |
| `EnvContract.UntrimmedNameDiffers` | internal/appgen/source_env.go:129-140 | the required variable ` A`, set as `A`, satisfies Validate and is missed by the emitted check |

## Left out

- The Go expression subset below build expressions (`parser.ParseExpr`, `buildEvalAST`) is an arbitrary leaf evaluator; the texts of evaluation errors are not modelled.
- Numbers of build expressions are reals; a loop index is exact where Go converts it to float64.
- Remediation texts and the triage metadata of `EnrichFindings` are not part of a finding; message texts are an arbitrary wording of a message datatype.
- Security header checks of `headers.go` are an uninterpreted function; only that their findings carry registry severities and codes without NUL and are not suppressed is used.
- The evaluation functions of single audit rules and the collection of raw-HTML allow and except rules are functions over sequences, not loops.
- `PoliciesFromIR` and finding order (`SortFindings`) would only add easy members; declared policies are assumed not to be built in, and selectors to come out of `ParseSelector`, as `PoliciesFromIR` leaves them.
- AuditBaseline.BaselineMonotone: speaks of finding keys; the same code and severity follow for the shipped baseline (`ComposedBaselineHolds`), the same target, source and message only for fields without NUL, which the joined key cannot tell apart (`KeyFields`).
- The default of the waiver clock to the package clock is the caller's choice of `now`.
- Sessions: `UpdateSession`, cookie attributes, HTTP plumbing and JSON are not modelled; a rotation is a revoke followed by an issue, and randomness is a fresh ID.
- Sessions.InMemorySessionStore: each method is one atomic step, as its mutex makes it; the clone helpers have no counterpart because records are values.
- Migrations: a commit that fails is taken not to have committed, user SQL leaves the tracking table alone, and the database honours rollback; panics inside the transaction callback are not modelled.
- Handlers: panics and their recovery boundaries, tracing statements, response contents and validation messages are not modelled; what a submission holds for a field is a parameter; a missing limiter or validator passes, as in the emitted code.
- SSR route bodies, replacements and HTML escaping are not modelled beyond the checks of `validateSSRRoutes`.
- Realtime: the sorts of bound subscriptions and invalidations before they are read are not modelled, because every result holds for any order of them; a client's path is given, and how it is read from the Referer header is not modelled; page routes are routes the compiler accepts.
- MigrationRaces: what the database does for concurrent transactions is an assumption (committed rows or a stale part of them are visible, the primary key admits one holder of a name, commit and rollback are atomic); deadlocks and timeouts are aborts.
- Guards: a guard function's own verdict is an oracle per call, and panics inside guards are not modelled.
- Process execution, file system plumbing, addon constructors and editor support are not modelled.
