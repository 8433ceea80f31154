/**
 Selector and glob matching of internal/auditspec/engine.go.
 */
module AuditMatch {
  import opened Text
  import opened AuditTypes

  /** matchGlob: a literal token, or a prefix followed by a star. */
  predicate MatchGlob(pattern: string, value: string) {
    if pattern == "*" || pattern == "" then true
    else if pattern[|pattern| - 1] == '*' then HasPrefix(value, pattern[..|pattern| - 1])
    else pattern == value
  }

  function TrimPrefix(s: string, p: string): string {
    if HasPrefix(s, p) then s[|p|..] else s
  }

  /** The path segments a route glob is matched on. */
  function Segments(path: string): seq<string> {
    Split(TrimChar(path, '/'), '/')
  }

  predicate SegmentMatches(pattern: string, segment: string) {
    pattern == "*" || pattern == segment
  }

  /** matchSegments with its loop. */
  method MatchSegments(pattern: seq<string>, path: seq<string>) returns (matched: bool)
    ensures matched == SegmentsMatch(pattern, path)
  {
    for index := 0 to |pattern|
      invariant index <= |path| && "**" !in pattern[..index]
      invariant forall i | 0 <= i < index :: SegmentMatches(pattern[i], path[i])
    {
      assert pattern[..index + 1] == pattern[..index] + [pattern[index]];
      if pattern[index] == "**" {
        assert WildFrom(pattern, path, index);
        return true;
      }
      if index >= |path| {
        MissesAt(pattern, path, index);
        return false;
      }
      if pattern[index] == "*" {
        continue;
      }
      if pattern[index] != path[index] {
        MissesAt(pattern, path, index);
        return false;
      }
    }
    assert pattern[..|pattern|] == pattern;
    NotWild(pattern, path);
    return |pattern| == |path|;
  }

  /** The first ** stands at k, and everything before it matches segment by segment. */
  predicate WildFrom(pattern: seq<string>, path: seq<string>, k: nat) {
    && k < |pattern| && k <= |path| && pattern[k] == "**" && "**" !in pattern[..k]
    && (forall i | 0 <= i < k :: SegmentMatches(pattern[i], path[i]))
  }

  /** What a route glob means: segment by segment, up to the first ** or to the common end. */
  ghost predicate SegmentsMatch(pattern: seq<string>, path: seq<string>) {
    || (exists k :: WildFrom(pattern, path, k))
    || (&& "**" !in pattern && |pattern| == |path|
        && (forall i | 0 <= i < |pattern| :: SegmentMatches(pattern[i], path[i])))
  }

  lemma MissesAt(pattern: seq<string>, path: seq<string>, index: nat)
    requires index < |pattern| && "**" !in pattern[..index + 1]
    requires index >= |path| || !SegmentMatches(pattern[index], path[index])
    ensures !SegmentsMatch(pattern, path)
  {
    assert forall k | 0 <= k <= index :: pattern[..index + 1][k] == pattern[k];
  }

  lemma NotWild(pattern: seq<string>, path: seq<string>)
    requires "**" !in pattern
    ensures forall k :: !WildFrom(pattern, path, k)
  {
  }

  /** A route glob, as a function. */
  predicate GlobSegments(pattern: seq<string>, path: seq<string>) {
    if pattern == [] then path == []
    else if pattern[0] == "**" then true
    else path != [] && SegmentMatches(pattern[0], path[0]) && GlobSegments(pattern[1..], path[1..])
  }

  lemma {:induction false} GlobSegmentsMeaning(pattern: seq<string>, path: seq<string>)
    ensures GlobSegments(pattern, path) <==> SegmentsMatch(pattern, path)
  {
    if pattern == [] || pattern[0] == "**" {
      if pattern != [] {
        assert WildFrom(pattern, path, 0);
      }
    } else if path == [] {
      MissesAt(pattern, path, 0);
    } else {
      var tail, rest := pattern[1..], path[1..];
      GlobSegmentsMeaning(tail, rest);
      StepMeaning(pattern, path);
    }
  }

  lemma WildStep(pattern: seq<string>, path: seq<string>, k: nat)
    requires pattern != [] && pattern[0] != "**" && path != [] && SegmentMatches(pattern[0], path[0])
    ensures WildFrom(pattern[1..], path[1..], k) <==> WildFrom(pattern, path, k + 1)
  {
    var tail, rest := pattern[1..], path[1..];
    if k < |tail| && k <= |rest| {
      assert pattern[..k + 1] == [pattern[0]] + tail[..k];
      assert forall i | 0 <= i < k :: tail[i] == pattern[i + 1] && rest[i] == path[i + 1];
      assert forall i | 1 <= i < k + 1 :: pattern[i] == tail[i - 1] && path[i] == rest[i - 1];
    }
  }

  lemma PlainStep(pattern: seq<string>, path: seq<string>)
    requires pattern != [] && |pattern| == |path| && SegmentMatches(pattern[0], path[0])
    ensures (forall i | 0 <= i < |pattern| :: SegmentMatches(pattern[i], path[i]))
            <==> (forall i | 0 <= i < |pattern[1..]| :: SegmentMatches(pattern[1..][i], path[1..][i]))
  {
    var tail, rest := pattern[1..], path[1..];
    assert forall i | 1 <= i < |pattern| :: pattern[i] == tail[i - 1] && path[i] == rest[i - 1];
    assert forall i | 0 <= i < |tail| :: tail[i] == pattern[i + 1] && rest[i] == path[i + 1];
  }

  lemma StepMeaning(pattern: seq<string>, path: seq<string>)
    requires pattern != [] && pattern[0] != "**" && path != []
    ensures SegmentsMatch(pattern, path) <==> SegmentMatches(pattern[0], path[0]) && SegmentsMatch(pattern[1..], path[1..])
  {
    var tail, rest := pattern[1..], path[1..];
    if SegmentMatches(pattern[0], path[0]) {
      if k: nat :| WildFrom(pattern, path, k) {
        WildStep(pattern, path, k - 1);
      } else if k: nat :| WildFrom(tail, rest, k) {
        WildStep(pattern, path, k);
      }
      assert pattern == [pattern[0]] + tail;
      if |pattern| == |path| {
        PlainStep(pattern, path);
      }
    } else {
      MissesAt(pattern, path, 0);
    }
  }

  /**
   The documented meaning: a ** at the end stands for zero or more trailing segments, a star for
   exactly one segment, and every other segment for itself.
   */
  predicate DocumentedMatch(pattern: seq<string>, path: seq<string>) {
    if pattern != [] && pattern[|pattern| - 1] == "**"
    then |path| >= |pattern| - 1 && forall i | 0 <= i < |pattern| - 1 :: SegmentMatches(pattern[i], path[i])
    else |path| == |pattern| && forall i | 0 <= i < |pattern| :: SegmentMatches(pattern[i], path[i])
  }

  /** Nothing follows the first **. */
  predicate OnlyTrailing(pattern: seq<string>) {
    forall i | 0 <= i < |pattern| - 1 :: pattern[i] != "**"
  }

  /** A path the code accepts and the documentation does not, for a pattern that goes on after its first **. */
  function Overmatched(pattern: seq<string>, k: nat): seq<string>
    requires k < |pattern|
  {
    if k == 0 then ["c"] else pattern[..k]
  }

  /** The code matches as documented on every path if and only if nothing follows the first **. */
  lemma GlobAsDocumentedIff(pattern: seq<string>)
    ensures (forall path: seq<string> | path != [] :: GlobSegments(pattern, path) <==> DocumentedMatch(pattern, path)) <==> OnlyTrailing(pattern)
  {
    if OnlyTrailing(pattern) {
      forall path: seq<string>
        ensures GlobSegments(pattern, path) <==> DocumentedMatch(pattern, path)
      {
        GlobSegmentsMeaning(pattern, path);
        TrailingAgrees(pattern, path);
      }
    } else {
      var k := FirstWild(pattern);
      var path := Overmatched(pattern, k);
      GlobSegmentsMeaning(pattern, path);
      assert WildFrom(pattern, path, k);
      assert !DocumentedMatch(pattern, path);
    }
  }

  lemma {:induction false} FirstWild(pattern: seq<string>) returns (k: nat)
    requires !OnlyTrailing(pattern)
    ensures k < |pattern| - 1 && pattern[k] == "**" && "**" !in pattern[..k]
  {
    if pattern[0] == "**" {
      k := 0;
    } else {
      var tail := pattern[1..];
      var i :| 0 <= i < |pattern| - 1 && pattern[i] == "**";
      assert tail[i - 1] == "**";
      k := FirstWild(tail);
      k := k + 1;
      assert pattern[..k] == [pattern[0]] + tail[..k - 1];
    }
  }

  lemma TrailingAgrees(pattern: seq<string>, path: seq<string>)
    requires OnlyTrailing(pattern)
    ensures SegmentsMatch(pattern, path) <==> DocumentedMatch(pattern, path)
  {
    if pattern != [] && pattern[|pattern| - 1] == "**" {
      var k := |pattern| - 1;
      assert "**" !in pattern[..k];
      forall n: nat | WildFrom(pattern, path, n)
        ensures n == k
      {
      }
      assert DocumentedMatch(pattern, path) <==> WildFrom(pattern, path, k);
      assert "**" in pattern;
    } else {
      assert "**" !in pattern;
      NotWild(pattern, path);
    }
  }

  /** The smallest deviation: the code lets "c" match the glob of ** followed by "b". */
  lemma GlobIgnoresTail()
    ensures GlobSegments(["**", "b"], ["c"]) && !DocumentedMatch(["**", "b"], ["c"])
  {
    assert ["**", "b"][1] == "b";
  }

  predicate MatchRouteGlob(pattern: string, path: string) {
    GlobSegments(Segments(pattern), Segments(path))
  }

  /** endpointKindForSelector. */
  function EndpointKind(prefix: string): Option<string> {
    if prefix == "act" || prefix == "action" then Some("action")
    else if prefix == "api" || prefix == "fragment" || prefix == "command" || prefix == "query" then Some(prefix)
    else None
  }

  function IndexOf(s: string, c: char): (i: int)
    ensures -1 <= i < |s| && (i >= 0 ==> s[i] == c)
  {
    if s == "" then -1
    else if s[0] == c then 0
    else
      var i := IndexOf(s[1..], c);
      if i < 0 then -1 else i + 1
  }

  /** splitEndpointSelector: the endpoint kind and glob of "kind:glob". */
  function SplitEndpointSelector(raw: string): Option<(string, string)> {
    var colon := IndexOf(raw, ':');
    if colon <= 0 then None
    else
      var kind, glob := EndpointKind(raw[..colon]), raw[colon + 1..];
      if kind.None? then None else Some((kind.value, if glob == "" then "*" else glob))
  }

  predicate EndpointSelected(selector: Selector, e: Endpoint) {
    match selector.kind
    case EndpointSelector =>
      var parsed := SplitEndpointSelector(selector.raw);
      parsed.Some? && parsed.value.0 == e.kind && (MatchGlob(parsed.value.1, e.id) || MatchGlob(parsed.value.1, e.path))
    case RouteSelector => MatchRouteGlob(selector.raw, e.path)
    case _ => false
  }

  predicate MatchesEndpoint(policy: Policy, e: Endpoint) {
    exists s | s in policy.selectors :: EndpointSelected(s, e)
  }

  predicate MatchesRoute(policy: Policy, r: Route) {
    exists s | s in policy.selectors :: s.kind == RouteSelector && MatchRouteGlob(s.raw, r.route)
  }

  /** contractSelectorGlob, and the same for observability. */
  function SelectorGlob(raw: string, word: string): string {
    var glob := TrimPrefix(TrimPrefix(raw, word), ":");
    if glob == "" then "*" else glob
  }

  predicate MatchesContract(policy: Policy, c: Contract) {
    exists s | s in policy.selectors :: s.kind == ContractSelector && ContractSelected(s.raw, c)
  }

  predicate ContractSelected(raw: string, c: Contract) {
    var glob := SelectorGlob(raw, "contract");
    MatchGlob(glob, c.name) || MatchGlob(glob, c.kind)
  }

  predicate MatchesObservability(policy: Policy, o: Observability) {
    exists s | s in policy.selectors :: s.kind == ObservabilitySelector && ObservabilitySelected(s.raw, o)
  }

  predicate ObservabilitySelected(raw: string, o: Observability) {
    var glob := SelectorGlob(raw, "observability");
    MatchGlob(glob, o.id) || MatchGlob(glob, o.kind)
  }

  predicate HasFrontendSelector(policy: Policy) {
    exists s | s in policy.selectors :: s.kind == FrontendSelector
  }
}
