/**
 What selectors and globs select, said on the texts themselves: the meaning of the matching
 functions of internal/auditspec/engine.go.
 */
module AuditSelectors {
  import opened Text
  import opened AuditTypes
  import opened AuditMatch

  // ------------------------------------------------------------------- one token

  /** A glob accepts itself; with a star at the end everything that begins with its stem; and the empty glob everything. */
  ghost predicate Accepts(glob: string, value: string) {
    glob == "" || glob == value || exists stem, rest :: glob == stem + "*" && value == stem + rest
  }

  lemma GlobIff(glob: string, value: string)
    ensures MatchGlob(glob, value) <==> Accepts(glob, value)
  {
    if glob != "" && glob[|glob| - 1] == '*' {
      var stem := glob[..|glob| - 1];
      assert glob == stem + "*";
      if stem <= value {
        assert value == stem + value[|stem|..];
      }
      forall other, rest | glob == other + "*" && value == other + rest
        ensures stem <= value
      {
        assert other == stem;
      }
    }
  }

  // ------------------------------------------------------------------- path segments

  predicate AllSlashes(s: string) {
    forall i | 0 <= i < |s| :: s[i] == '/'
  }

  /** The segments of a path: its text between slashes, without slashes at either end. */
  ghost predicate HasSegments(path: string, segments: seq<string>) {
    && segments != [] && (forall i | 0 <= i < |segments| :: '/' !in segments[i])
    && (segments == [""] || (segments[0] != "" && segments[|segments| - 1] != ""))
    && exists lead, tail :: AllSlashes(lead) && AllSlashes(tail) && path == lead + Join(segments, "/") + tail
  }

  lemma {:induction false} TrimLeftSlashes(lead: string, s: string)
    requires AllSlashes(lead) && (s == "" || s[0] != '/')
    ensures TrimCharLeft(lead + s, '/') == s
  {
    if lead == "" {
      assert lead + s == s;
    } else {
      assert (lead + s)[1..] == lead[1..] + s;
      TrimLeftSlashes(lead[1..], s);
    }
  }

  lemma {:induction false} TrimRightSlashes(s: string, tail: string)
    requires AllSlashes(tail) && (s == "" || s[|s| - 1] != '/')
    ensures TrimCharRight(s + tail, '/') == s
  {
    if tail == "" {
      assert s + tail == s;
    } else {
      var before := tail[..|tail| - 1];
      assert (s + tail)[..|s + tail| - 1] == s + before;
      TrimRightSlashes(s, before);
    }
  }

  lemma {:induction false} LeftSlashes(s: string) returns (lead: string)
    ensures AllSlashes(lead) && s == lead + TrimCharLeft(s, '/')
  {
    lead := "";
    if s != "" && s[0] == '/' {
      var more := LeftSlashes(s[1..]);
      lead := [s[0]] + more;
    }
  }

  lemma {:induction false} RightSlashes(s: string) returns (tail: string)
    ensures AllSlashes(tail) && s == TrimCharRight(s, '/') + tail
  {
    tail := "";
    if s != "" && s[|s| - 1] == '/' {
      var more := RightSlashes(s[..|s| - 1]);
      tail := more + [s[|s| - 1]];
    }
  }

  /** Joined segments neither begin nor end with a slash. */
  lemma JoinedEnds(segments: seq<string>)
    requires segments != [] && forall i | 0 <= i < |segments| :: '/' !in segments[i]
    requires segments == [""] || (segments[0] != "" && segments[|segments| - 1] != "")
    ensures var text := Join(segments, "/"); text == "" || (text[0] != '/' && text[|text| - 1] != '/')
  {
    if segments != [""] {
      JoinStart(segments);
      JoinEnd(segments);
      assert segments[0][0] in segments[0];
      var last := segments[|segments| - 1];
      assert last[|last| - 1] in last;
    }
  }

  lemma JoinStart(segments: seq<string>)
    requires segments != []
    ensures segments[0] <= Join(segments, "/")
  {
    if |segments| > 1 {
      assert Join(segments, "/") == segments[0] + ("/" + Join(segments[1..], "/"));
    }
  }

  lemma {:induction false} JoinEnd(segments: seq<string>)
    requires segments != []
    ensures HasSuffix(Join(segments, "/"), segments[|segments| - 1])
  {
    if |segments| > 1 {
      JoinEnd(segments[1..]);
      var rest, last := Join(segments[1..], "/"), segments[|segments| - 1];
      assert segments[1..][|segments[1..]| - 1] == last;
      assert Join(segments, "/")[|Join(segments, "/")| - |last|..] == rest[|rest| - |last|..];
    }
  }

  lemma SegmentsIff(path: string, segments: seq<string>)
    ensures Segments(path) == segments <==> HasSegments(path, segments)
  {
    SegmentsHold(path);
    if HasSegments(path, segments) {
      SegmentsUnique(path, segments);
    }
  }

  lemma SegmentsHold(path: string)
    ensures HasSegments(path, Segments(path))
  {
    var lead := LeftSlashes(path);
    var tail := RightSlashes(TrimCharLeft(path, '/'));
    var core := TrimChar(path, '/');
    assert path == lead + core + tail;
    TrimCharEnds(path, '/');
    JoinSplit(core, '/');
    assert ['/'] == "/";
    assert core != "" ==> core[|core| - 1..] == [core[|core| - 1]];
    CoreSegments(core);
  }

  lemma CoreSegments(core: string)
    requires !HasPrefix(core, "/") && !HasSuffix(core, "/")
    ensures var segments := Split(core, '/');
            && (forall i | 0 <= i < |segments| :: '/' !in segments[i])
            && (segments == [""] || (segments[0] != "" && segments[|segments| - 1] != ""))
  {
    SplitParts(core);
    var segments := Split(core, '/');
    JoinSplit(core, '/');
    if |segments| > 1 {
      JoinStart(segments);
      JoinEnd(segments);
      assert Join(segments, "/") == segments[0] + "/" + Join(segments[1..], "/");
      assert segments[0] == "" ==> HasPrefix(core, "/");
      JoinBack(segments);
      assert segments[|segments| - 1] == "" ==> HasSuffix(core, "/");
    }
  }

  lemma {:induction false} JoinBack(segments: seq<string>)
    requires |segments| > 1
    ensures HasSuffix(Join(segments, "/"), "/" + segments[|segments| - 1])
  {
    var whole, last := Join(segments, "/"), "/" + segments[|segments| - 1];
    if |segments| == 2 {
      assert segments[1..] == [segments[1]] && Join([segments[1]], "/") == segments[1];
      assert whole == segments[0] + "/" + segments[1] == segments[0] + last;
      assert whole[|whole| - |last|..] == last;
    } else {
      JoinBack(segments[1..]);
      var rest := Join(segments[1..], "/");
      assert segments[1..][|segments[1..]| - 1] == segments[|segments| - 1];
      assert whole == segments[0] + "/" + rest;
      assert whole[|whole| - |last|..] == rest[|rest| - |last|..];
    }
  }

  lemma {:induction false} SplitParts(s: string)
    ensures forall i | 0 <= i < |Split(s, '/')| :: '/' !in Split(s, '/')[i]
  {
    if s != "" {
      SplitParts(s[1..]);
    }
  }

  lemma SegmentsUnique(path: string, segments: seq<string>)
    requires HasSegments(path, segments)
    ensures Segments(path) == segments
  {
    var lead, tail :| AllSlashes(lead) && AllSlashes(tail) && path == lead + Join(segments, "/") + tail;
    var core := Join(segments, "/");
    JoinedEnds(segments);
    if core == "" {
      AllTrimmed(lead, tail);
    } else {
      assert path == lead + (core + tail);
      TrimLeftSlashes(lead, core + tail);
      TrimRightSlashes(core, tail);
    }
    assert ['/'] == "/";
    SplitJoin(segments, '/');
  }

  lemma AllTrimmed(lead: string, tail: string)
    requires AllSlashes(lead) && AllSlashes(tail)
    ensures TrimChar(lead + "" + tail, '/') == ""
  {
    assert lead + "" + tail == (lead + tail) + "";
    TrimLeftSlashes(lead + tail, "");
  }

  // ------------------------------------------------------------------- selectors

  /** The kinds of endpoint a selector prefix stands for. */
  predicate Denotes(prefix: string, kind: string) {
    || ((prefix == "act" || prefix == "action") && kind == "action")
    || (prefix == kind && (kind == "api" || kind == "fragment" || kind == "command" || kind == "query"))
  }

  /** An endpoint selector is kind:glob, the glob on the ID or on the path; a route selector is a route glob on the path. */
  ghost predicate SelectsEndpoint(s: Selector, e: Endpoint) {
    match s.kind
    case EndpointSelector =>
      exists prefix, glob :: s.raw == prefix + ":" + glob && Denotes(prefix, e.kind) && (Accepts(glob, e.id) || Accepts(glob, e.path))
    case RouteSelector => RouteGlobAccepts(s.raw, e.path)
    case _ => false
  }

  /** A route glob, segment by segment. */
  ghost predicate RouteGlobAccepts(glob: string, path: string) {
    exists pattern: seq<string>, segments: seq<string> ::
      HasSegments(glob, pattern) && HasSegments(path, segments) && SegmentsMatch(pattern, segments)
  }

  lemma RouteGlobIff(glob: string, path: string)
    ensures MatchRouteGlob(glob, path) <==> RouteGlobAccepts(glob, path)
  {
    SegmentsHold(glob);
    SegmentsHold(path);
    GlobSegmentsMeaning(Segments(glob), Segments(path));
    forall pattern: seq<string>, segments: seq<string> | HasSegments(glob, pattern) && HasSegments(path, segments)
      ensures pattern == Segments(glob) && segments == Segments(path)
    {
      SegmentsUnique(glob, pattern);
      SegmentsUnique(path, segments);
    }
  }

  lemma {:induction false} IndexOfFirst(prefix: string, c: char, rest: string)
    requires c !in prefix
    ensures IndexOf(prefix + [c] + rest, c) == |prefix|
  {
    var s := prefix + [c] + rest;
    if prefix != "" {
      assert s[1..] == prefix[1..] + [c] + rest;
      IndexOfFirst(prefix[1..], c, rest);
    }
  }

  lemma DenotesIff(prefix: string, kind: string)
    ensures EndpointKind(prefix) == Some(kind) <==> Denotes(prefix, kind)
    ensures Denotes(prefix, kind) ==> ':' !in prefix && prefix != ""
  {
  }

  lemma EndpointSelectorIff(raw: string, e: Endpoint)
    ensures EndpointSelected(Selector(raw, EndpointSelector), e) <==> SelectsEndpoint(Selector(raw, EndpointSelector), e)
  {
    var colon := IndexOf(raw, ':');
    if colon > 0 {
      var prefix, glob := raw[..colon], raw[colon + 1..];
      assert raw == prefix + ":" + glob;
      DenotesIff(prefix, e.kind);
      GlobOrStar(glob, e.id);
      GlobOrStar(glob, e.path);
    }
    forall prefix, glob | raw == prefix + ":" + glob && Denotes(prefix, e.kind)
      ensures colon == |prefix| > 0 && raw[..colon] == prefix && raw[colon + 1..] == glob
    {
      DenotesIff(prefix, e.kind);
      IndexOfFirst(prefix, ':', glob);
      assert [':'] == ":";
    }
  }

  /** kind:stem* selects the endpoints of the kind whose ID or path begins with the stem. */
  lemma StemSelects(prefix: string, stem: string, e: Endpoint)
    requires ':' !in prefix
    ensures SelectsEndpoint(Selector(prefix + ":" + stem + "*", EndpointSelector), e) <==>
              Denotes(prefix, e.kind) && (stem <= e.id || stem <= e.path)
  {
    var raw, glob := prefix + ":" + stem + "*", stem + "*";
    assert raw == prefix + ":" + glob && glob[..|glob| - 1] == stem;
    GlobIff(glob, e.id);
    GlobIff(glob, e.path);
    SelectorParts(prefix, glob, e);
  }

  /** kind:text selects the endpoint of the kind with that very ID or path. */
  lemma TextSelects(prefix: string, text: string, e: Endpoint)
    requires ':' !in prefix && text != "" && text[|text| - 1] != '*'
    ensures SelectsEndpoint(Selector(prefix + ":" + text, EndpointSelector), e) <==>
              Denotes(prefix, e.kind) && (text == e.id || text == e.path)
  {
    GlobIff(text, e.id);
    GlobIff(text, e.path);
    SelectorParts(prefix, text, e);
  }

  lemma SelectorParts(prefix: string, glob: string, e: Endpoint)
    requires ':' !in prefix
    ensures SelectsEndpoint(Selector(prefix + ":" + glob, EndpointSelector), e) <==>
              Denotes(prefix, e.kind) && (Accepts(glob, e.id) || Accepts(glob, e.path))
  {
    var raw := prefix + ":" + glob;
    assert [':'] == ":";
    IndexOfFirst(prefix, ':', glob);
    assert raw[..|prefix|] == prefix && raw[|prefix| + 1..] == glob;
    forall p, g | raw == p + ":" + g && Denotes(p, e.kind)
      ensures p == prefix && g == glob
    {
      DenotesIff(p, e.kind);
      IndexOfFirst(p, ':', g);
      assert raw[..|p|] == p && raw[|p| + 1..] == g;
    }
  }

  /** An absent glob is a star. */
  lemma GlobOrStar(glob: string, value: string)
    ensures MatchGlob(if glob == "" then "*" else glob, value) <==> Accepts(glob, value)
  {
    GlobIff(glob, value);
  }

  lemma EndpointIff(s: Selector, e: Endpoint)
    ensures EndpointSelected(s, e) <==> SelectsEndpoint(s, e)
  {
    match s.kind
    case EndpointSelector => EndpointSelectorIff(s.raw, e);
    case RouteSelector => RouteGlobIff(s.raw, e.path);
    case _ =>
  }

  /** A bare word selects everything of its sort; word:glob what the glob accepts by name or kind. */
  ghost predicate SelectsNamed(raw: string, word: string, name: string, kind: string) {
    raw == word || exists glob :: raw == word + ":" + glob && (Accepts(glob, name) || Accepts(glob, kind))
  }

  lemma NamedIff(raw: string, word: string, name: string, kind: string)
    requires word != "" && (raw == word || HasPrefix(raw, word + ":"))
    ensures (MatchGlob(SelectorGlob(raw, word), name) || MatchGlob(SelectorGlob(raw, word), kind)) <==> SelectsNamed(raw, word, name, kind)
  {
    var rest := raw[|word|..];
    assert raw == word + rest;
    if raw == word {
      assert rest == "" && TrimPrefix(rest, ":") == "";
    } else {
      var glob := raw[|word| + 1..];
      assert raw == word + ":" + glob && rest == ":" + glob && TrimPrefix(rest, ":") == glob;
      GlobOrStar(glob, name);
      GlobOrStar(glob, kind);
      forall other | raw == word + ":" + other
        ensures other == glob
      {
        assert raw[|word| + 1..] == other;
      }
    }
  }

  /** ParseSelector: what sort of selector a text is. */
  function ParseSelector(text: string): Selector {
    var raw := TrimSpace(text);
    if raw == "frontend" then Selector(raw, FrontendSelector)
    else if raw == "observability" || HasPrefix(raw, "observability:") then Selector(raw, ObservabilitySelector)
    else if raw == "contract" || HasPrefix(raw, "contract:") then Selector(raw, ContractSelector)
    else if HasPrefix(raw, "/") then Selector(raw, RouteSelector)
    else if SplitEndpointSelector(raw).Some? then Selector(raw, EndpointSelector)
    else Selector(raw, UnknownSelector)
  }

  /** Selectors as they come out of ParseSelector. */
  ghost predicate Parsed(s: Selector) {
    exists text :: s == ParseSelector(text)
  }

  ghost predicate SelectsContract(s: Selector, c: Contract) {
    s.kind == ContractSelector && SelectsNamed(s.raw, "contract", c.name, c.kind)
  }

  ghost predicate SelectsTrace(s: Selector, o: Observability) {
    s.kind == ObservabilitySelector && SelectsNamed(s.raw, "observability", o.id, o.kind)
  }

  ghost predicate SelectsRoute(s: Selector, r: Route) {
    s.kind == RouteSelector && RouteGlobAccepts(s.raw, r.route)
  }

  // ------------------------------------------------------------------- policies

  lemma MatchesEndpointIff(p: Policy, e: Endpoint)
    ensures MatchesEndpoint(p, e) <==> exists s :: s in p.selectors && SelectsEndpoint(s, e)
  {
    hide EndpointSelected, SelectsEndpoint;
    forall s
      ensures EndpointSelected(s, e) <==> SelectsEndpoint(s, e)
    {
      EndpointIff(s, e);
    }
  }

  lemma MatchesRouteIff(p: Policy, r: Route)
    ensures MatchesRoute(p, r) <==> exists s :: s in p.selectors && SelectsRoute(s, r)
  {
    hide MatchRouteGlob, RouteGlobAccepts;
    forall s: Selector
      ensures MatchRouteGlob(s.raw, r.route) <==> RouteGlobAccepts(s.raw, r.route)
    {
      RouteGlobIff(s.raw, r.route);
    }
  }

  lemma MatchesContractIff(p: Policy, c: Contract)
    requires forall s | s in p.selectors :: Parsed(s)
    ensures MatchesContract(p, c) <==> exists s :: s in p.selectors && SelectsContract(s, c)
  {
    hide SelectsNamed, MatchGlob, SelectorGlob, TrimSpace;
    forall s | s in p.selectors && s.kind == ContractSelector
      ensures ContractSelected(s.raw, c) <==> SelectsNamed(s.raw, "contract", c.name, c.kind)
    {
      assert "contract" + ":" == "contract:";
      NamedIff(s.raw, "contract", c.name, c.kind);
    }
  }

  lemma MatchesTraceIff(p: Policy, o: Observability)
    requires forall s | s in p.selectors :: Parsed(s)
    ensures MatchesObservability(p, o) <==> exists s :: s in p.selectors && SelectsTrace(s, o)
  {
    hide SelectsNamed, MatchGlob, SelectorGlob, TrimSpace;
    forall s | s in p.selectors && s.kind == ObservabilitySelector
      ensures ObservabilitySelected(s.raw, o) <==> SelectsNamed(s.raw, "observability", o.id, o.kind)
    {
      assert "observability" + ":" == "observability:";
      NamedIff(s.raw, "observability", o.id, o.kind);
    }
  }
}
