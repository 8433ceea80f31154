/**
 Overlap of generated SSR routes, internal/appgen/validate_ssr.go, measured against the request
 matcher the generated code calls, runtime/route/route.go, and the dispatch order of
 internal/appgen/source_ssr.go.
 */
module SsrRoutes {
  import opened Text

  // ------------------------------------------------- patterns as the compiler sees them

  /** ssrRoutePatternSegments. */
  function Segments(route: string): seq<string> {
    var trimmed := TrimChar(route, '/');
    if trimmed == "" then [] else Split(trimmed, '/')
  }

  predicate IsParam(segment: string) {
    HasPrefix(segment, "{") && HasSuffix(segment, "}")
  }

  predicate IsRest(segment: string) {
    HasPrefix(segment, "{") && HasSuffix(segment, "...}")
  }

  function PatternSegment(segment: string): string {
    if IsParam(segment) then (if HasSuffix(segment, "...}") then "{**}" else "{}") else segment
  }

  function PatternSegments(segments: seq<string>): (r: seq<string>)
    ensures |r| == |segments| && forall i | 0 <= i < |r| :: r[i] == PatternSegment(segments[i])
  {
    seq(|segments|, i requires 0 <= i < |segments| => PatternSegment(segments[i]))
  }

  /** ssrRoutePattern: the route with its parameter names removed. */
  function SsrRoutePattern(route: string): string {
    "/" + Join(PatternSegments(Segments(route)), "/")
  }

  predicate HaveRest(segments: seq<string>) {
    segments != [] && segments[|segments| - 1] == "{**}"
  }

  /** ssrSegmentsCompatible. */
  predicate Compatible(left: seq<string>, right: seq<string>)
    requires |left| <= |right|
  {
    forall i | 0 <= i < |left| :: left[i] == "{}" || right[i] == "{}" || left[i] == right[i]
  }

  predicate SegmentsOverlap(left: seq<string>, right: seq<string>)
    decreases if HaveRest(left) then 0 else 1
  {
    if HaveRest(left) && HaveRest(right) then
      var prefix := if |right| < |left| then |right| - 1 else |left| - 1;
      Compatible(left[..prefix], right[..prefix])
    else if HaveRest(left) then
      |right| >= |left| && Compatible(left[..|left| - 1], right[..|left| - 1])
    else if HaveRest(right) then SegmentsOverlap(right, left)
    else |left| == |right| && Compatible(left, right)
  }

  /** ssrRoutePatternsOverlap, on pattern texts. */
  predicate PatternsOverlap(left: string, right: string) {
    SegmentsOverlap(Segments(left), Segments(right))
  }

  // ----------------------------------------------------------- route validation

  predicate IsIdentifier(s: string) {
    && s != ""
    && !IsDigit(s[0])
    && forall i | 0 <= i < |s| :: 'a' <= s[i] <= 'z' || 'A' <= s[i] <= 'Z' || IsDigit(s[i]) || s[i] == '_'
  }

  predicate ContainsBrace(s: string) {
    exists i | 0 <= i < |s| :: s[i] == '{' || s[i] == '}'
  }

  function BeforeColon(s: string): string {
    if s == "" || s[0] == ':' then "" else [s[0]] + BeforeColon(s[1..])
  }

  /** The name a parameter segment binds. */
  function ParamName(segment: string): string
    requires IsParam(segment) && |segment| >= 2
  {
    var name := segment[1..|segment| - 1];
    BeforeColon(if HasSuffix(name, "...") then name[..|name| - 3] else name)
  }

  /** One segment of validateSSRRoutePattern. */
  predicate ValidSegment(segment: string, last: bool) {
    ContainsBrace(segment) ==>
      && IsParam(segment)
      && (forall i | 1 <= i < |segment| - 1 :: segment[i] != '{' && segment[i] != '}')
      && |segment| >= 2
      && var name := segment[1..|segment| - 1];
         && (HasSuffix(name, "...") ==> last && ':' !in name)
         && IsIdentifier(ParamName(segment))
  }

  predicate ValidSegments(segments: seq<string>) {
    && (forall i | 0 <= i < |segments| :: ValidSegment(segments[i], i == |segments| - 1))
    && (forall i, j | 0 <= i < j < |segments| && IsParam(segments[i]) && IsParam(segments[j]) && |segments[i]| >= 2 && |segments[j]| >= 2 ::
          ParamName(segments[i]) != ParamName(segments[j]))
  }

  /** validateSSRRoutePattern. */
  predicate ValidRoute(route: string) {
    HasPrefix(route, "/") && '?' !in route && '#' !in route && ValidSegments(Segments(route))
  }

  predicate IsDynamic(route: string) {
    exists i | 0 <= i < |Segments(route)| :: IsParam(Segments(route)[i])
  }

  // ------------------------------------------------------------ request matching

  predicate Canonical(segment: string) {
    segment != "" && segment != "." && segment != ".."
  }

  ghost predicate AllCanonical(segments: seq<string>) {
    forall i | 0 <= i < |segments| :: Canonical(segments[i])
  }

  /** path.Clean on the segments of a rooted path. */
  function Clean(stack: seq<string>, parts: seq<string>): seq<string>
    decreases |parts|
  {
    if parts == [] then stack
    else
      var stack' := if parts[0] == "" || parts[0] == "." then stack
                    else if parts[0] == ".." then (if stack == [] then [] else stack[..|stack| - 1])
                    else stack + [parts[0]];
      Clean(stack', parts[1..])
  }

  /** splitPath of runtime/route. */
  function SplitPath(value: string): seq<string> {
    Clean([], Split(value, '/'))
  }

  predicate HasDoubleSlash(path: string) {
    exists i | 0 <= i < |path| - 1 :: path[i] == '/' && path[i + 1] == '/'
  }

  /** !hasUnsafeRequestSegment. */
  predicate SafePath(path: string) {
    !HasDoubleSlash(path) && forall i | 0 <= i < |Segments(path)| :: Canonical(Segments(path)[i])
  }

  /** The loop of Match over request segments that are already known to be canonical. */
  predicate SegmentsMatch(pattern: seq<string>, request: seq<string>) {
    if pattern != [] && IsRest(pattern[|pattern| - 1]) then
      |request| >= |pattern| && forall i | 0 <= i < |pattern| - 1 :: IsParam(pattern[i]) || pattern[i] == request[i]
    else
      |request| == |pattern| && forall i | 0 <= i < |pattern| :: IsParam(pattern[i]) || pattern[i] == request[i]
  }

  /** Match of runtime/route, without the captured values. */
  predicate Matches(route: string, path: string) {
    SafePath(path) && SegmentsMatch(SplitPath(route), SplitPath(path))
  }

  // ------------------------------------------------------------------- splitting

  lemma {:induction false} SplitTrailing(s: string, sep: char)
    ensures Split(s + [sep], sep) == Split(s, sep) + [""]
  {
    if s == "" {
      assert s + [sep] == [sep];
    } else {
      assert (s + [sep])[1..] == s[1..] + [sep];
      SplitTrailing(s[1..], sep);
    }
  }

  lemma {:induction false} CleanAppendEmpty(stack: seq<string>, parts: seq<string>)
    ensures Clean(stack, parts + [""]) == Clean(stack, parts)
    decreases |parts|
  {
    if parts == [] {
      assert Clean(stack, [""]) == Clean(stack, []);
    } else {
      var stack' := if parts[0] == "" || parts[0] == "." then stack
                    else if parts[0] == ".." then (if stack == [] then [] else stack[..|stack| - 1])
                    else stack + [parts[0]];
      assert (parts + [""])[1..] == parts[1..] + [""];
      CleanAppendEmpty(stack', parts[1..]);
    }
  }

  lemma {:induction false} CleanTrimLeft(s: string)
    ensures Clean([], Split(s, '/')) == Clean([], Split(TrimCharLeft(s, '/'), '/'))
  {
    if s != "" && s[0] == '/' {
      CleanTrimLeft(s[1..]);
      assert Split(s, '/')[1..] == Split(s[1..], '/');
    }
  }

  lemma {:induction false} CleanTrimRight(s: string)
    ensures Clean([], Split(s, '/')) == Clean([], Split(TrimCharRight(s, '/'), '/'))
  {
    if s != "" && s[|s| - 1] == '/' {
      var t := s[..|s| - 1];
      assert s == t + ['/'];
      SplitTrailing(t, '/');
      CleanAppendEmpty([], Split(t, '/'));
      CleanTrimRight(t);
    }
  }

  lemma {:induction false} CleanCanonical(stack: seq<string>, parts: seq<string>)
    requires AllCanonical(parts)
    ensures Clean(stack, parts) == stack + parts
    decreases |parts|
  {
    if parts != [] {
      assert Canonical(parts[0]);
      CleanCanonical(stack + [parts[0]], parts[1..]);
      assert stack + [parts[0]] + parts[1..] == stack + parts;
    }
  }

  /** Where no segment needs cleaning, the matcher and the compiler split a path alike. */
  lemma SplitPathCanonical(path: string)
    requires AllCanonical(Segments(path))
    ensures SplitPath(path) == Segments(path)
  {
    var l := TrimCharLeft(path, '/');
    CleanTrimLeft(path);
    CleanTrimRight(l);
    if TrimChar(path, '/') == "" {
      assert Clean([], [""]) == Clean([], []);
    } else {
      CleanCanonical([], Segments(path));
    }
  }

  lemma {:induction false} CleanResult(stack: seq<string>, parts: seq<string>)
    requires AllCanonical(stack)
    requires forall i | 0 <= i < |stack| :: '/' !in stack[i]
    requires forall i | 0 <= i < |parts| :: '/' !in parts[i]
    ensures AllCanonical(Clean(stack, parts))
    ensures forall i | 0 <= i < |Clean(stack, parts)| :: '/' !in Clean(stack, parts)[i]
    ensures forall i | 0 <= i < |Clean(stack, parts)| :: Clean(stack, parts)[i] in stack || Clean(stack, parts)[i] in parts
    decreases |parts|
  {
    if parts != [] {
      var stack' := if parts[0] == "" || parts[0] == "." then stack
                    else if parts[0] == ".." then (if stack == [] then [] else stack[..|stack| - 1])
                    else stack + [parts[0]];
      CleanResult(stack', parts[1..]);
    }
  }

  // -------------------------------------------------------- texts and segments

  predicate Plain(segment: string) {
    segment != "" && '/' !in segment
  }

  lemma {:induction false} SplitLastNonempty(s: string, sep: char)
    requires s != "" && s[|s| - 1] != sep
    ensures Split(s, sep)[|Split(s, sep)| - 1] != ""
  {
    if |s| > 1 {
      SplitLastNonempty(s[1..], sep);
    }
  }

  lemma {:induction false} JoinEnds(parts: seq<string>)
    requires parts != [] && parts[0] != "" && parts[|parts| - 1] != ""
    requires forall i | 0 <= i < |parts| :: '/' !in parts[i]
    ensures var j := Join(parts, "/"); j != "" && j[0] != '/' && j[|j| - 1] != '/'
  {
    if |parts| == 1 {
      assert parts[0][0] in parts[0] && parts[0][|parts[0]| - 1] in parts[0];
    } else {
      JoinLast(parts);
      assert Join(parts, "/")[0] == parts[0][0];
      assert parts[0][0] in parts[0];
    }
  }

  lemma {:induction false} JoinLast(parts: seq<string>)
    requires parts != [] && parts[|parts| - 1] != ""
    requires forall i | 0 <= i < |parts| :: '/' !in parts[i]
    ensures var j := Join(parts, "/"); j != "" && j[|j| - 1] != '/'
  {
    var last := parts[|parts| - 1];
    if |parts| == 1 {
      assert last[|last| - 1] in last;
    } else {
      JoinLast(parts[1..]);
    }
  }

  /** Rooted text made of segments splits back into them. */
  lemma SegmentsOfText(parts: seq<string>)
    requires parts != [] ==> parts[0] != "" && parts[|parts| - 1] != ""
    requires forall i | 0 <= i < |parts| :: '/' !in parts[i]
    ensures Segments("/" + Join(parts, "/")) == parts
  {
    var text := Join(parts, "/");
    assert ("/" + text)[1..] == text;
    if parts != [] {
      JoinEnds(parts);
      assert TrimCharLeft("/" + text, '/') == TrimCharLeft(text, '/') == text;
      SplitJoin(parts, '/');
    } else {
      assert "/" + text == "/";
      assert TrimCharLeft("/", '/') == TrimCharLeft("/"[1..], '/') == "";
    }
  }

  /** The segments of a route contain no slash, and the first and last of them are not empty. */
  lemma SegmentsShape(route: string)
    ensures forall i | 0 <= i < |Segments(route)| :: '/' !in Segments(route)[i]
    ensures Segments(route) != [] ==> Segments(route)[0] != "" && Segments(route)[|Segments(route)| - 1] != ""
  {
    var trimmed := TrimChar(route, '/');
    TrimCharEnds(route, '/');
    if trimmed != "" {
      JoinSplit(trimmed, '/');
      SplitLastNonempty(trimmed, '/');
    }
  }

  lemma PatternSegmentShape(segment: string)
    ensures PatternSegment(segment) == "{**}" <==> IsRest(segment)
    ensures PatternSegment(segment) == "{}" <==> IsParam(segment) && !IsRest(segment)
    ensures !IsParam(segment) ==> PatternSegment(segment) == segment
    ensures PatternSegment(segment) == "" <==> segment == ""
    ensures '/' !in segment ==> '/' !in PatternSegment(segment)
    ensures IsRest(segment) ==> IsParam(segment)
  {
    if IsRest(segment) {
      assert segment[|segment| - 4..][3..] == segment[|segment| - 1..];
    }
  }

  /** A route's normalised text denotes its normalised segments. */
  lemma PatternText(route: string)
    ensures Segments(SsrRoutePattern(route)) == PatternSegments(Segments(route))
  {
    SegmentsShape(route);
    var segments := Segments(route);
    forall i | 0 <= i < |segments|
      ensures '/' !in PatternSegments(segments)[i]
      ensures PatternSegments(segments)[i] == "" <==> segments[i] == ""
    {
      PatternSegmentShape(segments[i]);
    }
    SegmentsOfText(PatternSegments(segments));
  }

  lemma {:induction false} NoDoubleSlash(parts: seq<string>)
    requires forall i | 0 <= i < |parts| :: Plain(parts[i])
    ensures !HasDoubleSlash("/" + Join(parts, "/"))
  {
    if |parts| > 0 {
      var text, head := "/" + Join(parts, "/"), parts[0];
      forall i | 0 <= i < |head|
        ensures head[i] != '/'
      {
        assert head[i] in head;
      }
      if |parts| == 1 {
        assert text == "/" + head;
      } else {
        NoDoubleSlash(parts[1..]);
        var tail := "/" + Join(parts[1..], "/");
        assert text == "/" + head + tail;
        forall i | 0 <= i < |text| - 1
          ensures !(text[i] == '/' && text[i + 1] == '/')
        {
          if i < |head| {
            assert text[i + 1] == head[i];
          } else if i == |head| {
            assert text[i] == head[i - 1];
          } else {
            assert text[i] == tail[i - |head| - 1] && text[i + 1] == tail[i - |head|];
          }
        }
      }
    }
  }

  // ------------------------------------------------------ overlap is exact

  /** Segments a matcher works on: canonical, free of slashes, a rest parameter only at the end. */
  ghost predicate MatchForm(segments: seq<string>) {
    && (forall i | 0 <= i < |segments| :: Canonical(segments[i]) && '/' !in segments[i])
    && (forall i | 0 <= i < |segments| - 1 :: !IsRest(segments[i]))
  }

  predicate EndsInRest(segments: seq<string>) {
    segments != [] && IsRest(segments[|segments| - 1])
  }

  /** The literal a pattern demands at a position, if it demands one. */
  function Demand(pattern: seq<string>, i: nat): Option<string> {
    if i < |pattern| && !IsParam(pattern[i]) then Some(pattern[i]) else None
  }

  /** A request that meets every demand of both patterns, where they do not clash. */
  function Witness(left: seq<string>, right: seq<string>): seq<string> {
    var n := if |left| < |right| then |right| else |left|;
    seq(n, i requires 0 <= i < n =>
      if Demand(left, i).Some? then Demand(left, i).value
      else if Demand(right, i).Some? then Demand(right, i).value
      else "x")
  }

  /** Position by position: the two patterns can be met by one request segment. */
  predicate Agree(left: seq<string>, right: seq<string>, i: nat) {
    Demand(left, i).Some? && Demand(right, i).Some? ==> Demand(left, i) == Demand(right, i)
  }

  lemma SegmentAgree(left: seq<string>, right: seq<string>, i: nat)
    requires MatchForm(left) && MatchForm(right) && i < |left| && i < |right|
    requires !IsRest(left[i]) && !IsRest(right[i])
    ensures var l, r := PatternSegment(left[i]), PatternSegment(right[i]);
            (l == "{}" || r == "{}" || l == r) <==> Agree(left, right, i)
  {
    PatternSegmentShape(left[i]);
    PatternSegmentShape(right[i]);
  }

  /** Lengths and positions, without the code's case analysis: when two patterns can meet. */
  ghost predicate CanMeet(left: seq<string>, right: seq<string>) {
    && (!EndsInRest(left) ==> |left| >= |right|)
    && (!EndsInRest(right) ==> |right| >= |left|)
    && (forall i | 0 <= i < |left| && i < |right| :: Agree(left, right, i))
  }

  lemma CompatiblePrefix(left: seq<string>, right: seq<string>, n: nat)
    requires MatchForm(left) && MatchForm(right) && n <= |left| && n <= |right|
    requires forall i | 0 <= i < n :: !IsRest(left[i]) && !IsRest(right[i])
    ensures Compatible(PatternSegments(left)[..n], PatternSegments(right)[..n]) <==> forall i | 0 <= i < n :: Agree(left, right, i)
  {
    var l, r := PatternSegments(left)[..n], PatternSegments(right)[..n];
    forall i | 0 <= i < n
      ensures (l[i] == "{}" || r[i] == "{}" || l[i] == r[i]) <==> Agree(left, right, i)
    {
      SegmentAgree(left, right, i);
    }
    if Compatible(l, r) {
      forall i | 0 <= i < n
        ensures Agree(left, right, i)
      {
        assert l[i] == "{}" || r[i] == "{}" || l[i] == r[i];
      }
    }
  }

  lemma RestShape(segments: seq<string>)
    requires MatchForm(segments)
    ensures HaveRest(PatternSegments(segments)) <==> EndsInRest(segments)
    ensures EndsInRest(segments) ==> IsParam(segments[|segments| - 1])
  {
    if segments != [] {
      PatternSegmentShape(segments[|segments| - 1]);
    }
  }

  lemma OverlapBothRest(left: seq<string>, right: seq<string>)
    requires MatchForm(left) && MatchForm(right) && EndsInRest(left) && EndsInRest(right)
    ensures SegmentsOverlap(PatternSegments(left), PatternSegments(right)) <==> CanMeet(left, right)
  {
    RestShape(left);
    RestShape(right);
    var n := if |right| < |left| then |right| - 1 else |left| - 1;
    BothRestCompatible(left, right, n);
    BothRestDecided(PatternSegments(left), PatternSegments(right), n);
    BothRestMeet(left, right, n);
  }

  lemma BothRestCompatible(left: seq<string>, right: seq<string>, n: nat)
    requires MatchForm(left) && MatchForm(right) && n < |left| && n < |right|
    ensures Compatible(PatternSegments(left)[..n], PatternSegments(right)[..n]) <==> forall i | 0 <= i < n :: Agree(left, right, i)
  {
    CompatiblePrefix(left, right, n);
  }

  lemma BothRestDecided(left: seq<string>, right: seq<string>, n: nat)
    requires HaveRest(left) && HaveRest(right) && n == if |right| < |left| then |right| - 1 else |left| - 1
    ensures SegmentsOverlap(left, right) <==> Compatible(left[..n], right[..n])
  {
  }

  /** Where a rest parameter stands, anything agrees with it. */
  lemma BothRestMeet(left: seq<string>, right: seq<string>, n: nat)
    requires EndsInRest(left) && EndsInRest(right) && n == if |right| < |left| then |right| - 1 else |left| - 1
    requires IsParam(left[|left| - 1]) && IsParam(right[|right| - 1])
    ensures CanMeet(left, right) <==> forall i | 0 <= i < n :: Agree(left, right, i)
  {
    assert Agree(left, right, n);
  }

  lemma OverlapLeftRest(left: seq<string>, right: seq<string>)
    requires MatchForm(left) && MatchForm(right) && EndsInRest(left) && !EndsInRest(right)
    ensures SegmentsOverlap(PatternSegments(left), PatternSegments(right)) <==> CanMeet(left, right)
  {
    RestShape(left);
    RestShape(right);
    LeftRestDecided(PatternSegments(left), PatternSegments(right));
    LeftRestMeet(left, right);
    if |right| >= |left| {
      LeftRestCompatible(left, right);
    }
  }

  lemma LeftRestCompatible(left: seq<string>, right: seq<string>)
    requires MatchForm(left) && MatchForm(right) && EndsInRest(left) && !EndsInRest(right) && |right| >= |left|
    ensures Compatible(PatternSegments(left)[..|left| - 1], PatternSegments(right)[..|left| - 1])
            <==> forall i | 0 <= i < |left| - 1 :: Agree(left, right, i)
  {
    NoRestAnywhere(right);
    CompatiblePrefix(left, right, |left| - 1);
  }

  lemma LeftRestDecided(left: seq<string>, right: seq<string>)
    requires HaveRest(left) && !HaveRest(right)
    ensures SegmentsOverlap(left, right) <==> |right| >= |left| && Compatible(left[..|left| - 1], right[..|left| - 1])
  {
  }

  lemma LeftRestMeet(left: seq<string>, right: seq<string>)
    requires EndsInRest(left) && !EndsInRest(right) && IsParam(left[|left| - 1])
    ensures CanMeet(left, right) <==> |right| >= |left| && forall i | 0 <= i < |left| - 1 :: Agree(left, right, i)
  {
    if |right| >= |left| {
      assert Agree(left, right, |left| - 1);
    }
  }

  lemma NoRestAnywhere(segments: seq<string>)
    requires MatchForm(segments) && !EndsInRest(segments)
    ensures forall i | 0 <= i < |segments| :: !IsRest(segments[i])
  {
    forall i | 0 <= i < |segments|
      ensures !IsRest(segments[i])
    {
      if i == |segments| - 1 {
        assert !EndsInRest(segments);
      }
    }
  }

  lemma OverlapNoRest(left: seq<string>, right: seq<string>)
    requires MatchForm(left) && MatchForm(right) && !EndsInRest(left) && !EndsInRest(right)
    ensures SegmentsOverlap(PatternSegments(left), PatternSegments(right)) <==> CanMeet(left, right)
  {
    RestShape(left);
    RestShape(right);
    NoRestDecided(PatternSegments(left), PatternSegments(right));
    if |left| == |right| {
      NoRestCompatible(left, right);
    }
  }

  lemma NoRestDecided(left: seq<string>, right: seq<string>)
    requires !HaveRest(left) && !HaveRest(right)
    ensures SegmentsOverlap(left, right) <==> |left| == |right| && Compatible(left, right)
  {
  }

  lemma NoRestCompatible(left: seq<string>, right: seq<string>)
    requires MatchForm(left) && MatchForm(right) && !EndsInRest(left) && !EndsInRest(right) && |left| == |right|
    ensures Compatible(PatternSegments(left), PatternSegments(right)) <==> forall i | 0 <= i < |left| :: Agree(left, right, i)
  {
    var n, l, r := |left|, PatternSegments(left), PatternSegments(right);
    assert l[..n] == l && r[..n] == r;
    NoRestAnywhere(left);
    NoRestAnywhere(right);
    CompatiblePrefix(left, right, n);
  }

  /** The code's case analysis on rest parameters decides exactly whether two patterns can meet. */
  lemma OverlapCanMeet(left: seq<string>, right: seq<string>)
    requires MatchForm(left) && MatchForm(right)
    ensures SegmentsOverlap(PatternSegments(left), PatternSegments(right)) <==> CanMeet(left, right)
  {
    if EndsInRest(left) && EndsInRest(right) {
      OverlapBothRest(left, right);
    } else if EndsInRest(left) {
      OverlapLeftRest(left, right);
    } else if EndsInRest(right) {
      RestShape(left);
      RestShape(right);
      OverlapLeftRest(right, left);
      AgreeSymmetric(left, right);
      assert CanMeet(left, right) <==> CanMeet(right, left);
    } else {
      OverlapNoRest(left, right);
    }
  }

  lemma AgreeSymmetric(left: seq<string>, right: seq<string>)
    ensures forall i: nat :: Agree(left, right, i) <==> Agree(right, left, i)
  {
  }

  /** A request that satisfies both patterns shows that they can meet. */
  lemma MatchMeets(left: seq<string>, right: seq<string>, request: seq<string>)
    requires MatchForm(left) && MatchForm(right)
    requires SegmentsMatch(left, request) && SegmentsMatch(right, request)
    ensures CanMeet(left, right)
  {
    RestShape(left);
    RestShape(right);
    forall i | 0 <= i < |left| && i < |right|
      ensures Agree(left, right, i)
    {
      DemandMet(left, request, i);
      DemandMet(right, request, i);
    }
  }

  /** A matching request gives a pattern the segment it demands. */
  lemma DemandMet(pattern: seq<string>, request: seq<string>, i: nat)
    requires i < |pattern| && SegmentsMatch(pattern, request) && (EndsInRest(pattern) ==> IsParam(pattern[|pattern| - 1]))
    ensures i < |request| && (Demand(pattern, i).Some? ==> Demand(pattern, i).value == request[i])
  {
  }

  /** Patterns that can meet do meet, in the witness. */
  lemma WitnessMatches(left: seq<string>, right: seq<string>)
    requires MatchForm(left) && MatchForm(right) && CanMeet(left, right)
    ensures SegmentsMatch(left, Witness(left, right)) && SegmentsMatch(right, Witness(left, right))
    ensures forall i | 0 <= i < |Witness(left, right)| :: Canonical(Witness(left, right)[i]) && '/' !in Witness(left, right)[i]
  {
    RestShape(left);
    RestShape(right);
    var w := Witness(left, right);
    forall i | 0 <= i < |w|
      ensures i < |left| && !IsParam(left[i]) ==> w[i] == left[i]
      ensures i < |right| && !IsParam(right[i]) ==> w[i] == right[i]
      ensures Canonical(w[i]) && '/' !in w[i]
    {
      WitnessAt(left, right, i);
    }
  }

  lemma WitnessAt(left: seq<string>, right: seq<string>, i: nat)
    requires MatchForm(left) && MatchForm(right) && CanMeet(left, right) && i < |Witness(left, right)|
    ensures var w := Witness(left, right);
            && (i < |left| && !IsParam(left[i]) ==> w[i] == left[i])
            && (i < |right| && !IsParam(right[i]) ==> w[i] == right[i])
            && Canonical(w[i]) && '/' !in w[i]
  {
    if i < |left| && i < |right| {
      assert Agree(left, right, i);
    }
  }

  /** The segments a route is matched by are in matcher form when the route is valid. */
  lemma CleanMatchForm(route: string)
    requires ValidRoute(route)
    ensures MatchForm(SplitPath(route))
  {
    SegmentsShape(route);
    var l := TrimCharLeft(route, '/');
    CleanTrimLeft(route);
    CleanTrimRight(l);
    var parts := Split(TrimChar(route, '/'), '/');
    JoinSplit(TrimChar(route, '/'), '/');
    forall i | 0 <= i < |parts| - 1
      ensures !IsRest(parts[i])
    {
      assert Segments(route) == parts;
      if IsRest(parts[i]) {
        RestIsLast(parts[i], i == |parts| - 1);
      }
    }
    CleanResult([], parts);
    CleanRestLast([], parts);
  }

  lemma RestIsLast(segment: string, last: bool)
    requires IsRest(segment) && ValidSegment(segment, last)
    ensures last
  {
    assert segment[0] == '{';
    assert |segment| >= 5 by {
      assert segment[|segment| - 4..][0] == '.';
    }
    var name := segment[1..|segment| - 1];
    assert name[|name| - 3..] == segment[|segment| - 4..][..3] == "...";
  }

  lemma {:induction false} CleanRestLast(stack: seq<string>, parts: seq<string>)
    requires forall i | 0 <= i < |stack| :: !IsRest(stack[i])
    requires forall i | 0 <= i < |parts| - 1 :: !IsRest(parts[i])
    ensures forall i | 0 <= i < |Clean(stack, parts)| - 1 :: !IsRest(Clean(stack, parts)[i])
    decreases |parts|
  {
    if parts != [] {
      var stack' := if parts[0] == "" || parts[0] == "." then stack
                    else if parts[0] == ".." then (if stack == [] then [] else stack[..|stack| - 1])
                    else stack + [parts[0]];
      if |parts| == 1 {
        assert Clean(stack, parts) == stack';
      } else {
        CleanRestLast(stack', parts[1..]);
      }
    }
  }

  /**
   For any two valid routes: some request path is served by both if and only if the overlap test
   succeeds on the segments the matcher uses, that is, after path cleaning.
   */
  lemma CommonPathIffCleanOverlap(left: string, right: string)
    requires ValidRoute(left) && ValidRoute(right)
    ensures (exists path :: Matches(left, path) && Matches(right, path))
            <==> SegmentsOverlap(PatternSegments(SplitPath(left)), PatternSegments(SplitPath(right)))
  {
    CleanMatchForm(left);
    CleanMatchForm(right);
    var l, r := SplitPath(left), SplitPath(right);
    OverlapCanMeet(l, r);
    forall path | Matches(left, path) && Matches(right, path)
      ensures CanMeet(l, r)
    {
      MatchMeets(l, r, SplitPath(path));
    }
    if CanMeet(l, r) {
      var path := CommonPath(left, right);
      assert Matches(left, path) && Matches(right, path);
    }
  }

  lemma CommonPath(left: string, right: string) returns (path: string)
    requires MatchForm(SplitPath(left)) && MatchForm(SplitPath(right)) && CanMeet(SplitPath(left), SplitPath(right))
    ensures Matches(left, path) && Matches(right, path)
  {
    var l, r := SplitPath(left), SplitPath(right);
    WitnessMatches(l, r);
    var w := Witness(l, r);
    path := "/" + Join(w, "/");
    SegmentsOfText(w);
    NoDoubleSlash(w);
    SplitPathCanonical(path);
  }

  /**
   Route overlap is exact on routes whose segments are canonical: ssrRoutePatternsOverlap holds
   of the two normalised patterns if and only if some request path matches both routes.
   */
  lemma OverlapExact(left: string, right: string)
    requires ValidRoute(left) && ValidRoute(right)
    requires AllCanonical(Segments(left)) && AllCanonical(Segments(right))
    ensures PatternsOverlap(SsrRoutePattern(left), SsrRoutePattern(right))
            <==> exists path :: Matches(left, path) && Matches(right, path)
  {
    CommonPathIffCleanOverlap(left, right);
    SplitPathCanonical(left);
    SplitPathCanonical(right);
    PatternText(left);
    PatternText(right);
  }

  // ------------------------------------------------ exactly when the test is right

  /** The overlap test on two routes says what the matcher does. */
  ghost predicate RightVerdict(left: string, right: string) {
    PatternsOverlap(SsrRoutePattern(left), SsrRoutePattern(right)) <==> exists path :: Matches(left, path) && Matches(right, path)
  }

  /** Cleaning drops every segment it does not keep: a route that needs cleaning gets shorter. */
  lemma {:induction false} CleanShortens(stack: seq<string>, parts: seq<string>)
    ensures |Clean(stack, parts)| <= |stack| + |parts|
    ensures !AllCanonical(parts) ==> |Clean(stack, parts)| < |stack| + |parts|
    decreases |parts|
  {
    if parts != [] {
      var stack' := if parts[0] == "" || parts[0] == "." then stack
                    else if parts[0] == ".." then (if stack == [] then [] else stack[..|stack| - 1])
                    else stack + [parts[0]];
      CleanShortens(stack', parts[1..]);
      if Canonical(parts[0]) && AllCanonical(parts[1..]) {
        assert parts == [parts[0]] + parts[1..];
      }
    }
  }

  lemma SplitPathIsClean(route: string)
    ensures SplitPath(route) == Clean([], Segments(route))
  {
    CleanTrimLeft(route);
    CleanTrimRight(TrimCharLeft(route, '/'));
    if TrimChar(route, '/') == "" {
      assert Clean([], [""]) == Clean([], []);
    }
  }

  /** A literal route the pattern serves: its own segments, parameters filled in. */
  function Filled(pattern: seq<string>): (r: seq<string>)
    ensures |r| == |pattern| && forall i | 0 <= i < |r| :: r[i] == if IsParam(pattern[i]) then "x" else pattern[i]
  {
    seq(|pattern|, i requires 0 <= i < |pattern| => if IsParam(pattern[i]) then "x" else pattern[i])
  }

  lemma {:induction false} JoinLacks(parts: seq<string>, sep: string, c: char)
    requires c !in sep && forall i | 0 <= i < |parts| :: c !in parts[i]
    ensures c !in Join(parts, sep)
  {
    if |parts| > 1 {
      JoinLacks(parts[1..], sep, c);
    }
  }

  lemma {:induction false} SplitLacks(s: string, sep: char, c: char)
    requires c !in s
    ensures forall i | 0 <= i < |Split(s, sep)| :: c !in Split(s, sep)[i]
  {
    if s != "" {
      SplitLacks(s[1..], sep, c);
    }
  }

  lemma {:induction false} TrimLacks(s: string, c: char)
    requires c !in s
    ensures c !in TrimCharLeft(s, '/') && c !in TrimCharRight(s, '/')
  {
    if s != "" {
      if s[0] == '/' {
        TrimLeftLacks(s[1..], c);
      }
      TrimCharRightStops(s, '/');
    }
  }

  lemma {:induction false} TrimLeftLacks(s: string, c: char)
    requires c !in s
    ensures c !in TrimCharLeft(s, '/')
  {
    if s != "" && s[0] == '/' {
      TrimLeftLacks(s[1..], c);
    }
  }

  lemma SegmentsLack(route: string, c: char)
    requires c !in route
    ensures forall i | 0 <= i < |Segments(route)| :: c !in Segments(route)[i]
  {
    TrimLacks(route, c);
    TrimLacks(TrimCharLeft(route, '/'), c);
    SplitLacks(TrimChar(route, '/'), '/', c);
  }

  /** The filled-in route is canonical, valid, and served by the route it fills in. */
  lemma FilledRoute(route: string)
    requires ValidRoute(route)
    ensures var right := "/" + Join(Filled(SplitPath(route)), "/");
            && Segments(right) == Filled(SplitPath(route)) && AllCanonical(Segments(right)) && ValidRoute(right)
            && Matches(route, right) && Matches(right, right)
  {
    var c := SplitPath(route);
    var f := Filled(c);
    var right := "/" + Join(f, "/");
    CleanMatchForm(route);
    FilledForm(route);
    assert forall i | 0 <= i < |f| :: Plain(f[i]);
    SegmentsOfText(f);
    NoDoubleSlash(f);
    SplitPathCanonical(right);
    JoinLacks(f, "/", '?');
    JoinLacks(f, "/", '#');
    FilledMatches(c);
  }

  lemma FilledMatches(c: seq<string>)
    requires MatchForm(c) && forall i | 0 <= i < |c| :: IsRest(c[i]) ==> IsParam(c[i])
    requires forall i | 0 <= i < |c| :: !IsParam(Filled(c)[i]) && !IsRest(Filled(c)[i])
    ensures SegmentsMatch(c, Filled(c)) && SegmentsMatch(Filled(c), Filled(c))
  {
  }

  /** Filled-in segments hold no braces, slashes, query or fragment marks. */
  lemma FilledForm(route: string)
    requires ValidRoute(route)
    ensures var c := SplitPath(route); var f := Filled(c);
            && (forall i | 0 <= i < |c| :: IsRest(c[i]) ==> IsParam(c[i]))
            && (forall i | 0 <= i < |f| :: Canonical(f[i]) && '/' !in f[i] && '?' !in f[i] && '#' !in f[i])
            && (forall i | 0 <= i < |f| :: !IsParam(f[i]) && !IsRest(f[i]) && !ContainsBrace(f[i]))
  {
    var c := SplitPath(route);
    var f := Filled(c);
    SplitPathIsClean(route);
    SegmentsShape(route);
    SegmentsLack(route, '?');
    SegmentsLack(route, '#');
    CleanResult([], Segments(route));
    forall i | 0 <= i < |f|
      ensures IsRest(c[i]) ==> IsParam(c[i])
      ensures Canonical(f[i]) && '/' !in f[i] && '?' !in f[i] && '#' !in f[i]
      ensures !IsParam(f[i]) && !IsRest(f[i]) && !ContainsBrace(f[i])
    {
      PatternSegmentShape(c[i]);
      assert Canonical(c[i]) && '/' !in c[i] && c[i] in Segments(route);
      var k :| 0 <= k < |Segments(route)| && Segments(route)[k] == c[i];
      FilledSegment(c[i], k == |Segments(route)| - 1);
    }
  }

  lemma FilledSegment(segment: string, last: bool)
    requires ValidSegment(segment, last) && segment != ""
    ensures var f := if IsParam(segment) then "x" else segment; !IsParam(f) && !IsRest(f) && !ContainsBrace(f)
  {
    var f := if IsParam(segment) then "x" else segment;
    if !ContainsBrace(f) {
      assert f[0] != '{';
    }
  }

  /**
   On all valid routes: a route gets right verdicts against every canonical route if and only if
   it is canonical itself.  For a route that needs cleaning, the route it cleans to, parameters
   filled in, is a pair the test passes although both serve the same path.
   */
  lemma OverlapRightIff(left: string)
    requires ValidRoute(left)
    ensures (forall right: string | ValidRoute(right) && AllCanonical(Segments(right)) :: RightVerdict(left, right))
            <==> AllCanonical(Segments(left))
  {
    if AllCanonical(Segments(left)) {
      forall right: string | ValidRoute(right) && AllCanonical(Segments(right))
        ensures RightVerdict(left, right)
      {
        OverlapExact(left, right);
      }
    } else {
      var right := "/" + Join(Filled(SplitPath(left)), "/");
      FilledRoute(left);
      WrongVerdict(left, right);
    }
  }

  lemma WrongVerdict(left: string, right: string)
    requires ValidRoute(left) && !AllCanonical(Segments(left)) && Segments(right) == Filled(SplitPath(left))
    requires Matches(left, right) && Matches(right, right)
    ensures !RightVerdict(left, right)
  {
    SplitPathIsClean(left);
    CleanShortens([], Segments(left));
    PatternText(left);
    PatternText(right);
    FilledForm(left);
    var l, r := PatternSegments(Segments(left)), PatternSegments(Segments(right));
    assert |r| < |l|;
    forall i | 0 <= i < |r|
      ensures r[i] != "{**}"
    {
      PatternSegmentShape(Segments(right)[i]);
    }
    assert !HaveRest(r);
    assert !SegmentsOverlap(l, r);
  }

  /** A parameter segment such as {id}. */
  predicate PlainParam(segment: string) {
    && Plain(segment) && '?' !in segment && '#' !in segment
    && IsParam(segment) && !IsRest(segment) && ValidSegment(segment, false) && ValidSegment(segment, true)
  }

  /**
   A family of valid pairs the check passes although every one-segment request path is served by
   both routes: /{a}/. beside /{b}.
   */
  lemma OverlapMissesDotSegment(a: string, b: string, x: string)
    requires PlainParam(a) && PlainParam(b) && Plain(x) && Canonical(x)
    ensures var left, right := "/" + a + "/.", "/" + b;
            && ValidRoute(left) && ValidRoute(right)
            && !PatternsOverlap(SsrRoutePattern(left), SsrRoutePattern(right))
            && Matches(left, "/" + x) && Matches(right, "/" + x)
  {
    var left, right := "/" + a + "/.", "/" + b;
    ParamIsCanonical(a);
    ParamIsCanonical(b);
    DotSegments(a);
    BareSegments(b);
    PatternText(left);
    PatternText(right);
    DotSegmentValid();
    PatternSegmentShape(a);
    PatternSegmentShape(b);
    SingleParamMatches(left, x);
    SingleParamMatches(right, x);
  }

  lemma ParamIsCanonical(segment: string)
    requires PlainParam(segment)
    ensures Canonical(segment)
  {
    assert segment[0] == '{';
  }

  lemma DotSegmentValid()
    ensures ValidSegment(".", true) && !IsParam(".")
  {
  }

  /**
   The concrete instance, for a caller that hands routes to the generator without compiling them:
   /{a}/. and /{b} pass validation and the overlap test, and both serve /x.
   */
  lemma OverlapMissesExample()
    ensures ValidRoute("/{a}/.") && ValidRoute("/{b}")
    ensures !PatternsOverlap(SsrRoutePattern("/{a}/."), SsrRoutePattern("/{b}"))
    ensures Matches("/{a}/.", "/x") && Matches("/{b}", "/x")
  {
    ParamSegmentValid('a');
    ParamSegmentValid('b');
    assert "/" + "{a}" + "/." == "/{a}/." && "/" + "{b}" == "/{b}" && "/" + "x" == "/x";
    OverlapMissesDotSegment("{a}", "{b}", "x");
  }

  lemma ParamSegmentValid(c: char)
    requires 'a' <= c <= 'z'
    ensures PlainParam(['{', c, '}'])
  {
    var segment := ['{', c, '}'];
    var name := segment[1..2];
    assert name == [c];
    assert BeforeColon(name) == [c];
  }

  lemma DotSegments(a: string)
    requires Plain(a) && Canonical(a)
    ensures Segments("/" + a + "/.") == [a, "."] && SplitPath("/" + a + "/.") == [a]
  {
    var text := "/" + a + "/.";
    assert [a, "."][1..] == ["."];
    assert text == "/" + Join([a, "."], "/");
    SegmentsOfTextIs(text, [a, "."]);
    assert text == "" + ['/'] + (a + ['/'] + ".");
    SplitPrefix("", '/', a + ['/'] + ".");
    SplitPrefix(a, '/', ".");
    SplitNoSep(".", '/');
    assert Split(text, '/') == ["", a, "."];
    assert ["", a, "."][1..] == [a, "."];
    assert Clean([], ["", a, "."]) == Clean([], [a, "."]) == Clean([a], ["."]) == Clean([a], []);
  }

  lemma BareSegments(segment: string)
    requires Plain(segment) && Canonical(segment)
    ensures Segments("/" + segment) == SplitPath("/" + segment) == [segment]
  {
    SegmentsOfTextIs("/" + segment, [segment]);
    SplitPathCanonical("/" + segment);
  }

  /** A route that cleans to one plain parameter serves every one-segment path. */
  lemma SingleParamMatches(route: string, segment: string)
    requires |SplitPath(route)| == 1 && IsParam(SplitPath(route)[0]) && !IsRest(SplitPath(route)[0])
    requires Plain(segment) && Canonical(segment)
    ensures Matches(route, "/" + segment)
  {
    BareSegments(segment);
    NoDoubleSlash([segment]);
    assert Join([segment], "/") == segment;
  }

  lemma SegmentsOfTextIs(text: string, parts: seq<string>)
    requires parts != [] && parts[0] != "" && parts[|parts| - 1] != ""
    requires forall i | 0 <= i < |parts| :: '/' !in parts[i]
    requires text == "/" + Join(parts, "/")
    ensures Segments(text) == parts
  {
    SegmentsOfText(parts);
  }

  // ---------------------------------------------------- validating and dispatching

  datatype Replacement = Replacement(param: string, placeholder: string)

  datatype SSRRoute = SSRRoute(pageId: string, route: string, html: string, errorPage: string, replacements: seq<Replacement>)

  predicate DeclaresParam(route: string, name: string) {
    exists i | 0 <= i < |Segments(route)| ::
      IsParam(Segments(route)[i]) && |Segments(route)[i]| >= 2 && ParamName(Segments(route)[i]) == name
  }

  /** validateSSRReplacements. */
  predicate ValidReplacements(r: SSRRoute) {
    && (forall i | 0 <= i < |r.replacements| ::
          DeclaresParam(r.route, r.replacements[i].param) && TrimSpace(r.replacements[i].placeholder) != "")
    && (forall i, j | 0 <= i < j < |r.replacements| :: r.replacements[i].placeholder != r.replacements[j].placeholder)
  }

  type ErrorPages = string -> Option<string>

  /** What one entry must satisfy by itself. */
  predicate ValidEntry(errorPagePath: ErrorPages, r: SSRRoute) {
    && TrimSpace(r.pageId) != ""
    && ValidRoute(r.route)
    && TrimSpace(r.html) != ""
    && (r.errorPage != "" ==> errorPagePath(r.errorPage).Some?)
    && ValidReplacements(r)
  }

  /** The entry with its error page normalised. */
  function WithErrorPage(errorPagePath: ErrorPages, r: SSRRoute): SSRRoute {
    if r.errorPage != "" && errorPagePath(r.errorPage).Some? then r.(errorPage := errorPagePath(r.errorPage).value) else r
  }

  /** What the table check needs to know of an entry. */
  datatype Key = Key(valid: bool, pattern: string, dynamic: bool)

  function KeyOf(errorPagePath: ErrorPages, r: SSRRoute): Key {
    Key(ValidEntry(errorPagePath, r), SsrRoutePattern(r.route), IsDynamic(r.route))
  }

  type Overlap = (string, string) -> bool

  predicate Clash(overlap: Overlap, a: Key, b: Key) {
    a.pattern == b.pattern || (a.dynamic && b.dynamic && overlap(a.pattern, b.pattern))
  }

  /** A table is accepted when every entry is valid and no entry clashes with an earlier one. */
  ghost predicate ValidKeys(overlap: Overlap, keys: seq<Key>) {
    forall i | 0 <= i < |keys| :: FreeAt(overlap, keys, i)
  }

  /** The entry is valid and clashes with no entry before it. */
  ghost predicate FreeAt(overlap: Overlap, keys: seq<Key>, i: nat)
    requires i < |keys|
  {
    keys[i].valid && forall j | 0 <= j < i :: !Clash(overlap, keys[i], keys[j])
  }

  function KeysBy(keyOf: SSRRoute -> Key, routes: seq<SSRRoute>): (keys: seq<Key>)
    ensures |keys| == |routes| && forall i | 0 <= i < |routes| :: keys[i] == keyOf(routes[i])
  {
    seq(|routes|, i requires 0 <= i < |routes| => keyOf(routes[i]))
  }

  function Keys(errorPagePath: ErrorPages, routes: seq<SSRRoute>): seq<Key> {
    KeysBy(r => KeyOf(errorPagePath, r), routes)
  }

  /** validateSSRRoutes, which also normalises error pages in place as it goes. */
  method ValidateSSRRoutes(errorPagePath: ErrorPages, routes: array<SSRRoute>) returns (ok: bool)
    modifies routes
    ensures ok <==> ValidKeys(PatternsOverlap, Keys(errorPagePath, old(routes[..])))
    ensures forall i | 0 <= i < routes.Length ::
              routes[i] == old(routes[i]) || routes[i] == WithErrorPage(errorPagePath, old(routes[i]))
    ensures ok ==> forall i | 0 <= i < routes.Length :: routes[i] == WithErrorPage(errorPagePath, old(routes[i]))
  {
    ok := ValidateTable(r => KeyOf(errorPagePath, r), r => WithErrorPage(errorPagePath, r), PatternsOverlap, routes);
  }

  /** The loop of validateSSRRoutes over per-entry verdicts, patterns and the overlap test. */
  method ValidateTable(keyOf: SSRRoute -> Key, normalize: SSRRoute -> SSRRoute, overlap: Overlap, routes: array<SSRRoute>)
    returns (ok: bool)
    modifies routes
    ensures ok <==> ValidKeys(overlap, KeysBy(keyOf, old(routes[..])))
    ensures forall i | 0 <= i < routes.Length :: routes[i] == old(routes[i]) || routes[i] == normalize(old(routes[i]))
    ensures ok ==> forall i | 0 <= i < routes.Length :: routes[i] == normalize(old(routes[i]))
  {
    ghost var was := routes[..];
    ghost var keys := KeysBy(keyOf, was);
    ghost var normal := seq(|was|, i requires 0 <= i < |was| => normalize(was[i]));
    var seen: set<string> := {};
    var dynamicRoutes: seq<Key> := [];
    for index := 0 to routes.Length
      invariant forall i | 0 <= i < index :: routes[i] == normal[i]
      invariant forall i | index <= i < routes.Length :: routes[i] == was[i]
      invariant forall i | 0 <= i < index :: FreeAt(overlap, keys, i)
      invariant seen == PatternsOf(keys, index) && dynamicRoutes == DynamicOf(keys, index)
    {
      var key, page := keyOf(routes[index]), normalize(routes[index]);
      assert key == keys[index] && page == normal[index];
      var free := CheckKey(overlap, keys, index, key, seen, dynamicRoutes);
      if key.valid {
        routes[index] := page;
      }
      if !free {
        return false;
      }
      seen := seen + {key.pattern};
      dynamicRoutes := dynamicRoutes + if key.dynamic then [key] else [];
    }
    ok := true;
  }

  /** The patterns of the first entries. */
  function PatternsOf(keys: seq<Key>, n: nat): set<string>
    requires n <= |keys|
  {
    if n == 0 then {} else PatternsOf(keys, n - 1) + {keys[n - 1].pattern}
  }

  /** The dynamic ones among the first entries. */
  function DynamicOf(keys: seq<Key>, n: nat): seq<Key>
    requires n <= |keys|
  {
    if n == 0 then [] else DynamicOf(keys, n - 1) + if keys[n - 1].dynamic then [keys[n - 1]] else []
  }

  lemma {:induction false} EarlierEntries(keys: seq<Key>, n: nat)
    requires n <= |keys|
    ensures forall p :: p in PatternsOf(keys, n) <==> exists j :: 0 <= j < n && keys[j].pattern == p
    ensures forall k :: k in DynamicOf(keys, n) <==> exists j :: 0 <= j < n && keys[j] == k && k.dynamic
  {
    if n > 0 {
      EarlierEntries(keys, n - 1);
    }
  }

  /** The tests one entry goes through against the entries before it. */
  method CheckKey(overlap: Overlap, ghost keys: seq<Key>, ghost index: nat, key: Key, seen: set<string>, dynamicRoutes: seq<Key>)
    returns (free: bool)
    requires index < |keys| && key == keys[index] && seen == PatternsOf(keys, index) && dynamicRoutes == DynamicOf(keys, index)
    ensures free <==> FreeAt(overlap, keys, index)
  {
    EarlierEntries(keys, index);
    if !key.valid || key.pattern in seen {
      return false;
    }
    if key.dynamic {
      var clash := FirstOverlap(overlap, key, dynamicRoutes);
      return clash.None?;
    }
    free := true;
  }

  /** The inner loop over the dynamic routes seen so far. */
  method FirstOverlap(overlap: Overlap, key: Key, dynamicRoutes: seq<Key>) returns (clash: Option<Key>)
    ensures clash.Some? ==>
              clash.value in dynamicRoutes && clash.value.pattern != key.pattern && overlap(key.pattern, clash.value.pattern)
    ensures clash.None? ==>
              forall k | k in dynamicRoutes :: k.pattern == key.pattern || !overlap(key.pattern, k.pattern)
  {
    for i := 0 to |dynamicRoutes|
      invariant forall j | 0 <= j < i ::
                  dynamicRoutes[j].pattern == key.pattern || !overlap(key.pattern, dynamicRoutes[j].pattern)
    {
      var previous := dynamicRoutes[i];
      if key.pattern == previous.pattern {
        continue;
      }
      if overlap(key.pattern, previous.pattern) {
        return Some(previous);
      }
    }
    clash := None;
  }

  /** The if-chain of ssrDynamic: the first dynamic route, in order, that matches. */
  function SsrDynamic(routes: seq<SSRRoute>, path: string): Option<SSRRoute> {
    if routes == [] then None
    else if IsDynamic(routes[0].route) && Matches(routes[0].route, path) then Some(routes[0])
    else SsrDynamic(routes[1..], path)
  }

  /** The switch of ssrExact: the static route whose text is the request path. */
  function SsrExact(routes: seq<SSRRoute>, path: string): Option<SSRRoute> {
    if routes == [] then None
    else if !IsDynamic(routes[0].route) && routes[0].route == path then Some(routes[0])
    else SsrExact(routes[1..], path)
  }

  /** The table passes validateSSRRoutes. */
  ghost predicate Accepted(errorPagePath: ErrorPages, routes: seq<SSRRoute>) {
    ValidKeys(PatternsOverlap, Keys(errorPagePath, routes))
  }

  /** Two routes overlap as the matcher sees them, after path cleaning. */
  ghost predicate CleanOverlap(left: string, right: string) {
    SegmentsOverlap(PatternSegments(SplitPath(left)), PatternSegments(SplitPath(right)))
  }

  /** No two dynamic entries overlap after cleaning. */
  ghost predicate Disjoint(routes: seq<SSRRoute>) {
    forall i, j | 0 <= j < i < |routes| && IsDynamic(routes[i].route) && IsDynamic(routes[j].route) ::
      !CleanOverlap(routes[i].route, routes[j].route)
  }

  predicate Hit(r: SSRRoute, path: string) {
    IsDynamic(r.route) && Matches(r.route, path)
  }

  /** At most one dynamic entry of the table matches the path. */
  ghost predicate AtMostOneHit(routes: seq<SSRRoute>, path: string) {
    forall i, j | 0 <= j < i < |routes| :: !(Hit(routes[i], path) && Hit(routes[j], path))
  }

  lemma EntryValid(errorPagePath: ErrorPages, routes: seq<SSRRoute>, i: nat)
    requires Accepted(errorPagePath, routes) && i < |routes|
    ensures ValidRoute(routes[i].route)
  {
    var keys := Keys(errorPagePath, routes);
    assert FreeAt(PatternsOverlap, keys, i);
  }

  /** Two dynamic entries of an accepted table passed the overlap test. */
  lemma AcceptedPair(errorPagePath: ErrorPages, routes: seq<SSRRoute>, i: nat, j: nat)
    requires Accepted(errorPagePath, routes) && j < i < |routes|
    requires IsDynamic(routes[i].route) && IsDynamic(routes[j].route)
    ensures !PatternsOverlap(SsrRoutePattern(routes[i].route), SsrRoutePattern(routes[j].route))
  {
    var keys := Keys(errorPagePath, routes);
    assert FreeAt(PatternsOverlap, keys, i);
    assert !Clash(PatternsOverlap, keys[i], keys[j]);
  }

  /** In an accepted table at most one dynamic route matches any path if and only if no two overlap after cleaning. */
  lemma AtMostOneDynamicIff(errorPagePath: ErrorPages, routes: seq<SSRRoute>)
    requires Accepted(errorPagePath, routes)
    ensures (forall path :: AtMostOneHit(routes, path)) <==> Disjoint(routes)
  {
    forall i, j | 0 <= j < i < |routes| && IsDynamic(routes[i].route) && IsDynamic(routes[j].route)
      ensures CleanOverlap(routes[i].route, routes[j].route) <==> exists path :: Hit(routes[i], path) && Hit(routes[j], path)
    {
      PairHit(errorPagePath, routes, i, j);
    }
    if Disjoint(routes) {
      forall path
        ensures AtMostOneHit(routes, path)
      {
        forall i, j | 0 <= j < i < |routes|
          ensures !(Hit(routes[i], path) && Hit(routes[j], path))
        {
          if IsDynamic(routes[i].route) && IsDynamic(routes[j].route) {
            assert !CleanOverlap(routes[i].route, routes[j].route);
          }
        }
      }
    } else {
      var i, j :| 0 <= j < i < |routes| && IsDynamic(routes[i].route) && IsDynamic(routes[j].route) && CleanOverlap(routes[i].route, routes[j].route);
      var path :| Hit(routes[i], path) && Hit(routes[j], path);
      assert !AtMostOneHit(routes, path);
    }
  }

  lemma PairHit(errorPagePath: ErrorPages, routes: seq<SSRRoute>, i: nat, j: nat)
    requires Accepted(errorPagePath, routes) && j < i < |routes| && IsDynamic(routes[i].route) && IsDynamic(routes[j].route)
    ensures CleanOverlap(routes[i].route, routes[j].route) <==> exists path :: Hit(routes[i], path) && Hit(routes[j], path)
  {
    EntryValid(errorPagePath, routes, i);
    EntryValid(errorPagePath, routes, j);
    CommonPathIffCleanOverlap(routes[i].route, routes[j].route);
    if CleanOverlap(routes[i].route, routes[j].route) {
      var path :| Matches(routes[i].route, path) && Matches(routes[j].route, path);
      assert Hit(routes[i], path) && Hit(routes[j], path);
    }
  }

  lemma {:induction false} DynamicFinds(routes: seq<SSRRoute>, path: string)
    ensures SsrDynamic(routes, path).Some? ==>
              && SsrDynamic(routes, path).value in routes
              && IsDynamic(SsrDynamic(routes, path).value.route)
              && Matches(SsrDynamic(routes, path).value.route, path)
    ensures SsrDynamic(routes, path).None? ==>
              forall r | r in routes && IsDynamic(r.route) :: !Matches(r.route, path)
  {
    if routes != [] {
      DynamicFinds(routes[1..], path);
    }
  }

  lemma {:induction false} ExactFinds(routes: seq<SSRRoute>, path: string)
    ensures SsrExact(routes, path).Some? ==>
              SsrExact(routes, path).value in routes && !IsDynamic(SsrExact(routes, path).value.route) && SsrExact(routes, path).value.route == path
    ensures SsrExact(routes, path).None? ==> forall r | r in routes && !IsDynamic(r.route) :: r.route != path
  {
    if routes != [] {
      ExactFinds(routes[1..], path);
    }
  }

  /** Both emitted lookups answer a path alike for two orders of a table. */
  ghost predicate SameDispatch(routes: seq<SSRRoute>, reordered: seq<SSRRoute>, path: string) {
    SsrDynamic(reordered, path) == SsrDynamic(routes, path) && SsrExact(reordered, path) == SsrExact(routes, path)
  }

  /** Every reordering of the table dispatches every path to the same page. */
  ghost predicate OrderIrrelevant(routes: seq<SSRRoute>) {
    forall reordered, path | multiset(reordered) == multiset(routes) :: SameDispatch(routes, reordered, path)
  }

  /**
   Dispatch of an accepted table does not depend on the order of its routes if and only if no two
   dynamic entries overlap after cleaning.
   */
  lemma DispatchOrderIff(errorPagePath: ErrorPages, routes: seq<SSRRoute>)
    requires Accepted(errorPagePath, routes)
    ensures OrderIrrelevant(routes) <==> Disjoint(routes)
  {
    AtMostOneDynamicIff(errorPagePath, routes);
    if Disjoint(routes) {
      forall reordered, path | multiset(reordered) == multiset(routes)
        ensures SameDispatch(routes, reordered, path)
      {
        assert AtMostOneHit(routes, path);
        DispatchIgnoresOrder(errorPagePath, routes, reordered, path);
      }
    } else {
      var path :| !AtMostOneHit(routes, path);
      var i, j :| 0 <= j < i < |routes| && Hit(routes[i], path) && Hit(routes[j], path);
      var front, other := ToFront(routes, i), ToFront(routes, j);
      DistinctEntries(errorPagePath, routes, i, j);
      FrontWins(routes, i, path);
      FrontWins(routes, j, path);
      assert !(SameDispatch(routes, front, path) && SameDispatch(routes, other, path));
    }
  }

  /** The table with its i-th entry moved to the front. */
  function ToFront(routes: seq<SSRRoute>, i: nat): seq<SSRRoute>
    requires i < |routes|
  {
    [routes[i]] + (routes[..i] + routes[i + 1..])
  }

  lemma FrontWins(routes: seq<SSRRoute>, i: nat, path: string)
    requires i < |routes| && Hit(routes[i], path)
    ensures multiset(ToFront(routes, i)) == multiset(routes) && SsrDynamic(ToFront(routes, i), path) == Some(routes[i])
  {
    assert routes == routes[..i] + ([routes[i]] + routes[i + 1..]);
  }

  lemma DistinctEntries(errorPagePath: ErrorPages, routes: seq<SSRRoute>, i: nat, j: nat)
    requires Accepted(errorPagePath, routes) && j < i < |routes|
    ensures routes[i] != routes[j]
  {
    var keys := Keys(errorPagePath, routes);
    assert FreeAt(PatternsOverlap, keys, i);
    assert !Clash(PatternsOverlap, keys[i], keys[j]);
  }

  /** Where at most one dynamic route matches, order does not matter. */
  lemma DispatchIgnoresOrder(errorPagePath: ErrorPages, routes: seq<SSRRoute>, reordered: seq<SSRRoute>, path: string)
    requires Accepted(errorPagePath, routes) && multiset(reordered) == multiset(routes) && AtMostOneHit(routes, path)
    ensures SameDispatch(routes, reordered, path)
  {
    forall r
      ensures r in routes <==> r in reordered
    {
      assert r in multiset(routes) <==> r in multiset(reordered);
    }
    DynamicFinds(routes, path);
    DynamicFinds(reordered, path);
    if SsrDynamic(routes, path).Some? && SsrDynamic(reordered, path).Some? {
      SameHit(routes, r => Hit(r, path), SsrDynamic(routes, path).value, SsrDynamic(reordered, path).value);
    }
    ExactFinds(routes, path);
    ExactFinds(reordered, path);
    if SsrExact(routes, path).Some? && SsrExact(reordered, path).Some? {
      SameTextSamePage(errorPagePath, routes, SsrExact(routes, path).value, SsrExact(reordered, path).value);
    }
  }

  /** If at most one entry is a hit, any two hits are the same route. */
  lemma SameHit(routes: seq<SSRRoute>, hit: SSRRoute -> bool, a: SSRRoute, b: SSRRoute)
    requires forall i, j | 0 <= j < i < |routes| :: !(hit(routes[i]) && hit(routes[j]))
    requires a in routes && b in routes && hit(a) && hit(b)
    ensures a == b
  {
    var i :| 0 <= i < |routes| && routes[i] == a;
    var j :| 0 <= j < |routes| && routes[j] == b;
  }

  lemma SameTextSamePage(errorPagePath: ErrorPages, routes: seq<SSRRoute>, a: SSRRoute, b: SSRRoute)
    requires ValidKeys(PatternsOverlap, Keys(errorPagePath, routes)) && a in routes && b in routes && a.route == b.route
    ensures a == b
  {
    SamePatternSamePage(r => KeyOf(errorPagePath, r), PatternsOverlap, routes, a, b);
  }

  lemma SamePatternSamePage(keyOf: SSRRoute -> Key, overlap: Overlap, routes: seq<SSRRoute>, a: SSRRoute, b: SSRRoute)
    requires ValidKeys(overlap, KeysBy(keyOf, routes)) && a in routes && b in routes
    requires keyOf(a).pattern == keyOf(b).pattern
    ensures a == b
  {
    var keys := KeysBy(keyOf, routes);
    var i :| 0 <= i < |routes| && routes[i] == a;
    var j :| 0 <= j < |routes| && routes[j] == b;
    assert FreeAt(overlap, keys, i) && FreeAt(overlap, keys, j);
    assert Clash(overlap, keys[i], keys[j]) && Clash(overlap, keys[j], keys[i]);
  }
}
