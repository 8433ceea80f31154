/**
 What the compiler accepts as a route, ParseRoutePattern of internal/source/routes.go, and why every
 route it accepts is one on which the generated SSR overlap check is exact.
 */
module RouteSyntax {
  import opened Text
  import opened SsrRoutes

  datatype Issue = Malformed | Duplicate

  // ------------------------------------------------------------ parameter segments

  datatype ParamInfo = ParamInfo(name: string, kind: string, rest: bool, hasType: bool)

  function AfterColon(s: string): string {
    if s == "" then "" else if s[0] == ':' then s[1..] else AfterColon(s[1..])
  }

  /** ParseRouteParamSegment: {name}, {name:type} and {name...}. */
  function ParseParam(segment: string): Option<ParamInfo> {
    if !IsParam(segment) || multiset(segment)['{'] != 1 || multiset(segment)['}'] != 1 || |segment| < 2 then None
    else
      var value := segment[1..|segment| - 1];
      var before, found := BeforeColon(value), ':' in value;
      var rest := HasSuffix(before, "...");
      Some(ParamInfo(if rest then before[..|before| - 3] else before, if found then AfterColon(value) else "string", rest, found))
  }

  /** IsRouteParamType. */
  predicate IsParamType(s: string) {
    s == "string" || s == "int" || s == "int64" || s == "uint" || s == "uint64" || s == "bool" || s == "float64"
  }

  /** The tests a well-formed parameter passes, in the order of the code. */
  predicate GoodParam(info: ParamInfo, last: bool) {
    && !HasSuffix(info.name, "?")
    && !(info.rest && info.name == "")
    && (info.rest || '.' !in info.name)
    && IsIdentifier(info.name)
    && !(info.rest && info.hasType)
    && IsParamType(info.kind)
    && (info.rest ==> last)
  }

  // --------------------------------------------------------------- the whole route

  /** RouteContainsQueryOutsideParams, from a brace depth. */
  predicate QueryOutside(depth: nat, s: string)
    decreases |s|
  {
    s != "" &&
    ((s[0] == '?' && depth == 0) || QueryOutside(Deeper(depth, s[0]), s[1..]))
  }

  function Deeper(depth: nat, c: char): nat {
    if c == '{' then depth + 1 else if c == '}' && depth > 0 then depth - 1 else depth
  }

  /** unicode.IsSpace or unicode.IsControl. */
  predicate SpaceOrControl(c: char) {
    IsSpace(c) || c < ' ' || '\U{7F}' <= c <= '\U{9F}'
  }

  function When(condition: bool): seq<Issue> {
    if condition then [Malformed] else []
  }

  /** The tests on the text of a nonempty route. */
  function TextIssues(route: string): seq<Issue> {
    When(TrimSpace(route) != route)
    + When(!HasPrefix(route, "/"))
    + When('#' in route || QueryOutside(0, route))
    + When('\\' in route)
    + When(exists i | 0 <= i < |route| :: SpaceOrControl(route[i]))
  }

  /** The loop over the segments: issues, normalised segments, parameters in order and the rest parameter. */
  datatype Parsed = Parsed(issues: seq<Issue>, segments: seq<string>, params: seq<string>, restParam: string)

  /** One segment of the loop. */
  function Step(acc: Parsed, segment: string, last: bool): Parsed {
    if !Canonical(segment) then acc.(issues := acc.issues + [Malformed])
    else if !ContainsBrace(segment) then acc.(segments := acc.segments + [segment])
    else
      var info := ParseParam(segment);
      if info.None? || !GoodParam(info.value, last) then acc.(issues := acc.issues + [Malformed])
      else if info.value.name in acc.params then acc.(issues := acc.issues + [Duplicate])
      else if info.value.rest then
        Parsed(acc.issues, acc.segments + ["{**}"], acc.params + [info.value.name], info.value.name)
      else Parsed(acc.issues, acc.segments + ["{}"], acc.params + [info.value.name], acc.restParam)
  }

  function Walk(start: seq<Issue>, raw: seq<string>, n: nat): Parsed
    requires n <= |raw|
  {
    if n == 0 then Parsed(start, [], [], "") else Step(Walk(start, raw, n - 1), raw[n - 1], n == |raw|)
  }

  /** RoutePattern and the issues found with it. */
  datatype Pattern = Pattern(text: string, params: seq<string>, restParam: string, issues: seq<Issue>)

  function Parse(route: string): Pattern {
    if route == "" then Pattern("", [], "", [Malformed])
    else
      var issues := TextIssues(route);
      if route == "/" then Pattern("/", [], "", issues)
      else if !HasPrefix(route, "/") then Pattern("", [], "", issues)
      else
        var raw := Split(route[1..], '/');
        var end := Walk(issues, raw, |raw|);
        Pattern("/" + Join(end.segments, "/"), end.params, end.restParam, end.issues)
  }

  /** ParseRoutePattern with its loop and the counts it keeps of parameter names. */
  method ParseRoutePattern(route: string) returns (pattern: Pattern)
    ensures pattern == Parse(route)
  {
    if route == "" {
      return Pattern("", [], "", [Malformed]);
    }
    var issues := TextIssues(route);
    if route == "/" {
      return Pattern("/", [], "", issues);
    }
    if !HasPrefix(route, "/") {
      return Pattern("", [], "", issues);
    }
    var raw := Split(route[1..], '/');
    pattern := ParseSegments(issues, raw);
  }

  method ParseSegments(start: seq<Issue>, raw: seq<string>) returns (pattern: Pattern)
    ensures var end := Walk(start, raw, |raw|); pattern == Pattern("/" + Join(end.segments, "/"), end.params, end.restParam, end.issues)
  {
    var acc := Parsed(start, [], [], "");
    var counts: map<string, nat> := map[];
    for index := 0 to |raw|
      invariant acc == Walk(start, raw, index)
      invariant forall name :: name in counts <==> name in acc.params
    {
      var segment, last := raw[index], index == |raw| - 1;
      if segment == "" || segment == "." || segment == ".." {
        acc := acc.(issues := acc.issues + [Malformed]);
      } else if ContainsBrace(segment) {
        var info := ParseParam(segment);
        if info.None? || !GoodParam(info.value, last) {
          acc := acc.(issues := acc.issues + [Malformed]);
          continue;
        }
        var name := info.value.name;
        if name in counts {
          counts := counts[name := counts[name] + 1];
          acc := acc.(issues := acc.issues + [Duplicate]);
          continue;
        }
        counts := counts[name := 1];
        acc := acc.(params := acc.params + [name], segments := acc.segments + [if info.value.rest then "{**}" else "{}"]);
        if info.value.rest {
          acc := acc.(restParam := name);
        }
      } else {
        acc := acc.(segments := acc.segments + [segment]);
      }
    }
    var text := if acc.segments == [] then "/" else "/" + Join(acc.segments, "/");
    pattern := Pattern(text, acc.params, acc.restParam, acc.issues);
  }

  // ---------------------------------------------------- what an accepted route is

  /** A segment the loop raises no issue about. */
  predicate GoodSegment(segment: string, last: bool) {
    && Canonical(segment)
    && (ContainsBrace(segment) ==> ParseParam(segment).Some? && GoodParam(ParseParam(segment).value, last))
  }

  /** The parameter names of segments, in order. */
  function Names(segments: seq<string>): seq<string> {
    if segments == [] then []
    else
      var before, last := Names(segments[..|segments| - 1]), segments[|segments| - 1];
      if ContainsBrace(last) && ParseParam(last).Some? then before + [ParseParam(last).value.name] else before
  }

  ghost predicate Distinct(names: seq<string>) {
    forall i, j | 0 <= i < j < |names| :: names[i] != names[j]
  }

  /** A step without issues is over a good segment with a new name, and appends its normal form. */
  lemma StepClean(acc: Parsed, segment: string, last: bool)
    requires Step(acc, segment, last).issues == []
    ensures acc.issues == [] && GoodSegment(segment, last)
    ensures Step(acc, segment, last).segments == acc.segments + [PatternSegment(segment)]
    ensures Step(acc, segment, last).params
            == acc.params + if ContainsBrace(segment) then [ParseParam(segment).value.name] else []
    ensures ContainsBrace(segment) ==> ParseParam(segment).value.name !in acc.params
  {
    assert acc.issues + [Malformed] != [] && acc.issues + [Duplicate] != [];
    PatternOne(segment, last);
  }

  /** Every segment so far is good, names are distinct and the segments are the route's normal form. */
  ghost predicate CleanSoFar(acc: Parsed, raw: seq<string>, n: nat)
    requires n <= |raw|
  {
    && (forall i | 0 <= i < n :: GoodSegment(raw[i], i == |raw| - 1))
    && acc.params == Names(raw[..n]) && Distinct(acc.params)
    && acc.segments == PatternSegments(raw[..n])
  }

  lemma CleanStep(acc: Parsed, raw: seq<string>, n: nat)
    requires 0 < n <= |raw| && CleanSoFar(acc, raw, n - 1) && Step(acc, raw[n - 1], n == |raw|).issues == []
    ensures CleanSoFar(Step(acc, raw[n - 1], n == |raw|), raw, n)
  {
    StepClean(acc, raw[n - 1], n == |raw|);
    NamesStep(raw, n);
    DistinctStep(Names(raw[..n - 1]), raw[n - 1]);
  }

  lemma {:induction false} WalkClean(start: seq<Issue>, raw: seq<string>, n: nat)
    requires n <= |raw| && Walk(start, raw, n).issues == []
    ensures start == [] && CleanSoFar(Walk(start, raw, n), raw, n)
  {
    if n > 0 {
      var acc := Walk(start, raw, n - 1);
      assert Walk(start, raw, n) == Step(acc, raw[n - 1], n == |raw|);
      StepClean(acc, raw[n - 1], n == |raw|);
      WalkClean(start, raw, n - 1);
      CleanStep(acc, raw, n);
    } else {
      assert raw[..0] == [];
    }
  }

  lemma DistinctStep(names: seq<string>, segment: string)
    requires Distinct(names) && (ContainsBrace(segment) ==> ParseParam(segment).Some? && ParseParam(segment).value.name !in names)
    ensures Distinct(names + if ContainsBrace(segment) then [ParseParam(segment).value.name] else [])
  {
  }

  lemma NamesStep(raw: seq<string>, n: nat)
    requires 0 < n <= |raw|
    ensures PatternSegments(raw[..n]) == PatternSegments(raw[..n - 1]) + [PatternSegment(raw[n - 1])]
    ensures Names(raw[..n])
            == Names(raw[..n - 1])
               + if ContainsBrace(raw[n - 1]) && ParseParam(raw[n - 1]).Some? then [ParseParam(raw[n - 1]).value.name] else []
  {
    assert raw[..n][..n - 1] == raw[..n - 1];
  }

  lemma ParamHasBrace(segment: string)
    ensures IsParam(segment) ==> ContainsBrace(segment)
  {
    if IsParam(segment) {
      assert segment[0] == '{';
    }
  }

  /** The normal form of one good segment. */
  lemma PatternOne(segment: string, last: bool)
    ensures GoodSegment(segment, last) ==>
              PatternSegment(segment)
              == if !ContainsBrace(segment) then segment else if ParseParam(segment).value.rest then "{**}" else "{}"
  {
    ParamHasBrace(segment);
    if GoodSegment(segment, last) && ContainsBrace(segment) {
      Spelled(segment);
      SpellingEnd(ParseParam(segment).value);
    }
  }

  lemma {:induction false} BeforeColonPrefix(s: string)
    ensures BeforeColon(s) <= s && ':' !in BeforeColon(s)
    ensures ':' !in s ==> BeforeColon(s) == s
    ensures ':' in s ==> s == BeforeColon(s) + ":" + AfterColon(s)
  {
    if s != "" && s[0] != ':' {
      BeforeColonPrefix(s[1..]);
      assert s == [s[0]] + s[1..];
    } else if s != "" {
      assert s == ":" + s[1..];
    }
  }

  /** How a parameter without a typed rest is written. */
  function Spelling(info: ParamInfo): string {
    if info.rest then "{" + info.name + "...}"
    else if info.hasType then "{" + info.name + ":" + info.kind + "}"
    else "{" + info.name + "}"
  }

  /** A parsed parameter is spelled as it was parsed. */
  lemma Spelled(segment: string)
    requires ParseParam(segment).Some? && !(ParseParam(segment).value.rest && ParseParam(segment).value.hasType)
    ensures segment == Spelling(ParseParam(segment).value)
  {
    var value := segment[1..|segment| - 1];
    Braced(segment, value);
    BeforeColonPrefix(value);
    SpelledParts(segment, value, BeforeColon(value), AfterColon(value), ParseParam(segment).value);
  }

  lemma Braced(segment: string, value: string)
    requires IsParam(segment) && |segment| >= 2 && value == segment[1..|segment| - 1]
    ensures segment == "{" + value + "}"
  {
    SuffixAt(segment, "}", 0);
    assert segment[0] == '{';
  }

  lemma SpelledParts(segment: string, value: string, before: string, after: string, info: ParamInfo)
    requires segment == "{" + value + "}" && value == (if info.hasType then before + ":" + after else before)
    requires info.rest == HasSuffix(before, "...") && !(info.rest && info.hasType) && (info.hasType ==> info.kind == after)
    requires info.name == if info.rest then before[..|before| - 3] else before
    ensures segment == Spelling(info)
  {
    if info.rest {
      assert before == info.name + "...";
      assert "{" + (info.name + "...") + "}" == "{" + info.name + "...}";
    } else if info.hasType {
      assert "{" + (before + ":" + after) + "}" == "{" + before + ":" + after + "}";
    }
  }

  lemma TypeEnd(kind: string)
    requires IsParamType(kind)
    ensures kind != "" && kind[|kind| - 1] != '.' && '?' !in kind
  {
  }

  lemma NoDots(s: string, p: string)
    requires |s| >= 2 && s[|s| - 2] != '.' && p == "...}"
    ensures !HasSuffix(s, p)
  {
    if HasSuffix(s, p) {
      SuffixAt(s, p, 2);
    }
  }

  lemma SpellingEnd(info: ParamInfo)
    requires IsIdentifier(info.name) && IsParamType(info.kind) && !(info.rest && info.hasType)
    ensures HasSuffix(Spelling(info), "...}") <==> info.rest
    ensures IsParam(Spelling(info))
  {
    var s := Spelling(info);
    TypeEnd(info.kind);
    if info.rest {
      assert s[|s| - 4..] == "...}";
    } else {
      assert s[|s| - 2] == if info.hasType then info.kind[|info.kind| - 1] else info.name[|info.name| - 1];
      NoDots(s, "...}");
    }
    assert s[|s| - 1..] == "}";
  }

  lemma IdentifierPlain(name: string)
    requires IsIdentifier(name)
    ensures ':' !in name && '?' !in name && '.' !in name
  {
  }

  /** A good segment is valid for the generator, under the same name. */
  lemma GoodIsValid(segment: string, last: bool)
    requires GoodSegment(segment, last)
    ensures ValidSegment(segment, last)
    ensures ContainsBrace(segment) ==> |segment| >= 2 && ParamName(segment) == ParseParam(segment).value.name && '?' !in segment
    ensures IsParam(segment) <==> ContainsBrace(segment)
  {
    ParamHasBrace(segment);
    if ContainsBrace(segment) {
      Spelled(segment);
      InnerBraces(segment);
      var info := ParseParam(segment).value;
      SpellingEnd(info);
      ParamNameOf(info, segment);
    }
  }

  lemma ParamNameOf(info: ParamInfo, segment: string)
    requires segment == Spelling(info) && IsParam(segment) && IsIdentifier(info.name) && IsParamType(info.kind) && !(info.rest && info.hasType)
    ensures |segment| >= 2 && ParamName(segment) == info.name && '?' !in segment
    ensures var name := segment[1..|segment| - 1]; HasSuffix(name, "...") ==> info.rest && ':' !in name
  {
    IdentifierPlain(info.name);
    TypeEnd(info.kind);
    var name := segment[1..|segment| - 1];
    if info.rest {
      assert name == info.name + "...";
      RestName(info.name, name);
    } else if info.hasType {
      assert name == info.name + ":" + info.kind;
      TypedName(info.name, info.kind, name);
    } else {
      assert name == info.name;
      BeforeColonPrefix(name);
      PlainEnd(name, "...");
    }
  }

  lemma RestName(name: string, value: string)
    requires ':' !in name && value == name + "..."
    ensures HasSuffix(value, "...") && BeforeColon(value[..|value| - 3]) == name && ':' !in value
  {
    assert value[..|value| - 3] == name && value[|value| - 3..] == "...";
    BeforeColonPrefix(name);
  }

  lemma PlainEnd(value: string, dots: string)
    requires value != "" && value[|value| - 1] != '.' && dots == "..."
    ensures !HasSuffix(value, dots)
  {
    if HasSuffix(value, dots) {
      SuffixAt(value, dots, 2);
    }
  }

  lemma TypedName(name: string, kind: string, value: string)
    requires ':' !in name && IsParamType(kind) && value == name + ":" + kind
    ensures !HasSuffix(value, "...") && BeforeColon(value) == name
  {
    TypeEnd(kind);
    assert value[|value| - 1] == kind[|kind| - 1];
    PlainEnd(value, "...");
    BeforeColonOf(name, kind);
  }

  lemma {:induction false} BeforeColonOf(name: string, rest: string)
    requires ':' !in name
    ensures BeforeColon(name + ":" + rest) == name
  {
    var s := name + ":" + rest;
    if name != "" {
      assert s[1..] == name[1..] + ":" + rest;
      BeforeColonOf(name[1..], rest);
      assert name == [name[0]] + name[1..];
    }
  }

  /** One opening and one closing brace leave none between them. */
  lemma InnerBraces(segment: string)
    requires IsParam(segment) && |segment| >= 2 && multiset(segment)['{'] == 1 && multiset(segment)['}'] == 1
    ensures forall i | 1 <= i < |segment| - 1 :: segment[i] != '{' && segment[i] != '}'
  {
    var inner := segment[1..|segment| - 1];
    assert segment[0] == '{' && segment[|segment| - 1..][0] == '}';
    assert segment == ['{'] + inner + ['}'];
    assert multiset(segment) == multiset{'{'} + multiset(inner) + multiset{'}'};
    forall i | 1 <= i < |segment| - 1
      ensures segment[i] != '{' && segment[i] != '}'
    {
      assert segment[i] == inner[i - 1] && inner[i - 1] in multiset(inner);
    }
  }

  // -------------------------------------------------------- no query, canonical, valid

  lemma {:induction false} QueryAppend(depth: nat, a: string, b: string)
    ensures QueryOutside(depth, a + b) <==> QueryOutside(depth, a) || QueryOutside(DepthAfter(depth, a), b)
    decreases |a|
  {
    if a == "" {
      assert a + b == b;
    } else {
      assert (a + b)[1..] == a[1..] + b;
      QueryAppend(Deeper(depth, a[0]), a[1..], b);
    }
  }

  function DepthAfter(depth: nat, s: string): nat
    decreases |s|
  {
    if s == "" then depth else DepthAfter(Deeper(depth, s[0]), s[1..])
  }

  /** Text without braces: the depth stays, and outside parameters a question mark is a query. */
  lemma {:induction false} PlainText(depth: nat, s: string)
    requires '{' !in s && '}' !in s
    ensures DepthAfter(depth, s) == depth
    ensures QueryOutside(depth, s) <==> depth == 0 && '?' in s
    decreases |s|
  {
    if s != "" {
      PlainText(depth, s[1..]);
      assert s == [s[0]] + s[1..];
    }
  }

  /** A parameter segment leaves the depth at zero. */
  lemma BracedText(segment: string)
    requires |segment| >= 2 && segment[0] == '{' && segment[|segment| - 1] == '}'
    requires forall i | 1 <= i < |segment| - 1 :: segment[i] != '{' && segment[i] != '}'
    ensures DepthAfter(0, segment) == 0
  {
    var inner := segment[1..|segment| - 1];
    assert segment[1..] == inner + "}";
    DepthAppend(1, inner, "}");
    PlainText(1, inner);
    assert "}"[1..] == "";
  }

  lemma {:induction false} DepthAppend(depth: nat, a: string, b: string)
    ensures DepthAfter(depth, a + b) == DepthAfter(DepthAfter(depth, a), b)
    decreases |a|
  {
    if a == "" {
      assert a + b == b;
    } else {
      assert (a + b)[1..] == a[1..] + b;
      DepthAppend(Deeper(depth, a[0]), a[1..], b);
    }
  }

  /** One good segment: no question mark unless the scan reports one, and the depth is back at zero. */
  lemma GoodSegmentScan(segment: string, last: bool)
    requires GoodSegment(segment, last)
    ensures DepthAfter(0, segment) == 0 && ('?' in segment ==> QueryOutside(0, segment))
  {
    GoodIsValid(segment, last);
    if ContainsBrace(segment) {
      SuffixAt(segment, "}", 0);
      BracedText(segment);
    } else {
      assert forall i | 0 <= i < |segment| :: segment[i] != '{' && segment[i] != '}';
      PlainText(0, segment);
    }
  }

  lemma {:induction false} GoodSegmentsScan(raw: seq<string>, from: nat)
    requires from < |raw| && forall i | from <= i < |raw| :: GoodSegment(raw[i], i == |raw| - 1)
    requires !QueryOutside(0, Join(raw[from..], "/"))
    ensures forall i | from <= i < |raw| :: '?' !in raw[i]
    decreases |raw| - from
  {
    GoodSegmentScan(raw[from], from == |raw| - 1);
    var rest := raw[from..];
    if |rest| > 1 {
      assert rest[1..] == raw[from + 1..];
      var tail := Join(raw[from + 1..], "/");
      assert Join(rest, "/") == raw[from] + ("/" + tail);
      QueryAppend(0, raw[from], "/" + tail);
      assert ("/" + tail)[1..] == tail;
      GoodSegmentsScan(raw, from + 1);
    } else {
      assert Join(rest, "/") == raw[from];
    }
  }

  /** The compiler accepts the route. */
  predicate Compiled(route: string) {
    Parse(route).issues == []
  }

  /** The text of an accepted route is trimmed and holds no space or control character. */
  lemma CompiledTextClean(route: string)
    requires Compiled(route)
    ensures TrimSpace(route) == route && forall i | 0 <= i < |route| :: !SpaceOrControl(route[i])
  {
    if route != "/" {
      CompiledStart(route);
      var raw := Split(route[1..], '/');
      WalkClean(TextIssues(route), raw, |raw|);
    }
    assert TextIssues(route) == [];
    NoTextIssues(route);
  }

  lemma NoTextIssues(route: string)
    requires TextIssues(route) == []
    ensures TrimSpace(route) == route && forall i | 0 <= i < |route| :: !SpaceOrControl(route[i])
  {
  }

  lemma IssuesEmpty(route: string)
    requires route != "" && TextIssues(route) == []
    ensures HasPrefix(route, "/") && '#' !in route && !QueryOutside(0, route)
  {
  }

  /** The raw segments of an accepted route are its segments, and all good. */
  lemma CompiledSegments(route: string)
    requires Compiled(route) && route != "/"
    ensures route != "" && HasPrefix(route, "/") && '#' !in route && !QueryOutside(0, route)
    ensures var raw := Split(route[1..], '/');
            && CleanSoFar(Walk([], raw, |raw|), raw, |raw|) && Segments(route) == raw && route == "/" + Join(raw, "/")
            && Parse(route).text == "/" + Join(Walk([], raw, |raw|).segments, "/")
  {
    var raw := Split(route[1..], '/');
    var start := TextIssues(route);
    CompiledStart(route);
    WalkClean(start, raw, |raw|);
    IssuesEmpty(route);
    RawSegments(route, raw);
  }

  lemma RawSegments(route: string, raw: seq<string>)
    requires HasPrefix(route, "/") && raw == Split(route[1..], '/')
    requires forall i | 0 <= i < |raw| :: GoodSegment(raw[i], i == |raw| - 1)
    ensures Segments(route) == raw && route == "/" + Join(raw, "/")
  {
    JoinSplit(route[1..], '/');
    assert route == "/" + Join(raw, "/");
    assert GoodSegment(raw[0], 0 == |raw| - 1) && GoodSegment(raw[|raw| - 1], true);
    SegmentsOfTextIs(route, raw);
  }

  lemma CompiledStart(route: string)
    requires Compiled(route) && route != "/"
    ensures route != "" && HasPrefix(route, "/")
    ensures var raw := Split(route[1..], '/'); Walk(TextIssues(route), raw, |raw|).issues == []
  {
  }

  /**
   Every route the compiler accepts is valid for the generator, canonical, and normalises to the
   same pattern there.
   */
  lemma CompiledRoute(route: string)
    requires Compiled(route)
    ensures ValidRoute(route) && AllCanonical(Segments(route))
    ensures Parse(route).text == SsrRoutePattern(route)
  {
    if route == "/" {
      RootRoute();
    } else {
      CompiledSegments(route);
      CompiledText(route, Split(route[1..], '/'));
    }
  }

  lemma CompiledText(route: string, raw: seq<string>)
    requires raw != [] && route == "/" + Join(raw, "/") && Segments(route) == raw
    requires '#' !in route && !QueryOutside(0, route) && CleanSoFar(Walk([], raw, |raw|), raw, |raw|)
    ensures ValidRoute(route) && AllCanonical(Segments(route))
    ensures "/" + Join(Walk([], raw, |raw|).segments, "/") == SsrRoutePattern(route)
  {
    assert raw[..|raw|] == raw && raw[0..] == raw;
    var tail := Join(raw, "/");
    assert ("/" + tail)[1..] == tail;
    GoodSegmentsScan(raw, 0);
    JoinLacks(raw, "/", '?');
    CompiledValid(raw);
  }

  lemma RootRoute()
    ensures ValidRoute("/") && Segments("/") == [] && SsrRoutePattern("/") == "/"
  {
    SegmentsOfText([]);
    assert "/" + "" == "/";
  }

  lemma CompiledValid(raw: seq<string>)
    requires forall i | 0 <= i < |raw| :: GoodSegment(raw[i], i == |raw| - 1)
    requires Distinct(Names(raw))
    ensures ValidSegments(raw) && AllCanonical(raw)
  {
    forall i | 0 <= i < |raw|
      ensures ValidSegment(raw[i], i == |raw| - 1)
    {
      GoodIsValid(raw[i], i == |raw| - 1);
    }
    forall i, j | 0 <= i < j < |raw| && IsParam(raw[i]) && IsParam(raw[j]) && |raw[i]| >= 2 && |raw[j]| >= 2
      ensures ParamName(raw[i]) != ParamName(raw[j])
    {
      GoodIsValid(raw[i], i == |raw| - 1);
      GoodIsValid(raw[j], j == |raw| - 1);
      NamesDiffer(raw, i, j);
    }
  }

  lemma {:induction false} NamesAt(raw: seq<string>, i: nat) returns (k: nat)
    requires i < |raw| && ContainsBrace(raw[i]) && ParseParam(raw[i]).Some?
    ensures k < |Names(raw)| && Names(raw)[k] == ParseParam(raw[i]).value.name && k == |Names(raw[..i])|
    decreases |raw|
  {
    var before := raw[..|raw| - 1];
    if i < |before| {
      k := NamesAt(before, i);
      assert before[..i] == raw[..i];
    } else {
      assert raw[..i] == before;
      k := |Names(before)|;
    }
  }

  lemma {:induction false} NamesGrow(raw: seq<string>, i: nat, j: nat)
    requires i <= j <= |raw|
    ensures |Names(raw[..i])| <= |Names(raw[..j])|
    decreases j
  {
    if i < j {
      assert raw[..j][..j - 1] == raw[..j - 1];
      NamesGrow(raw, i, j - 1);
    }
  }

  lemma NamesDiffer(raw: seq<string>, i: nat, j: nat)
    requires i < j < |raw| && Distinct(Names(raw))
    requires ContainsBrace(raw[i]) && ParseParam(raw[i]).Some? && ContainsBrace(raw[j]) && ParseParam(raw[j]).Some?
    ensures ParseParam(raw[i]).value.name != ParseParam(raw[j]).value.name
  {
    var k := NamesAt(raw, i);
    var l := NamesAt(raw, j);
    NamesGrow(raw, i + 1, j);
    assert raw[..i + 1][..i] == raw[..i];
    assert k < l;
  }

  // ------------------------------------------------------------ compiled tables

  ghost predicate AllCompiled(routes: seq<SSRRoute>) {
    forall i | 0 <= i < |routes| :: Compiled(routes[i].route)
  }

  /** On compiled routes ssrRoutePatternsOverlap is exact. */
  lemma CompiledOverlapExact(left: string, right: string)
    requires Compiled(left) && Compiled(right)
    ensures PatternsOverlap(SsrRoutePattern(left), SsrRoutePattern(right)) <==> exists path :: Matches(left, path) && Matches(right, path)
  {
    CompiledRoute(left);
    CompiledRoute(right);
    OverlapExact(left, right);
  }

  /**
   Of compiled routes, every table validateSSRRoutes accepts has at most one dynamic match for any
   path, and dispatches the same way under every reordering.
   */
  lemma CompiledDispatch(errorPagePath: ErrorPages, routes: seq<SSRRoute>)
    requires AllCompiled(routes) && Accepted(errorPagePath, routes)
    ensures OrderIrrelevant(routes) && forall path :: AtMostOneHit(routes, path)
  {
    forall i, j | 0 <= j < i < |routes| && IsDynamic(routes[i].route) && IsDynamic(routes[j].route)
      ensures !CleanOverlap(routes[i].route, routes[j].route)
    {
      CompiledPair(errorPagePath, routes, i, j);
    }
    AtMostOneDynamicIff(errorPagePath, routes);
    DispatchOrderIff(errorPagePath, routes);
  }

  lemma CompiledPair(errorPagePath: ErrorPages, routes: seq<SSRRoute>, i: nat, j: nat)
    requires AllCompiled(routes) && Accepted(errorPagePath, routes) && j < i < |routes|
    requires IsDynamic(routes[i].route) && IsDynamic(routes[j].route)
    ensures !CleanOverlap(routes[i].route, routes[j].route)
  {
    CompiledRoute(routes[i].route);
    CompiledRoute(routes[j].route);
    AcceptedPair(errorPagePath, routes, i, j);
    OverlapExact(routes[i].route, routes[j].route);
    CommonPathIffCleanOverlap(routes[i].route, routes[j].route);
  }

  /** The compiler rejects the routes on which the overlap test can be wrong. */
  lemma DotSegmentRejected(a: string)
    requires Plain(a)
    ensures !Compiled("/" + a + "/.")
  {
    var route := "/" + a + "/.";
    assert [a, "."][1..] == ["."];
    assert route == "/" + Join([a, "."], "/");
    SegmentsOfTextIs(route, [a, "."]);
    assert !Canonical(Segments(route)[1]);
    if Compiled(route) {
      CompiledRoute(route);
    }
  }
}
