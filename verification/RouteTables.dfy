/**
 The generated SSR table on routes as they are written: which tables of compiled routes
 validateSSRRoutes of internal/appgen/validate_ssr.go accepts, and which page the emitted lookups
 give to which path, stated on segments.
 */
module RouteTables {
  import opened Text
  import opened SsrRoutes
  import opened RouteSyntax
  import opened RouteRoundTrip

  // ------------------------------------------------------------------- one route

  predicate Dynamic(shape: Shape) {
    exists i | 0 <= i < |shape| :: !shape[i].Literal?
  }

  /** Literals stand for themselves, a parameter for any segment, a rest parameter for one segment or more. */
  predicate Fits(shape: Shape, parts: seq<string>) {
    && |shape| <= |parts|
    && (shape == [] || !shape[|shape| - 1].Rest? ==> |shape| == |parts|)
    && forall i | 0 <= i < |shape| && shape[i].Literal? :: shape[i].text == parts[i]
  }

  lemma SegShape(s: Seg, last: bool)
    requires WritableSeg(s, last)
    ensures var text := Write(s);
            IsParam(text) == !s.Literal? && IsRest(text) == s.Rest? && Canonical(text) && '/' !in text && ContainsBrace(text) == !s.Literal?
  {
    if s.Literal? {
      LiteralShape(s, last);
    } else {
      ParamShape(s, last);
    }
  }

  lemma LiteralShape(s: Seg, last: bool)
    requires s.Literal? && WritableSeg(s, last)
    ensures !IsParam(s.text) && !IsRest(s.text) && Canonical(s.text) && '/' !in s.text && !ContainsBrace(s.text)
  {
    LiteralRead(s, last);
    hide ContainsBrace;
    ParamHasBrace(s.text);
    assert s.text[0] in s.text;
    assert s.text[0] != '{';
  }

  lemma ParamShape(s: Seg, last: bool)
    requires !s.Literal? && WritableSeg(s, last)
    ensures IsParam(Write(s)) && IsRest(Write(s)) == s.Rest? && Canonical(Write(s)) && '/' !in Write(s) && ContainsBrace(Write(s))
  {
    RestEnd(s, last);
    ParamRead(s, last);
    hide ContainsBrace, WritableSeg, Write, Open;
    WriteInner(s);
    InnerParts(s, last);
    BracedCounts(Inner(s));
    NoSlash(Inner(s));
    var text := "{" + Inner(s) + "}";
    assert text[0] == '{' && "{" <= text;
  }

  lemma NoSlash(inner: string)
    requires forall c | c in inner :: Open(c)
    ensures '/' !in inner && '/' !in "{" + inner + "}"
  {
  }

  lemma RestEnd(s: Seg, last: bool)
    requires !s.Literal? && WritableSeg(s, last)
    ensures HasSuffix(Write(s), "...}") <==> s.Rest?
  {
    NameIs(s.name);
    if s.Typed? {
      KindIs(s.kind);
    }
    var info := InfoOf(s);
    assert IsParamType("string");
    assert Spelling(info) == Write(s);
    SpellingEnd(info);
  }

  lemma WrittenSegments(shape: Shape)
    requires Writable(shape)
    ensures Segments(Written(shape)) == WriteAll(shape) && AllCanonical(WriteAll(shape))
    ensures SplitPath(Written(shape)) == WriteAll(shape)
  {
    var texts := WriteAll(shape);
    forall i | 0 <= i < |texts|
      ensures Canonical(texts[i]) && '/' !in texts[i]
    {
      SegShape(shape[i], i == |shape| - 1);
    }
    SegmentsOfText(texts);
    SplitPathCanonical(Written(shape));
  }

  /**
   Exactly which paths a compiled route serves: those without empty, dot or dot-dot segments whose
   segments fit the route's.
   */
  lemma MatchesIff(shape: Shape, path: string)
    requires Writable(shape)
    ensures Matches(Written(shape), path) <==>
              && (forall i | 0 <= i < |path| - 1 :: !(path[i] == '/' && path[i + 1] == '/'))
              && (forall i | 0 <= i < |Segments(path)| :: Segments(path)[i] !in ["", ".", ".."])
              && Fits(shape, Segments(path))
  {
    hide Segments, SplitPath, Write;
    WrittenSegments(shape);
    var texts := WriteAll(shape);
    forall i | 0 <= i < |shape|
      ensures IsParam(texts[i]) == !shape[i].Literal? && IsRest(texts[i]) == shape[i].Rest? && (shape[i].Literal? ==> texts[i] == shape[i].text)
    {
      SegShape(shape[i], i == |shape| - 1);
      LiteralText(shape[i]);
    }
    if AllCanonical(Segments(path)) {
      SplitPathCanonical(path);
    }
  }

  lemma LiteralText(s: Seg)
    ensures s.Literal? ==> Write(s) == s.text
  {
  }

  lemma DynamicIff(shape: Shape)
    requires Writable(shape)
    ensures IsDynamic(Written(shape)) <==> Dynamic(shape)
  {
    hide Segments, SplitPath, Write, IsParam;
    WrittenSegments(shape);
    forall i | 0 <= i < |shape|
      ensures IsParam(WriteAll(shape)[i]) == !shape[i].Literal?
    {
      SegShape(shape[i], i == |shape| - 1);
    }
  }

  /** The same route up to the names and kinds of its parameters. */
  predicate SamePattern(a: Shape, b: Shape) {
    && |a| == |b|
    && forall i | 0 <= i < |a| :: a[i] == b[i] || (!a[i].Literal? && !b[i].Literal? && a[i].Rest? == b[i].Rest?)
  }

  lemma NormalSame(a: Seg, b: Seg, last: bool)
    requires WritableSeg(a, last) && WritableSeg(b, last)
    ensures Normal(a) == Normal(b) <==> a == b || (!a.Literal? && !b.Literal? && a.Rest? == b.Rest?)
    ensures '/' !in Normal(a) && Normal(a) != ""
  {
    NotBraces(a, last);
    NotBraces(b, last);
  }

  lemma NotBraces(s: Seg, last: bool)
    requires WritableSeg(s, last)
    ensures s.Literal? ==> s.text != "{}" && s.text != "{**}" && '/' !in s.text
  {
    assert "{}"[0] == '{' && "{**}"[0] == '{';
    if s.Literal? && s.text != "" {
      assert s.text[0] in s.text;
    }
  }

  lemma PatternsSame(a: Shape, b: Shape)
    requires Writable(a) && Writable(b)
    ensures SsrRoutePattern(Written(a)) == SsrRoutePattern(Written(b)) <==> SamePattern(a, b)
  {
    hide Parse, SsrRoutePattern, Normal, WritableSeg, Write;
    ParseWritten(a);
    ParseWritten(b);
    WrittenCompiles(a);
    WrittenCompiles(b);
    CompiledRoute(Written(a));
    CompiledRoute(Written(b));
    NormalsSame(a, b);
    var x, y := Join(Normals(a), "/"), Join(Normals(b), "/");
    assert ("/" + x)[1..] == x && ("/" + y)[1..] == y;
  }

  lemma NormalsSame(a: Shape, b: Shape)
    requires Writable(a) && Writable(b)
    ensures Join(Normals(a), "/") == Join(Normals(b), "/") <==> SamePattern(a, b)
  {
    hide Normal, WritableSeg;
    NormalsPlain(a);
    NormalsPlain(b);
    JoinedSame(Normals(a), Normals(b));
    if |a| == |b| {
      forall i | 0 <= i < |a|
        ensures Normals(a)[i] == Normals(b)[i] <==> a[i] == b[i] || (!a[i].Literal? && !b[i].Literal? && a[i].Rest? == b[i].Rest?)
      {
        NormalSame(a[i], b[i], i == |a| - 1);
      }
    }
  }

  lemma NormalsPlain(a: Shape)
    requires Writable(a)
    ensures forall i | 0 <= i < |a| :: Normals(a)[i] != "" && '/' !in Normals(a)[i]
  {
    hide Normal, WritableSeg;
    forall i | 0 <= i < |a|
      ensures Normals(a)[i] != "" && '/' !in Normals(a)[i]
    {
      NormalSame(a[i], a[i], i == |a| - 1);
    }
  }

  /** Joined, plain nonempty segments are told apart, the empty list included. */
  lemma JoinedSame(a: seq<string>, b: seq<string>)
    requires forall i | 0 <= i < |a| :: a[i] != "" && '/' !in a[i]
    requires forall i | 0 <= i < |b| :: b[i] != "" && '/' !in b[i]
    ensures Join(a, "/") == Join(b, "/") <==> a == b
  {
    assert ['/'] == "/";
    if a != [] && b != [] && Join(a, "/") == Join(b, "/") {
      JoinInjective(a, b, '/');
    }
    assert a != [] ==> Join(a, "/") != "";
    assert b != [] ==> Join(b, "/") != "";
  }

  // ------------------------------------------------------------------- the table

  /** The entry's route is written in this shape. */
  ghost predicate Shaped(routes: seq<SSRRoute>, shapes: seq<Shape>) {
    |shapes| == |routes| && forall i | 0 <= i < |routes| :: Writable(shapes[i]) && routes[i].route == Written(shapes[i])
  }

  /** The shape has a parameter of this name. */
  predicate Binds(shape: Shape, name: string) {
    exists i | 0 <= i < |shape| :: !shape[i].Literal? && shape[i].name == name
  }

  /** What an entry must have: a page, HTML, a known error page if any, and replacements for its parameters. */
  predicate Complete(errorPagePath: ErrorPages, r: SSRRoute, shape: Shape) {
    && TrimSpace(r.pageId) != "" && TrimSpace(r.html) != ""
    && (r.errorPage == "" || errorPagePath(r.errorPage).Some?)
    && (forall k | 0 <= k < |r.replacements| ::
          && TrimSpace(r.replacements[k].placeholder) != ""
          && Binds(shape, r.replacements[k].param))
    && (forall j, k | 0 <= j < k < |r.replacements| :: r.replacements[j].placeholder != r.replacements[k].placeholder)
  }

  lemma DeclaresIff(shape: Shape, name: string)
    requires Writable(shape)
    ensures DeclaresParam(Written(shape), name) <==> Binds(shape, name)
  {
    hide Segments, SplitPath, Write, IsParam, ParamName;
    WrittenSegments(shape);
    var texts := WriteAll(shape);
    forall i | 0 <= i < |shape|
      ensures IsParam(texts[i]) == !shape[i].Literal?
      ensures !shape[i].Literal? ==> |texts[i]| >= 2 && ParamName(texts[i]) == shape[i].name
    {
      SegShape(shape[i], i == |shape| - 1);
      if !shape[i].Literal? {
        SegName(shape[i], i == |shape| - 1);
      }
    }
  }

  lemma SegName(s: Seg, last: bool)
    requires !s.Literal? && WritableSeg(s, last)
    ensures var text := Write(s); IsParam(text) && |text| >= 2 && ParamName(text) == s.name
  {
    SegShape(s, last);
    NameIs(s.name);
    if s.Typed? {
      KindIs(s.kind);
    }
    var info := InfoOf(s);
    assert IsParamType("string");
    assert Spelling(info) == Write(s);
    ParamNameOf(info, Write(s));
  }

  lemma EntryIff(errorPagePath: ErrorPages, r: SSRRoute, shape: Shape)
    requires Writable(shape) && r.route == Written(shape)
    ensures ValidEntry(errorPagePath, r) <==> Complete(errorPagePath, r, shape)
  {
    WrittenCompiles(shape);
    hide *;
    CompiledRoute(r.route);
    forall name
      ensures DeclaresParam(r.route, name) <==> Binds(shape, name)
    {
      DeclaresIff(shape, name);
    }
    ReplacementsIff(r, shape);
    EntryParts(errorPagePath, r, shape);
  }

  ghost predicate Replaced(r: SSRRoute, shape: Shape) {
    && (forall k | 0 <= k < |r.replacements| ::
          Binds(shape, r.replacements[k].param) && TrimSpace(r.replacements[k].placeholder) != "")
    && (forall j, k | 0 <= j < k < |r.replacements| :: r.replacements[j].placeholder != r.replacements[k].placeholder)
  }

  lemma ReplacementsIff(r: SSRRoute, shape: Shape)
    requires forall name :: DeclaresParam(r.route, name) <==> Binds(shape, name)
    ensures ValidReplacements(r) <==> Replaced(r, shape)
  {
    hide DeclaresParam, Binds, TrimSpace;
  }

  lemma EntryParts(errorPagePath: ErrorPages, r: SSRRoute, shape: Shape)
    requires ValidRoute(r.route) && (ValidReplacements(r) <==> Replaced(r, shape))
    ensures ValidEntry(errorPagePath, r) <==> Complete(errorPagePath, r, shape)
  {
    hide ValidRoute, ValidReplacements, TrimSpace, Binds;
  }

  /** Some path is served by both. */
  ghost predicate Meet(a: Shape, b: Shape) {
    exists path :: Matches(Written(a), path) && Matches(Written(b), path)
  }

  /**
   Exactly which tables of compiled routes are accepted: every entry is complete, no two are the
   same route up to the names and kinds of parameters, and no two dynamic ones serve a common path.
   */
  lemma AcceptedIff(errorPagePath: ErrorPages, routes: seq<SSRRoute>, shapes: seq<Shape>)
    requires Shaped(routes, shapes)
    ensures Accepted(errorPagePath, routes) <==>
              && (forall i | 0 <= i < |routes| :: Complete(errorPagePath, routes[i], shapes[i]))
              && (forall i, j | 0 <= j < i < |routes| :: !SamePattern(shapes[i], shapes[j]))
              && (forall i, j | 0 <= j < i < |routes| && Dynamic(shapes[i]) && Dynamic(shapes[j]) :: !Meet(shapes[i], shapes[j]))
  {
    hide ValidEntry, Complete, SamePattern, Dynamic, Meet, SsrRoutePattern, IsDynamic, PatternsOverlap, Writable, Written, Clash, Accepted;
    var keys := Keys(errorPagePath, routes);
    AcceptedKeys(errorPagePath, routes);
    forall i | 0 <= i < |routes|
      ensures keys[i].valid <==> Complete(errorPagePath, routes[i], shapes[i])
    {
      EntryIff(errorPagePath, routes[i], shapes[i]);
    }
    forall i, j | 0 <= j < i < |routes|
      ensures Clash(PatternsOverlap, keys[i], keys[j]) <==>
                SamePattern(shapes[i], shapes[j]) || (Dynamic(shapes[i]) && Dynamic(shapes[j]) && Meet(shapes[i], shapes[j]))
    {
      ClashIff(errorPagePath, routes[i], routes[j], shapes[i], shapes[j]);
    }
  }

  lemma AcceptedKeys(errorPagePath: ErrorPages, routes: seq<SSRRoute>)
    ensures var keys := Keys(errorPagePath, routes);
            Accepted(errorPagePath, routes) <==>
              && (forall i | 0 <= i < |routes| :: keys[i].valid)
              && (forall i, j | 0 <= j < i < |routes| :: !Clash(PatternsOverlap, keys[i], keys[j]))
  {
    hide Clash, ValidEntry, PatternsOverlap;
    var keys := Keys(errorPagePath, routes);
    if Accepted(errorPagePath, routes) {
      forall i | 0 <= i < |routes|
        ensures keys[i].valid && forall j | 0 <= j < i :: !Clash(PatternsOverlap, keys[i], keys[j])
      {
        assert FreeAt(PatternsOverlap, keys, i);
      }
    }
  }

  lemma ClashIff(errorPagePath: ErrorPages, r: SSRRoute, q: SSRRoute, a: Shape, b: Shape)
    requires Writable(a) && Writable(b) && r.route == Written(a) && q.route == Written(b)
    ensures Clash(PatternsOverlap, KeyOf(errorPagePath, r), KeyOf(errorPagePath, q)) <==>
              SamePattern(a, b) || (Dynamic(a) && Dynamic(b) && Meet(a, b))
  {
    hide ValidEntry, SamePattern, Dynamic, SsrRoutePattern, IsDynamic, PatternsOverlap, Writable, Written, Matches, Compiled;
    PatternsSame(a, b);
    DynamicIff(a);
    DynamicIff(b);
    WrittenCompiles(a);
    WrittenCompiles(b);
    CompiledOverlapExact(Written(a), Written(b));
  }

  /**
   Exactly which page serves a path in an accepted table of compiled routes: by the emitted switch,
   the static entry whose route is the path; by the emitted chain, the one dynamic entry it fits.
   */
  lemma ServedIff(errorPagePath: ErrorPages, routes: seq<SSRRoute>, shapes: seq<Shape>, i: nat, path: string)
    requires Shaped(routes, shapes) && Accepted(errorPagePath, routes) && i < |routes|
    ensures SsrDynamic(routes, path) == Some(routes[i]) <==> Dynamic(shapes[i]) && Matches(Written(shapes[i]), path)
    ensures SsrExact(routes, path) == Some(routes[i]) <==> !Dynamic(shapes[i]) && path == Written(shapes[i])
  {
    hide Writable, Written, Dynamic, IsDynamic, Matches, Compiled, SsrDynamic, SsrExact, ValidKeys;
    forall k | 0 <= k < |routes|
      ensures IsDynamic(routes[k].route) <==> Dynamic(shapes[k])
      ensures Compiled(routes[k].route)
    {
      DynamicIff(shapes[k]);
      WrittenCompiles(shapes[k]);
    }
    CompiledDispatch(errorPagePath, routes);
    assert AtMostOneHit(routes, path);
    DynamicFinds(routes, path);
    ExactFinds(routes, path);
    if SsrDynamic(routes, path).Some? && Hit(routes[i], path) {
      SameHit(routes, r => Hit(r, path), SsrDynamic(routes, path).value, routes[i]);
    }
    if SsrExact(routes, path).Some? && routes[i].route == path {
      SamePage(errorPagePath, routes, SsrExact(routes, path).value, routes[i]);
    }
  }

  lemma SamePage(errorPagePath: ErrorPages, routes: seq<SSRRoute>, a: SSRRoute, b: SSRRoute)
    requires Accepted(errorPagePath, routes) && a in routes && b in routes && a.route == b.route
    ensures a == b
  {
    SameTextSamePage(errorPagePath, routes, a, b);
  }

  // -------------------------------------------------------------- cleaning paths

  /** Canonical segments are pushed one after the other. */
  lemma {:induction false} CleanPushes(stack: seq<string>, a: seq<string>, b: seq<string>)
    ensures Clean(stack, a + b) == Clean(Clean(stack, a), b)
    decreases |a|
  {
    if a == [] {
      assert a + b == b;
    } else {
      var stack' := if a[0] == "" || a[0] == "." then stack
                    else if a[0] == ".." then (if stack == [] then [] else stack[..|stack| - 1])
                    else stack + [a[0]];
      assert (a + b)[1..] == a[1..] + b;
      CleanPushes(stack', a[1..], b);
    }
  }

  lemma CleanOne(stack: seq<string>, part: string)
    ensures Clean(stack, [part]) == if part == "" || part == "." then stack
                                    else if part == ".." then (if stack == [] then [] else stack[..|stack| - 1])
                                    else stack + [part]
  {
    assert [part][1..] == [];
  }

  /**
   The laws of path.Clean, which determine it: empty and dot segments go, dot-dot takes the segment
   before it along, at the root it goes by itself, and a path without them stays as it is.
   */
  lemma CleanLaws(before: seq<string>, x: string, after: seq<string>)
    ensures Clean([], before + [""] + after) == Clean([], before + after)
    ensures Clean([], before + ["."] + after) == Clean([], before + after)
    ensures Canonical(x) ==> Clean([], before + [x, ".."] + after) == Clean([], before + after)
    ensures Clean([], [".."] + after) == Clean([], after)
    ensures AllCanonical(before) ==> Clean([], before) == before
  {
    hide Clean;
    var stack := Clean([], before);
    CleanPushes([], before, after);
    CleanMiddle(before, [""], after);
    CleanMiddle(before, ["."], after);
    CleanMiddle(before, [x, ".."], after);
    CleanMiddle([], [".."], after);
    CleanOne(stack, "");
    CleanOne(stack, ".");
    CleanOne([], "..");
    CleanNone();
    if Canonical(x) {
      CleanBack(stack, x);
    }
    if AllCanonical(before) {
      CleanCanonical([], before);
    }
    assert [] + [".."] + after == [".."] + after;
  }

  lemma CleanNone()
    ensures Clean([], []) == []
  {
  }

  lemma CleanBack(stack: seq<string>, x: string)
    requires Canonical(x)
    ensures Clean(stack, [x, ".."]) == stack
  {
    hide Clean;
    CleanPushes(stack, [x], [".."]);
    CleanOne(stack, x);
    CleanOne(stack + [x], "..");
    assert [x] + [".."] == [x, ".."];
    assert (stack + [x])[..|stack + [x]| - 1] == stack;
  }

  lemma CleanMiddle(before: seq<string>, middle: seq<string>, after: seq<string>)
    ensures Clean([], before + middle + after) == Clean(Clean(Clean([], before), middle), after)
  {
    CleanPushes([], before + middle, after);
    CleanPushes([], before, middle);
  }
}
