/**
 Routes as they are written: what ParseRoutePattern of internal/source/routes.go accepts and reads
 is stated on segments, without its scan, and so is what the generated table accepts and serves.
 */
module RouteRoundTrip {
  import opened Text
  import opened SsrRoutes
  import opened RouteSyntax

  // --------------------------------------------------------------- writing routes

  /** A literal segment, {name}, {name:kind} and {name...}. */
  datatype Seg = Literal(text: string) | Param(name: string) | Typed(name: string, kind: string) | Rest(name: string)

  type Shape = seq<Seg>

  function Write(s: Seg): string {
    match s
    case Literal(text) => text
    case Param(name) => "{" + name + "}"
    case Typed(name, kind) => "{" + name + ":" + kind + "}"
    case Rest(name) => "{" + name + "...}"
  }

  function WriteAll(shape: Shape): (texts: seq<string>)
    ensures |texts| == |shape| && forall i | 0 <= i < |shape| :: texts[i] == Write(shape[i])
  {
    seq(|shape|, i requires 0 <= i < |shape| => Write(shape[i]))
  }

  function Written(shape: Shape): string {
    "/" + Join(WriteAll(shape), "/")
  }

  /** A character of a literal segment. */
  predicate Open(c: char) {
    c !in "/{}#?\\" && !IsSpace(c) && !(c < ' ') && !('\U{7F}' <= c <= '\U{9F}')
  }

  /** A name: letters, digits and underscores, not beginning with a digit. */
  predicate Name(name: string) {
    && name != "" && !('0' <= name[0] <= '9')
    && forall c | c in name :: 'a' <= c <= 'z' || 'A' <= c <= 'Z' || '0' <= c <= '9' || c == '_'
  }

  predicate WritableSeg(s: Seg, last: bool) {
    match s
    case Literal(text) => text != "" && text != "." && text != ".." && forall c | c in text :: Open(c)
    case Param(name) => Name(name)
    case Typed(name, kind) => Name(name) && kind in ["string", "int", "int64", "uint", "uint64", "bool", "float64"]
    case Rest(name) => Name(name) && last
  }

  predicate SameName(a: Seg, b: Seg) {
    !a.Literal? && !b.Literal? && a.name == b.name
  }

  /** Every segment can be written, only the last is a rest parameter, and no two parameters share a name. */
  predicate Writable(shape: Shape) {
    && (forall i | 0 <= i < |shape| :: WritableSeg(shape[i], i == |shape| - 1))
    && (forall i, j | 0 <= i < j < |shape| :: !SameName(shape[i], shape[j]))
  }

  /** What reading a segment makes of it. */
  function Normal(s: Seg): string {
    match s
    case Literal(text) => text
    case Rest(_) => "{**}"
    case _ => "{}"
  }

  function Normals(shape: Shape): (texts: seq<string>)
    ensures |texts| == |shape| && forall i | 0 <= i < |shape| :: texts[i] == Normal(shape[i])
  {
    seq(|shape|, i requires 0 <= i < |shape| => Normal(shape[i]))
  }

  /** The names a shape binds, in order. */
  function NamesOf(shape: Shape): seq<string> {
    if shape == [] then []
    else
      var before, last := NamesOf(shape[..|shape| - 1]), shape[|shape| - 1];
      if last.Literal? then before else before + [last.name]
  }

  function RestName(shape: Shape): string {
    if shape != [] && shape[|shape| - 1].Rest? then shape[|shape| - 1].name else ""
  }

  // -------------------------------------------------------------- reading one segment

  function InfoOf(s: Seg): ParamInfo
    requires !s.Literal?
  {
    match s
    case Param(name) => ParamInfo(name, "string", false, false)
    case Typed(name, kind) => ParamInfo(name, kind, false, true)
    case Rest(name) => ParamInfo(name, "string", true, false)
  }

  /** What stands between the braces. */
  function Inner(s: Seg): string
    requires !s.Literal?
  {
    match s
    case Param(name) => name
    case Typed(name, kind) => name + ":" + kind
    case Rest(name) => name + "..."
  }

  lemma NameIs(name: string)
    ensures Name(name) <==> IsIdentifier(name)
    ensures Name(name) ==> forall c | c in name :: Open(c) && c != ':' && c != '.'
  {
    if IsIdentifier(name) {
      forall c | c in name
        ensures 'a' <= c <= 'z' || 'A' <= c <= 'Z' || '0' <= c <= '9' || c == '_'
      {
        var i :| 0 <= i < |name| && name[i] == c;
      }
    }
    if Name(name) {
      assert forall i | 0 <= i < |name| :: name[i] in name;
    }
  }

  lemma KindIs(kind: string)
    ensures kind in ["string", "int", "int64", "uint", "uint64", "bool", "float64"] <==> IsParamType(kind)
    ensures IsParamType(kind) ==> forall c | c in kind :: Open(c)
  {
    if IsParamType(kind) {
      forall c | c in kind
        ensures Open(c)
      {
        KindChars(kind, c);
      }
    }
  }

  lemma KindChars(kind: string, c: char)
    requires IsParamType(kind) && c in kind
    ensures 'a' <= c <= 'z' || '0' <= c <= '9'
  {
  }

  lemma {:induction false} AfterColonOf(name: string, rest: string)
    requires ':' !in name
    ensures AfterColon(name + ":" + rest) == rest
  {
    var s := name + ":" + rest;
    if name != "" {
      assert s[1..] == name[1..] + ":" + rest;
      AfterColonOf(name[1..], rest);
    } else {
      assert s[1..] == rest;
    }
  }

  /** The inside of a written parameter: no character that is special outside, and its parts. */
  lemma InnerParts(s: Seg, last: bool)
    requires !s.Literal? && WritableSeg(s, last)
    ensures var inner := Inner(s); var before := BeforeColon(inner);
            && inner != "" && (forall c | c in inner :: Open(c))
            && HasSuffix(before, "...") == s.Rest?
            && (if s.Rest? then before[..|before| - 3] else before) == s.name
            && (':' in inner <==> s.Typed?) && (s.Typed? ==> AfterColon(inner) == s.kind)
  {
    NameIs(s.name);
    hide Open, Name, IsIdentifier, BeforeColon, AfterColon;
    var name := s.name;
    match s
    case Param(_) => PlainName(name);
    case Typed(_, kind) => TypedParts(name, kind);
    case Rest(_) =>
      BeforeColonPrefix(name + "...");
      assert (name + "...")[..|name|] == name && (name + "...")[|name|..] == "...";
      DotOpen();
  }

  lemma DotOpen()
    ensures Open('.') && Open(':')
  {
  }

  lemma TypedParts(name: string, kind: string)
    requires Name(name) && kind in ["string", "int", "int64", "uint", "uint64", "bool", "float64"]
    ensures var inner := name + ":" + kind;
            && (forall c | c in inner :: Open(c)) && BeforeColon(inner) == name && !HasSuffix(name, "...") && AfterColon(inner) == kind
  {
    NameIs(name);
    KindIs(kind);
    hide Open, IsIdentifier, BeforeColon, AfterColon;
    BeforeColonOf(name, kind);
    AfterColonOf(name, kind);
    NameEnd(name);
    PlainEnd(name, "...");
    DotOpen();
  }

  lemma NameEnd(name: string)
    requires Name(name)
    ensures name[|name| - 1] in name && name[|name| - 1] != '.'
  {
    NameIs(name);
  }

  lemma PlainName(name: string)
    requires Name(name)
    ensures BeforeColon(name) == name && !HasSuffix(name, "...") && ':' !in name
  {
    NameIs(name);
    BeforeColonPrefix(name);
    NameEnd(name);
    PlainEnd(name, "...");
  }

  /** Around text without braces, one brace of each kind. */
  lemma BracedCounts(inner: string)
    requires forall c | c in inner :: Open(c)
    ensures var text := "{" + inner + "}";
            multiset(text)['{'] == 1 && multiset(text)['}'] == 1 && IsParam(text) && text[1..|text| - 1] == inner && ContainsBrace(text)
  {
    var text := "{" + inner + "}";
    assert Open('x') && '{' !in inner && '}' !in inner;
    assert multiset(text) == multiset{'{'} + multiset(inner) + multiset{'}'};
    assert text[|text| - 1..] == "}" && text[0] == '{' && text[..1] == "{";
  }

  lemma WriteInner(s: Seg)
    requires !s.Literal?
    ensures Write(s) == "{" + Inner(s) + "}"
  {
    match s
    case Param(name) =>
    case Typed(name, kind) => assert "{" + (name + ":" + kind) + "}" == "{" + name + ":" + kind + "}";
    case Rest(name) => assert "{" + (name + "...") + "}" == "{" + name + "...}";
  }

  /** A written parameter is read back as it was meant. */
  lemma ParamRead(s: Seg, last: bool)
    requires !s.Literal? && WritableSeg(s, last)
    ensures var text := Write(s); ContainsBrace(text) && Canonical(text) && ParseParam(text) == Some(InfoOf(s)) && GoodParam(InfoOf(s), last)
  {
    hide *;
    WriteInner(s);
    InnerParts(s, last);
    BracedCounts(Inner(s));
    GoodRead(s, last);
    ParseFrom(Write(s), Inner(s), s);
  }

  /** Reading braced text whose inside has these parts. */
  lemma ParseFrom(text: string, inner: string, s: Seg)
    requires !s.Literal? && text == "{" + inner + "}" && IsParam(text) && multiset(text)['{'] == 1 && multiset(text)['}'] == 1 && inner != ""
    requires var before := BeforeColon(inner);
             && HasSuffix(before, "...") == s.Rest?
             && (if s.Rest? then before[..|before| - 3] else before) == s.name
             && (':' in inner <==> s.Typed?) && (s.Typed? ==> AfterColon(inner) == s.kind)
    ensures ParseParam(text) == Some(InfoOf(s)) && Canonical(text)
  {
    hide BeforeColon, AfterColon, IsParam;
    assert text[1..|text| - 1] == inner && text[0] == '{';
  }

  lemma GoodRead(s: Seg, last: bool)
    requires !s.Literal? && WritableSeg(s, last)
    ensures GoodParam(InfoOf(s), last)
  {
    NameIs(s.name);
    NameEnd(s.name);
    IdentifierPlain(s.name);
    assert !HasSuffix(s.name, "?");
    if s.Typed? {
      KindIs(s.kind);
    }
  }

  lemma LiteralRead(s: Seg, last: bool)
    requires s.Literal? && WritableSeg(s, last)
    ensures Canonical(s.text) && !ContainsBrace(s.text)
  {
    assert forall i | 0 <= i < |s.text| :: s.text[i] in s.text;
  }

  /** The characters of a written segment. */
  lemma WrittenChars(s: Seg, last: bool, c: char)
    requires WritableSeg(s, last) && c in Write(s)
    ensures c == '{' || c == '}' || Open(c)
  {
    if !s.Literal? {
      WriteInner(s);
      InnerParts(s, last);
      assert c == '{' || c == '}' || c in Inner(s);
    }
  }

  // --------------------------------------------------------------- reading the whole

  /** Reading the first n segments of a written route. */
  lemma {:induction false} WalkWritten(shape: Shape, n: nat)
    requires Writable(shape) && n <= |shape|
    ensures Walk([], WriteAll(shape), n) == Parsed([], Normals(shape[..n]), NamesOf(shape[..n]), RestName(shape[..n]))
  {
    if n == 0 {
      assert Normals(shape[..0]) == [];
    } else {
      var before, s, last := shape[..n - 1], shape[n - 1], n == |shape|;
      WalkWritten(shape, n - 1);
      ReadStep(shape, n);
      if !s.Literal? {
        NewName(shape, n - 1, n - 1);
      }
      hide *;
      StepWritten(Parsed([], Normals(before), NamesOf(before), RestName(before)), s, last);
      WalkStep(shape, n);
    }
  }

  lemma WalkStep(shape: Shape, n: nat)
    requires 0 < n <= |shape|
    ensures Walk([], WriteAll(shape), n) == Step(Walk([], WriteAll(shape), n - 1), Write(shape[n - 1]), n == |shape|)
  {
  }

  lemma ReadStep(shape: Shape, n: nat)
    requires Writable(shape) && 0 < n <= |shape|
    ensures var before, s := shape[..n - 1], shape[n - 1];
            && Normals(shape[..n]) == Normals(before) + [Normal(s)]
            && NamesOf(shape[..n]) == (if s.Literal? then NamesOf(before) else NamesOf(before) + [s.name])
            && RestName(shape[..n]) == (if s.Rest? then s.name else RestName(before))
            && WritableSeg(s, n == |shape|)
  {
    hide WritableSeg;
    var before := shape[..n - 1];
    assert shape[..n][..n - 1] == before;
    if before != [] {
      NotRest(shape, n - 2);
    }
  }

  lemma NotRest(shape: Shape, i: nat)
    requires Writable(shape) && i < |shape| - 1
    ensures !shape[i].Rest?
  {
    assert WritableSeg(shape[i], i == |shape| - 1);
  }

  lemma StepWritten(acc: Parsed, s: Seg, last: bool)
    requires WritableSeg(s, last) && (!s.Literal? ==> s.name !in acc.params)
    ensures Step(acc, Write(s), last)
            == Parsed(acc.issues, acc.segments + [Normal(s)], if s.Literal? then acc.params else acc.params + [s.name],
                      if s.Rest? then s.name else acc.restParam)
  {
    hide ParseParam, GoodParam, ContainsBrace, WritableSeg;
    if s.Literal? {
      LiteralRead(s, last);
    } else {
      ParamRead(s, last);
    }
  }

  lemma {:induction false} NewName(shape: Shape, n: nat, k: nat)
    requires Writable(shape) && n <= k < |shape| && !shape[k].Literal?
    ensures shape[k].name !in NamesOf(shape[..n])
  {
    if n > 0 {
      assert shape[..n][..n - 1] == shape[..n - 1];
      NewName(shape, n - 1, k);
      assert !SameName(shape[n - 1], shape[k]);
    }
  }

  lemma {:induction false} NoQuery(depth: nat, s: string)
    requires '?' !in s
    ensures !QueryOutside(depth, s)
    decreases |s|
  {
    if s != "" {
      NoQuery(Deeper(depth, s[0]), s[1..]);
    }
  }

  /** What is nowhere in the segments is nowhere in the route. */
  lemma WrittenLacks(shape: Shape, c: char)
    requires Writable(shape) && c != '/' && c != '{' && c != '}' && !Open(c)
    ensures c !in Written(shape)
  {
    var texts := WriteAll(shape);
    forall i | 0 <= i < |texts|
      ensures c !in texts[i]
    {
      if c in texts[i] {
        WrittenChars(shape[i], i == |shape| - 1, c);
      }
    }
    JoinLacks(texts, "/", c);
  }

  lemma WrittenText(shape: Shape)
    requires Writable(shape)
    ensures TextIssues(Written(shape)) == []
  {
    var route := Written(shape);
    WrittenLacks(shape, '#');
    WrittenLacks(shape, '?');
    WrittenLacks(shape, '\\');
    NoQuery(0, route);
    forall i | 0 <= i < |route|
      ensures !SpaceOrControl(route[i])
    {
      if SpaceOrControl(route[i]) {
        WrittenLacks(shape, route[i]);
        assert false;
      }
    }
    TrimSpaceTrims(route);
    assert route[0] == '/' && !SpaceOrControl(route[|route| - 1]);
  }

  lemma WrittenRaw(shape: Shape)
    requires Writable(shape) && shape != []
    ensures Split(Written(shape)[1..], '/') == WriteAll(shape) && Written(shape) != "/"
  {
    var texts := WriteAll(shape);
    forall i | 0 <= i < |texts|
      ensures '/' !in texts[i] && texts[i] != ""
    {
      if '/' in texts[i] {
        WrittenChars(shape[i], i == |shape| - 1, '/');
      }
      if !shape[i].Literal? {
        WriteInner(shape[i]);
      }
    }
    assert Written(shape)[1..] == Join(texts, "/");
    assert ['/'] == "/";
    SplitJoin(texts, '/');
    assert texts[0] != "";
    assert Split("", '/') == [""];
  }

  /** Reading a written route gives its normal form, its parameters in order, its rest parameter, and no issue. */
  lemma ParseWritten(shape: Shape)
    requires Writable(shape)
    ensures Parse(Written(shape)) == Pattern("/" + Join(Normals(shape), "/"), NamesOf(shape), RestName(shape), [])
  {
    hide TextIssues, Walk, Normals, WriteAll;
    WrittenText(shape);
    if shape == [] {
      assert WriteAll(shape) == [] && Normals(shape) == [] && Written(shape) == "/";
    } else {
      WrittenRaw(shape);
      WalkWritten(shape, |shape|);
      assert shape[..|shape|] == shape;
    }
  }

  // -------------------------------------------------------- nothing else is accepted

  function SegOf(segment: string): Seg {
    if !ContainsBrace(segment) || ParseParam(segment).None? then Literal(segment)
    else
      var info := ParseParam(segment).value;
      if info.rest then Rest(info.name) else if info.hasType then Typed(info.name, info.kind) else Param(info.name)
  }

  function ShapeOf(raw: seq<string>): (shape: Shape)
    ensures |shape| == |raw| && forall i | 0 <= i < |raw| :: shape[i] == SegOf(raw[i])
  {
    seq(|raw|, i requires 0 <= i < |raw| => SegOf(raw[i]))
  }

  lemma GoodIsWritable(segment: string, last: bool)
    requires GoodSegment(segment, last) && '/' !in segment && '?' !in segment && '#' !in segment && '\\' !in segment
    requires forall c | c in segment :: !SpaceOrControl(c)
    ensures WritableSeg(SegOf(segment), last) && Write(SegOf(segment)) == segment
  {
    if ContainsBrace(segment) {
      Spelled(segment);
      var info := ParseParam(segment).value;
      NameIs(info.name);
      KindIs(info.kind);
    } else {
      forall c | c in segment
        ensures Open(c)
      {
        var i :| 0 <= i < |segment| && segment[i] == c;
        assert c != '{' && c != '}';
      }
    }
  }

  lemma NoBackslash(route: string)
    requires TextIssues(route) == []
    ensures '\\' !in route
  {
  }

  lemma {:induction false} JoinHas(parts: seq<string>, sep: string, i: nat, c: char)
    requires i < |parts| && c in parts[i]
    ensures c in Join(parts, sep)
  {
    if |parts| > 1 && i > 0 {
      JoinHas(parts[1..], sep, i - 1, c);
    }
  }

  lemma CompiledShape(route: string) returns (shape: Shape)
    requires Compiled(route)
    ensures Writable(shape) && route == Written(shape)
  {
    if route == "/" {
      shape := [];
      RootShape();
    } else {
      var raw := Split(route[1..], '/');
      CompiledRaw(route);
      hide *;
      shape := ShapeOf(raw);
      RawWritable(route, raw);
      ShapeText(route, raw);
    }
  }

  lemma RootShape()
    ensures Writable([]) && Written([]) == "/"
  {
    assert WriteAll([]) == [];
  }

  lemma ShapeText(route: string, raw: seq<string>)
    requires route == "/" + Join(raw, "/") && forall i | 0 <= i < |raw| :: Write(SegOf(raw[i])) == raw[i]
    ensures Written(ShapeOf(raw)) == route
  {
    assert WriteAll(ShapeOf(raw)) == raw;
  }

  /** The raw segments of an accepted route: good, with distinct names, and of plain characters. */
  ghost predicate RawOf(route: string, raw: seq<string>) {
    && raw != [] && route == "/" + Join(raw, "/") && raw == Split(route[1..], '/')
    && '#' !in route && '\\' !in route && !QueryOutside(0, route)
    && (forall i | 0 <= i < |route| :: !SpaceOrControl(route[i]))
    && (forall i | 0 <= i < |raw| :: GoodSegment(raw[i], i == |raw| - 1))
    && Distinct(Names(raw))
  }

  lemma CompiledRaw(route: string)
    requires Compiled(route) && route != "/"
    ensures RawOf(route, Split(route[1..], '/'))
  {
    hide TextIssues, Walk, GoodSegment, Names, SpaceOrControl, Distinct, QueryOutside;
    var raw := Split(route[1..], '/');
    CompiledSegments(route);
    CompiledTextClean(route);
    CompiledStart(route);
    WalkClean(TextIssues(route), raw, |raw|);
    NoBackslash(route);
    assert raw[..|raw|] == raw;
  }

  lemma RawWritable(route: string, raw: seq<string>)
    requires RawOf(route, raw)
    ensures Writable(ShapeOf(raw)) && forall i | 0 <= i < |raw| :: Write(SegOf(raw[i])) == raw[i]
  {
    hide RawOf, WritableSeg, SegOf;
    var shape := ShapeOf(raw);
    forall i | 0 <= i < |raw|
      ensures WritableSeg(shape[i], i == |raw| - 1) && Write(shape[i]) == raw[i]
    {
      RawSegment(route, raw, i);
    }
    forall i, j | 0 <= i < j < |raw|
      ensures !SameName(shape[i], shape[j])
    {
      RawNames(route, raw, i, j);
    }
  }

  lemma RawSegment(route: string, raw: seq<string>, i: nat)
    requires RawOf(route, raw) && i < |raw|
    ensures WritableSeg(SegOf(raw[i]), i == |raw| - 1) && Write(SegOf(raw[i])) == raw[i]
  {
    hide GoodSegment, Names, ContainsBrace, ParseParam, WritableSeg, SpaceOrControl, Distinct, QueryOutside, Split, Join, SegOf;
    RawPlain(route, raw);
    JoinSplit(route[1..], '/');
    forall c | c in raw[i]
      ensures c in route && !SpaceOrControl(c)
    {
      JoinHas(raw, "/", i, c);
      var k :| 0 <= k < |route| && route[k] == c;
    }
    GoodIsWritable(raw[i], i == |raw| - 1);
  }

  lemma RawNames(route: string, raw: seq<string>, i: nat, j: nat)
    requires RawOf(route, raw) && i < j < |raw|
    ensures !SameName(SegOf(raw[i]), SegOf(raw[j]))
  {
    if !SegOf(raw[i]).Literal? && !SegOf(raw[j]).Literal? {
      NamesDiffer(raw, i, j);
    }
  }

  lemma RawPlain(route: string, raw: seq<string>)
    requires raw != [] && route == "/" + Join(raw, "/") && !QueryOutside(0, route)
    requires forall i | 0 <= i < |raw| :: GoodSegment(raw[i], i == |raw| - 1)
    ensures forall i | 0 <= i < |raw| :: '?' !in raw[i]
  {
    hide GoodSegment;
    var tail := Join(raw, "/");
    assert ("/" + tail)[1..] == tail && raw[0..] == raw;
    GoodSegmentsScan(raw, 0);
  }

  /** Exactly the written routes are accepted. */
  lemma CompiledIff(route: string)
    ensures Compiled(route) <==> exists shape :: Writable(shape) && route == Written(shape)
  {
    hide Compiled;
    if Compiled(route) {
      var shape := CompiledShape(route);
    }
    forall shape | Writable(shape) && route == Written(shape)
      ensures Compiled(route)
    {
      WrittenCompiles(shape);
    }
  }

  lemma WrittenCompiles(shape: Shape)
    requires Writable(shape)
    ensures Compiled(Written(shape))
  {
    ParseWritten(shape);
  }
}
