/**
 Realtime audience fan-out, internal/appgen/source_realtime.go: the compile-time tables that
 give every subscribing route a label and every query its audiences, and the emitted code that
 splits one invalidation notice into scoped events.  An event reaches a client when every label
 of the event is among the client's labels (addons/realtime/realtime.go).
 */
module Realtime {
  import opened Text
  import opened Dedupe
  import opened Guards

  // ------------------------------------------------------------ program input

  datatype Page = Page(id: string, route: string)

  /** realtimeRoutesByPage: the last nonempty route declared for each page. */
  function RoutesByPage(pages: seq<Page>): map<string, string> {
    if pages == [] then map[]
    else
      var page, earlier := pages[|pages| - 1], RoutesByPage(pages[..|pages| - 1]);
      var route := TrimSpace(page.route);
      if page.id == "" || route == "" then earlier else earlier[page.id := route]
  }

  /** The route of a page-owned entry, "" when there is none. */
  function RouteOf(routes: map<string, string>, pageOwned: bool, ownerId: string): string {
    if pageOwned && ownerId in routes then routes[ownerId] else ""
  }

  // ------------------------------------------------------------------ labels

  datatype StreamRoute = StreamRoute(route: string, guards: seq<string>, audience: string)

  /** An entry that may open a stream: a bound subscription or invalidation. */
  datatype Source = Source(pageOwned: bool, ownerId: string, guards: seq<string>)

  function StreamKey(route: string, guards: seq<string>): string {
    route + "\0" + Join(guards, "\0")
  }

  lemma StreamKeyRoute(r: string, g: seq<string>, s: string, h: seq<string>)
    requires '\0' !in r && '\0' !in s && StreamKey(r, g) == StreamKey(s, h)
    ensures r == s
  {
    SplitPrefix(r, '\0', Join(g, "\0"));
    SplitPrefix(s, '\0', Join(h, "\0"));
    assert Split(StreamKey(r, g), '\0')[0] == r && Split(StreamKey(s, h), '\0')[0] == s;
  }

  /** The key under which a stream is recorded. */
  function KeyOf(s: StreamRoute): string {
    StreamKey(s.route, s.guards)
  }

  /** The stream of every entry that has a route, in order. */
  function StreamsOf(routes: map<string, string>, sources: seq<Source>): seq<StreamRoute> {
    if sources == [] then []
    else
      var before, last := StreamsOf(routes, sources[..|sources| - 1]), sources[|sources| - 1];
      var route := RouteOf(routes, last.pageOwned, last.ownerId);
      if route == "" then before else before + [StreamRoute(route, RuntimeGuardNames(last.guards), "")]
  }

  lemma StreamStep(routes: map<string, string>, sources: seq<Source>, i: nat, key: StreamRoute -> string)
    requires i < |sources|
    ensures var before, after := StreamsOf(routes, sources[..i]), StreamsOf(routes, sources[..i + 1]);
            var route := RouteOf(routes, sources[i].pageOwned, sources[i].ownerId);
            var stream := StreamRoute(route, RuntimeGuardNames(sources[i].guards), "");
            if route == "" then after == before
            else if key(stream) in Keys(before, key) then
              KeepFirst(after, key) == KeepFirst(before, key) && Keys(after, key) == Keys(before, key)
            else KeepFirst(after, key) == KeepFirst(before, key) + [stream] && Keys(after, key) == Keys(before, key) + {key(stream)}
  {
    assert sources[..i + 1][..i] == sources[..i];
    var before := StreamsOf(routes, sources[..i]);
    var stream := StreamRoute(RouteOf(routes, sources[i].pageOwned, sources[i].ownerId), RuntimeGuardNames(sources[i].guards), "");
    assert (before + [stream])[..|before|] == before;
  }

  method CollectBy(routes: map<string, string>, sources: seq<Source>, key: StreamRoute -> string) returns (r: seq<StreamRoute>)
    ensures r == KeepFirst(StreamsOf(routes, sources), key)
  {
    r := [];
    var seen: set<string> := {};
    for i := 0 to |sources|
      invariant r == KeepFirst(StreamsOf(routes, sources[..i]), key) && seen == Keys(StreamsOf(routes, sources[..i]), key)
    {
      StreamStep(routes, sources, i, key);
      var route := RouteOf(routes, sources[i].pageOwned, sources[i].ownerId);
      if route == "" {
        continue;
      }
      var stream := StreamRoute(route, RuntimeGuardNames(sources[i].guards), "");
      if key(stream) in seen {
        continue;
      }
      seen := seen + {key(stream)};
      r := r + [stream];
    }
    assert sources[..|sources|] == sources;
  }

  /** The collecting loops of realtimeStreamRoutes: one stream per distinct route and guard list, the first of each. */
  method CollectStreams(routes: map<string, string>, sources: seq<Source>) returns (r: seq<StreamRoute>)
    ensures r == KeepFirst(StreamsOf(routes, sources), KeyOf)
    ensures Keys(r, KeyOf) == Keys(StreamsOf(routes, sources), KeyOf)
    ensures forall i, j | 0 <= i < j < |r| :: KeyOf(r[i]) != KeyOf(r[j])
  {
    r := CollectBy(routes, sources, KeyOf);
    KeepFirstExact(StreamsOf(routes, sources), KeyOf);
  }

  function Label(n: nat): string {
    "gowdk.route." + Itoa(n)
  }

  lemma LabelInjective(m: nat, n: nat)
    requires Label(m) == Label(n)
    ensures m == n
  {
    var prefix := "gowdk.route.";
    assert Label(m)[|prefix|..] == Itoa(m) && Label(n)[|prefix|..] == Itoa(n);
    ItoaInjective(m, n);
  }

  /** The label table so far: routes hold labels 0 to |labels| - 1, each once. */
  ghost predicate LabelTable(labels: map<string, string>) {
    && (forall r | r in labels :: exists n: nat :: n < |labels| && labels[r] == Label(n))
    && (forall r, s | r in labels && s in labels && labels[r] == labels[s] :: r == s)
  }

  lemma LabelTableExtend(labels: map<string, string>, route: string)
    requires LabelTable(labels) && route !in labels
    ensures LabelTable(labels[route := Label(|labels|)])
  {
    var more := labels[route := Label(|labels|)];
    assert |more| == |labels| + 1;
    forall r | r in labels
      ensures labels[r] != Label(|labels|)
    {
      var n: nat :| n < |labels| && labels[r] == Label(n);
      if Label(n) == Label(|labels|) {
        LabelInjective(n, |labels|);
      }
    }
    forall r | r in more
      ensures exists n: nat :: n < |more| && more[r] == Label(n)
    {
      if r in labels && r != route {
        var n: nat :| n < |labels| && labels[r] == Label(n);
      }
    }
  }

  /** The label table of the routes: a new route gets the next number. */
  function LabelsOf(routes: seq<StreamRoute>): map<string, string> {
    if routes == [] then map[]
    else
      var labels, route := LabelsOf(routes[..|routes| - 1]), routes[|routes| - 1].route;
      if route in labels then labels else labels[route := Label(|labels|)]
  }

  lemma {:induction false} LabelsForm(routes: seq<StreamRoute>)
    ensures LabelTable(LabelsOf(routes))
    ensures forall route :: route in LabelsOf(routes) <==> exists i :: 0 <= i < |routes| && routes[i].route == route
  {
    if routes != [] {
      var before, last := routes[..|routes| - 1], routes[|routes| - 1];
      LabelsForm(before);
      assert routes == before + [last];
      if last.route !in LabelsOf(before) {
        LabelTableExtend(LabelsOf(before), last.route);
      }
      forall route
        ensures route in LabelsOf(routes) <==> exists i :: 0 <= i < |routes| && routes[i].route == route
      {
        NamedBefore(before, last, routes, route);
      }
    }
  }

  lemma NamedBefore(before: seq<StreamRoute>, last: StreamRoute, routes: seq<StreamRoute>, route: string)
    requires routes == before + [last]
    ensures (exists i :: 0 <= i < |routes| && routes[i].route == route)
            <==> last.route == route || exists i :: 0 <= i < |before| && before[i].route == route
  {
    assert routes[|before|] == last;
    assert forall i | 0 <= i < |before| :: before[i] == routes[i];
    if i :| 0 <= i < |before| && before[i].route == route {
      assert routes[i].route == route;
    }
  }

  /** Under a label table, equal labels mean equal routes. */
  lemma LabelsOneToOne(labels: map<string, string>, r: seq<StreamRoute>)
    requires LabelTable(labels) && forall i | 0 <= i < |r| :: r[i].route in labels && r[i].audience == labels[r[i].route]
    ensures forall i, j | 0 <= i < |r| && 0 <= j < |r| :: r[i].audience == r[j].audience <==> r[i].route == r[j].route
  {
  }

  /** The labelling loop of realtimeStreamRoutes: labels are one-to-one with routes. */
  method AssignLabels(routes: seq<StreamRoute>) returns (r: seq<StreamRoute>, labels: map<string, string>)
    ensures labels == LabelsOf(routes) && LabelTable(labels)
    ensures |r| == |routes|
    ensures forall i | 0 <= i < |r| :: r[i].route == routes[i].route && r[i].guards == routes[i].guards
    ensures forall i | 0 <= i < |r| :: r[i].route in labels && r[i].audience == labels[r[i].route]
    ensures forall i, j | 0 <= i < |r| && 0 <= j < |r| :: r[i].audience == r[j].audience <==> r[i].route == r[j].route
  {
    labels, r := map[], [];
    for i := 0 to |routes|
      invariant labels == LabelsOf(routes[..i]) && |r| == i
      invariant forall k | 0 <= k < i :: r[k].route == routes[k].route && r[k].guards == routes[k].guards
      invariant forall k | 0 <= k < i :: r[k].route in labels && r[k].audience == labels[r[k].route]
    {
      var route := routes[i].route;
      assert routes[..i + 1][..i] == routes[..i];
      if route !in labels {
        labels := labels[route := Label(|labels|)];
      }
      r := r + [routes[i].(audience := labels[route])];
    }
    assert routes[..|routes|] == routes;
    LabelsForm(routes);
    LabelsOneToOne(labels, r);
  }

  // ------------------------------------------------------------------ tables

  /** Audiences and broadcasts per query type, as the generated program holds them. */
  datatype Tables = Tables(audiences: map<string, seq<string>>, broadcasts: set<string>) {
    function Audiences(q: string): seq<string> {
      if q in audiences then audiences[q] else []
    }

    predicate Unscoped(q: string) {
      q in broadcasts || Audiences(q) == []
    }

    ghost predicate Valid() {
      forall q | q in audiences :: Distinct(audiences[q])
    }
  }

  ghost predicate Distinct(xs: seq<string>) {
    forall i, j | 0 <= i < j < |xs| :: xs[i] != xs[j]
  }

  /** addRealtimeAudience. */
  function AddAudience(audiences: map<string, seq<string>>, key: string, audience: string): map<string, seq<string>> {
    var present := if key in audiences then audiences[key] else [];
    if audience in present then audiences else audiences[key := present + [audience]]
  }

  /** What one bound entry asks for: its query or event type, and the label it is scoped to ("" for none). */
  datatype Claim = Claim(query: string, tag: string)

  /** The tables say exactly what the claims ask for: nothing is dropped and nothing invented. */
  ghost predicate Reflects(t: Tables, claims: seq<Claim>) {
    && t.Valid()
    && (forall c | c in claims :: if c.tag == "" then c.query in t.broadcasts else c.tag in t.Audiences(c.query))
    && (forall q, a | a in t.Audiences(q) :: a != "" && Claim(q, a) in claims)
    && (forall q | q in t.broadcasts :: Claim(q, "") in claims)
  }

  /** One invalidation's contribution to realtimeQueryAudiences and realtimeQueryBroadcasts. */
  function Record(t: Tables, c: Claim): Tables {
    if c.tag == "" then t.(broadcasts := t.broadcasts + {c.query}) else t.(audiences := AddAudience(t.audiences, c.query, c.tag))
  }

  lemma RecordReflects(t: Tables, claims: seq<Claim>, c: Claim)
    requires Reflects(t, claims)
    ensures Reflects(Record(t, c), claims + [c])
  {
    var next, more := Record(t, c), claims + [c];
    assert forall d :: d in more <==> d in claims || d == c;
    assert forall q | q != c.query :: next.Audiences(q) == t.Audiences(q);
    assert next.Audiences(c.query) == t.Audiences(c.query) || next.Audiences(c.query) == t.Audiences(c.query) + [c.tag];
  }

  /** The tables before their audience lists are sorted. */
  function Recorded(claims: seq<Claim>): Tables {
    if claims == [] then Tables(map[], {}) else Record(Recorded(claims[..|claims| - 1]), claims[|claims| - 1])
  }

  /** sortRealtimeAudienceMap. */
  function SortAudiences(t: Tables): Tables {
    t.(audiences := map q | q in t.audiences :: Sort(t.audiences[q]))
  }

  /** The audience and broadcast tables of the claims. */
  function TablesOf(claims: seq<Claim>): Tables {
    SortAudiences(Recorded(claims))
  }

  lemma {:induction false} RecordedReflects(claims: seq<Claim>)
    ensures Reflects(Recorded(claims), claims)
  {
    if claims != [] {
      var before, last := claims[..|claims| - 1], claims[|claims| - 1];
      RecordedReflects(before);
      RecordReflects(Recorded(before), before, last);
      assert claims == before + [last];
    }
  }

  lemma SortKeeps(xs: seq<string>)
    ensures forall a :: a in Sort(xs) <==> a in xs
    ensures Distinct(xs) ==> Distinct(Sort(xs))
  {
    SortSorts(xs);
    var ys := Sort(xs);
    forall a
      ensures a in ys <==> a in xs
    {
      assert a in multiset(ys) <==> a in multiset(xs);
    }
    if Distinct(xs) {
      forall i, j | 0 <= i < j < |ys|
        ensures ys[i] != ys[j]
      {
        if ys[i] == ys[j] {
          TwiceCounts(ys, i, j);
          OnceCounts(xs, ys[i]);
        }
      }
    }
  }

  lemma TwiceCounts(xs: seq<string>, i: nat, j: nat)
    requires i < j < |xs| && xs[i] == xs[j]
    ensures multiset(xs)[xs[i]] >= 2
  {
    assert xs == xs[..i] + ([xs[i]] + xs[i + 1..j] + [xs[j]] + xs[j + 1..]);
  }

  lemma {:induction false} OnceCounts(xs: seq<string>, a: string)
    requires Distinct(xs)
    ensures multiset(xs)[a] <= 1
  {
    if xs != [] {
      OnceCounts(xs[1..], a);
      assert xs == [xs[0]] + xs[1..];
      if xs[0] == a {
        assert a !in xs[1..];
      }
    }
  }

  lemma TablesReflect(claims: seq<Claim>)
    ensures Reflects(TablesOf(claims), claims)
  {
    RecordedReflects(claims);
    var t := Recorded(claims);
    var sorted := SortAudiences(t);
    forall q
      ensures forall a :: a in sorted.Audiences(q) <==> a in t.Audiences(q)
      ensures q in sorted.audiences ==> Distinct(sorted.audiences[q])
    {
      if q in t.audiences {
        SortKeeps(t.audiences[q]);
      }
    }
  }

  /** realtimeQueryAudiences and realtimeQueryBroadcasts, and the same for subscriptions: the loops over the claims, then the sort. */
  method BuildTables(claims: seq<Claim>) returns (t: Tables)
    ensures t == TablesOf(claims) && Reflects(t, claims)
  {
    t := Tables(map[], {});
    for i := 0 to |claims|
      invariant t == Recorded(claims[..i])
    {
      assert claims[..i + 1][..i] == claims[..i];
      if claims[i].tag == "" {
        t := t.(broadcasts := t.broadcasts + {claims[i].query});
      } else {
        t := t.(audiences := AddAudience(t.audiences, claims[i].query, claims[i].tag));
      }
    }
    assert claims[..|claims|] == claims;
    t := SortAudiences(t);
    TablesReflect(claims);
  }

  // ------------------------------------------------------------ emitted code

  datatype Notice = Notice(version: int, queries: seq<string>, events: seq<string>, eventIds: seq<string>)

  /** The value of an event: a query invalidation notice, or anything else. */
  datatype Value = NoticeValue(notice: Notice) | OtherValue(text: string)

  datatype Event = Event(id: string, audience: seq<string>, eventType: string, value: Value)

  /** realtimeEventWithAudience. */
  function WithAudience(e: Event, audience: string): Event {
    e.(audience := e.audience + [audience])
  }

  function WithQueries(e: Event, queries: seq<string>): Event
    requires e.value.NoticeValue?
  {
    e.(value := NoticeValue(e.value.notice.(queries := queries)))
  }

  function UnscopedQueries(t: Tables, queries: seq<string>): seq<string> {
    if queries == [] then []
    else
      var q := queries[|queries| - 1];
      UnscopedQueries(t, queries[..|queries| - 1]) + if t.Unscoped(q) then [q] else []
  }

  /** The queries of a notice that one audience is told about, in order. */
  function QueriesFor(t: Tables, queries: seq<string>, a: string): seq<string> {
    if queries == [] then []
    else
      var q := queries[|queries| - 1];
      QueriesFor(t, queries[..|queries| - 1], a) + if !t.Unscoped(q) && a in t.Audiences(q) then [q] else []
  }

  function Union(xs: seq<string>, ys: seq<string>): seq<string> {
    if ys == [] then xs
    else
      var earlier, y := Union(xs, ys[..|ys| - 1]), ys[|ys| - 1];
      if y in earlier then earlier else earlier + [y]
  }

  /** The audiences of the scoped queries, each once, in order of first appearance. */
  function AudiencesOf(t: Tables, queries: seq<string>): seq<string> {
    if queries == [] then []
    else
      var q := queries[|queries| - 1];
      var earlier := AudiencesOf(t, queries[..|queries| - 1]);
      if t.Unscoped(q) then earlier else Union(earlier, t.Audiences(q))
  }

  function ScopedEvents(t: Tables, e: Event, queries: seq<string>, audiences: seq<string>): seq<Event>
    requires e.value.NoticeValue?
  {
    if audiences == [] then []
    else
      var a := audiences[|audiences| - 1];
      ScopedEvents(t, e, queries, audiences[..|audiences| - 1]) + [WithQueries(WithAudience(e, a), QueriesFor(t, queries, a))]
  }

  /** One event per audience, and one for the unscoped queries when there are any. */
  function FanOut(t: Tables, e: Event): seq<Event> {
    if !e.value.NoticeValue? then [e]
    else
      var queries := e.value.notice.queries;
      var audiences, unscoped := AudiencesOf(t, queries), UnscopedQueries(t, queries);
      if audiences == [] then [e]
      else (if unscoped != [] then [WithQueries(e, unscoped)] else []) + ScopedEvents(t, e, queries, audiences)
  }

  /** What is filed under an audience once a query has been filed under some. */
  function FiledUnder(filed: map<string, seq<string>>, under: seq<string>, query: string, a: string): seq<string> {
    var before := if a in filed then filed[a] else [];
    if a in under then before + [query] else before
  }

  /** The inner loop over one query's audiences: collects new audiences and files the query under each. */
  method FileQuery(queryAudiences: seq<string>, query: string, audiences0: seq<string>, filed0: map<string, seq<string>>)
    returns (audiences: seq<string>, filed: map<string, seq<string>>)
    requires Distinct(queryAudiences)
    requires forall a :: a in audiences0 <==> a in filed0
    ensures audiences == Union(audiences0, queryAudiences)
    ensures forall a :: a in audiences <==> a in filed
    ensures forall a | a in filed :: filed[a] == FiledUnder(filed0, queryAudiences, query, a)
  {
    audiences, filed := audiences0, filed0;
    for i := 0 to |queryAudiences|
      invariant audiences == Union(audiences0, queryAudiences[..i])
      invariant forall a :: a in audiences <==> a in filed
      invariant forall a | a in filed0 :: a in filed
      invariant forall a | a in filed :: filed[a] == FiledUnder(filed0, queryAudiences[..i], query, a)
    {
      var audience := queryAudiences[i];
      assert queryAudiences[..i + 1][..i] == queryAudiences[..i];
      assert forall a :: a in queryAudiences[..i + 1] <==> a in queryAudiences[..i] || a == audience;
      assert audience !in queryAudiences[..i];
      if audience !in audiences {
        audiences := audiences + [audience];
      }
      filed := filed[audience := (if audience in filed then filed[audience] else []) + [query]];
    }
    assert queryAudiences[..|queryAudiences|] == queryAudiences;
  }

  /** The emitted realtimeQueryInvalidationAudienceEvents. */
  method QueryInvalidationAudienceEvents(t: Tables, e: Event) returns (scoped: seq<Event>)
    requires t.Valid()
    ensures scoped == FanOut(t, e)
  {
    if !e.value.NoticeValue? {
      return [e];
    }
    var queries := e.value.notice.queries;
    var unscoped, audiences, queriesByAudience := FileQueries(t, queries);
    if audiences == [] {
      return [e];
    }
    scoped := [];
    if unscoped != [] {
      scoped := [WithQueries(e, unscoped)];
    }
    var rest := ScopeEach(t, e, queries, audiences, queriesByAudience);
    scoped := scoped + rest;
  }

  /** The last loop: one event per audience with the queries filed under it. */
  method ScopeEach(ghost t: Tables, e: Event, ghost queries: seq<string>, audiences: seq<string>, queriesByAudience: map<string, seq<string>>)
    returns (scoped: seq<Event>)
    requires e.value.NoticeValue?
    requires forall i | 0 <= i < |audiences| ::
               audiences[i] in queriesByAudience && queriesByAudience[audiences[i]] == QueriesFor(t, queries, audiences[i])
    ensures scoped == ScopedEvents(t, e, queries, audiences)
  {
    scoped := [];
    for i := 0 to |audiences|
      invariant scoped == ScopedEvents(t, e, queries, audiences[..i])
    {
      assert audiences[..i + 1][..i] == audiences[..i];
      scoped := scoped + [WithQueries(WithAudience(e, audiences[i]), queriesByAudience[audiences[i]])];
    }
    assert audiences[..|audiences|] == audiences;
  }

  /** The outer loop over the queries of a notice. */
  method FileQueries(t: Tables, queries: seq<string>)
    returns (unscoped: seq<string>, audiences: seq<string>, queriesByAudience: map<string, seq<string>>)
    requires t.Valid()
    ensures unscoped == UnscopedQueries(t, queries) && audiences == AudiencesOf(t, queries)
    ensures forall a :: a in audiences <==> a in queriesByAudience
    ensures forall a | a in queriesByAudience :: queriesByAudience[a] == QueriesFor(t, queries, a)
  {
    unscoped, audiences, queriesByAudience := [], [], map[];
    for i := 0 to |queries|
      invariant unscoped == UnscopedQueries(t, queries[..i])
      invariant audiences == AudiencesOf(t, queries[..i])
      invariant forall a :: a in audiences <==> a in queriesByAudience
      invariant forall a | a in queriesByAudience :: queriesByAudience[a] == QueriesFor(t, queries[..i], a)
    {
      var query := queries[i];
      assert queries[..i + 1][..i] == queries[..i];
      forall a | a !in audiences
        ensures QueriesFor(t, queries[..i], a) == []
      {
        StrangersHearNothing(t, queries[..i], a);
      }
      if t.Unscoped(query) {
        unscoped := unscoped + [query];
      } else {
        audiences, queriesByAudience := FileQuery(t.Audiences(query), query, audiences, queriesByAudience);
      }
    }
    assert queries[..|queries|] == queries;
  }

  lemma {:induction false} UnionMembers(xs: seq<string>, ys: seq<string>)
    ensures forall a :: a in Union(xs, ys) <==> a in xs || a in ys
    ensures Distinct(xs) ==> Distinct(Union(xs, ys))
  {
    if ys != [] {
      UnionMembers(xs, ys[..|ys| - 1]);
      assert ys == ys[..|ys| - 1] + [ys[|ys| - 1]];
    }
  }

  /** An audience is collected exactly when some scoped query of the notice lists it. */
  lemma {:induction false} AudiencesCollected(t: Tables, queries: seq<string>, a: string)
    ensures a in AudiencesOf(t, queries) <==> exists i | 0 <= i < |queries| :: !t.Unscoped(queries[i]) && a in t.Audiences(queries[i])
    ensures Distinct(AudiencesOf(t, queries))
  {
    if queries != [] {
      var n := |queries| - 1;
      AudiencesCollected(t, queries[..n], a);
      UnionMembers(AudiencesOf(t, queries[..n]), t.Audiences(queries[n]));
      assert queries == queries[..n] + [queries[n]];
      assert forall i | 0 <= i < n :: queries[..n][i] == queries[i];
    }
  }

  lemma {:induction false} StrangersHearNothing(t: Tables, queries: seq<string>, a: string)
    requires a !in AudiencesOf(t, queries)
    ensures QueriesFor(t, queries, a) == []
  {
    if queries != [] {
      var n := |queries| - 1;
      AudiencesCollected(t, queries, a);
      AudiencesCollected(t, queries[..n], a);
      assert forall i | 0 <= i < n :: queries[..n][i] == queries[i];
      StrangersHearNothing(t, queries[..n], a);
    }
  }

  // --------------------------------------------------------------- delivery

  /** A client gets an event when every label of the event is one of the client's. */
  predicate Delivered(e: Event, client: set<string>) {
    forall a | a in e.audience :: a in client
  }

  function Count(q: string, queries: seq<string>): nat {
    if queries == [] then 0 else Count(q, queries[..|queries| - 1]) + if queries[|queries| - 1] == q then 1 else 0
  }

  /** How often a client is told about q by a list of events. */
  function Received(events: seq<Event>, client: set<string>, q: string): nat {
    if events == [] then 0
    else
      var e := events[|events| - 1];
      Received(events[..|events| - 1], client, q)
      + if e.value.NoticeValue? && Delivered(e, client) then Count(q, e.value.notice.queries) else 0
  }

  lemma {:induction false} ReceivedAppend(a: seq<Event>, b: seq<Event>, client: set<string>, q: string)
    ensures Received(a + b, client, q) == Received(a, client, q) + Received(b, client, q)
  {
    if b == [] {
      assert a + b == a;
    } else {
      assert (a + b)[..|a + b| - 1] == a + b[..|b| - 1];
      ReceivedAppend(a, b[..|b| - 1], client, q);
    }
  }

  lemma {:induction false} CountAppend(q: string, a: seq<string>, x: string)
    ensures Count(q, a + [x]) == Count(q, a) + if x == q then 1 else 0
  {
    assert (a + [x])[..|a|] == a;
  }

  lemma {:induction false} CountUnscoped(t: Tables, queries: seq<string>, q: string)
    ensures Count(q, UnscopedQueries(t, queries)) == if t.Unscoped(q) then Count(q, queries) else 0
  {
    if queries != [] {
      var n := |queries| - 1;
      CountUnscoped(t, queries[..n], q);
      CountAppend(q, UnscopedQueries(t, queries[..n]), queries[n]);
      assert UnscopedQueries(t, queries[..n]) + [] == UnscopedQueries(t, queries[..n]);
    }
  }

  lemma {:induction false} CountFor(t: Tables, queries: seq<string>, a: string, q: string)
    ensures Count(q, QueriesFor(t, queries, a)) == if !t.Unscoped(q) && a in t.Audiences(q) then Count(q, queries) else 0
  {
    if queries != [] {
      var n := |queries| - 1;
      CountFor(t, queries[..n], a, q);
      CountAppend(q, QueriesFor(t, queries[..n], a), queries[n]);
      assert QueriesFor(t, queries[..n], a) + [] == QueriesFor(t, queries[..n], a);
    }
  }

  /** The labels a client shares with a query's audiences. */
  function Hits(t: Tables, q: string, client: set<string>): set<string> {
    set a | a in t.Audiences(q) && a in client
  }

  lemma SingleHit(t: Tables, q: string, tag: string)
    ensures |Hits(t, q, {tag})| == if tag in t.Audiences(q) then 1 else 0
  {
    assert Hits(t, q, {tag}) == if tag in t.Audiences(q) then {tag} else {};
  }

  /** Those among the given audiences, for a scoped query. */
  function Shared(t: Tables, q: string, client: set<string>, audiences: seq<string>): set<string> {
    set a | a in audiences && a in client && !t.Unscoped(q) && a in t.Audiences(q)
  }

  lemma SharedStep(t: Tables, q: string, client: set<string>, init: seq<string>, a: string)
    requires a !in init
    ensures |Shared(t, q, client, init + [a])|
            == |Shared(t, q, client, init)| + if a in client && !t.Unscoped(q) && a in t.Audiences(q) then 1 else 0
  {
    var before := Shared(t, q, client, init);
    var hit := a in client && !t.Unscoped(q) && a in t.Audiences(q);
    assert Shared(t, q, client, init + [a]) == before + if hit then {a} else {};
    assert a !in before;
  }

  /** What the event scoped to one audience contributes. */
  lemma OneAudienceReceived(t: Tables, e: Event, queries: seq<string>, a: string, client: set<string>, q: string)
    requires e.value.NoticeValue?
    ensures var scoped := WithQueries(WithAudience(e, a), QueriesFor(t, queries, a));
            Received([scoped], client, q)
            == if Delivered(e, client) && a in client && !t.Unscoped(q) && a in t.Audiences(q) then Count(q, queries) else 0
  {
    var scoped := WithQueries(WithAudience(e, a), QueriesFor(t, queries, a));
    CountFor(t, queries, a, q);
    assert forall b :: b in scoped.audience <==> b in e.audience || b == a;
    assert [scoped][..0] == [];
  }

  lemma {:induction false} ScopedReceived(t: Tables, e: Event, queries: seq<string>, audiences: seq<string>, client: set<string>, q: string)
    requires e.value.NoticeValue? && Distinct(audiences)
    ensures Received(ScopedEvents(t, e, queries, audiences), client, q)
            == if Delivered(e, client) then Count(q, queries) * |Shared(t, q, client, audiences)| else 0
  {
    if audiences == [] {
      assert Shared(t, q, client, audiences) == {};
    } else {
      var n := |audiences| - 1;
      var init, a := audiences[..n], audiences[n];
      assert audiences == init + [a] && a !in init;
      ScopedReceived(t, e, queries, init, client, q);
      OneAudienceReceived(t, e, queries, a, client, q);
      SharedStep(t, q, client, init, a);
      ReceivedAppend(ScopedEvents(t, e, queries, init), [WithQueries(WithAudience(e, a), QueriesFor(t, queries, a))], client, q);
      Distribute(Count(q, queries), |Shared(t, q, client, init)|);
    }
  }

  lemma Distribute(m: nat, n: nat)
    ensures m * (n + 1) == m * n + m
  {
  }

  lemma {:induction false} CountZero(q: string, queries: seq<string>)
    ensures Count(q, queries) == 0 <==> q !in queries
  {
    if queries != [] {
      CountZero(q, queries[..|queries| - 1]);
      assert queries == queries[..|queries| - 1] + [queries[|queries| - 1]];
    }
  }

  /**
   Fan-out, for any client: of a notice whose event the client may see at all, an unscoped query
   arrives as often as the notice lists it, and a scoped one once more for every tag the client
   shares with the query's audiences.
   */
  lemma FanOutReceived(t: Tables, e: Event, client: set<string>, q: string)
    requires t.Valid() && e.value.NoticeValue?
    ensures var m := Count(q, e.value.notice.queries);
            Received(FanOut(t, e), client, q)
            == if !Delivered(e, client) then 0
               else if t.Unscoped(q) then m
               else m * |Hits(t, q, client)|
  {
    var queries := e.value.notice.queries;
    var audiences := AudiencesOf(t, queries);
    AudiencesCollected(t, queries, "");
    AllHeard(t, queries, client, q);
    if audiences == [] {
      assert [e][..0] == [];
      CountZero(q, queries);
    } else {
      var unscoped := UnscopedQueries(t, queries);
      var first := if unscoped != [] then [WithQueries(e, unscoped)] else [];
      ReceivedAppend(first, ScopedEvents(t, e, queries, audiences), client, q);
      ScopedReceived(t, e, queries, audiences, client, q);
      CountUnscoped(t, queries, q);
      assert first != [] ==> first[..0] == [];
    }
  }

  /** Every audience of a query the notice lists has been collected. */
  lemma AllHeard(t: Tables, queries: seq<string>, client: set<string>, q: string)
    ensures t.Unscoped(q) ==> Shared(t, q, client, AudiencesOf(t, queries)) == {}
    ensures !t.Unscoped(q) && q in queries ==> AudiencesOf(t, queries) != []
    ensures !t.Unscoped(q) ==>
              Count(q, queries) * |Shared(t, q, client, AudiencesOf(t, queries))|
              == Count(q, queries) * |Hits(t, q, client)|
  {
    var audiences := AudiencesOf(t, queries);
    CountZero(q, queries);
    if !t.Unscoped(q) && q in queries {
      forall a | a in t.Audiences(q)
        ensures a in audiences
      {
        AudiencesCollected(t, queries, a);
      }
      assert t.Audiences(q)[0] in audiences;
      assert Shared(t, q, client, audiences) == Hits(t, q, client);
    }
  }

  /**
   Delivery is exact for a client that carries one route tag: it receives a query from an
   unlabelled notice as often as the query occurs there if the query is broadcast, has no
   audiences or lists that tag, and otherwise never.
   */
  lemma SingleLabelDelivery(t: Tables, e: Event, tag: string, q: string)
    requires t.Valid() && e.value.NoticeValue? && e.audience == []
    ensures Received(FanOut(t, e), {tag}, q)
            == if q in t.broadcasts || t.Audiences(q) == [] || tag in t.Audiences(q) then Count(q, e.value.notice.queries) else 0
  {
    FanOutReceived(t, e, {tag}, q);
    SingleHit(t, q, tag);
    var m := Count(q, e.value.notice.queries);
    assert Delivered(e, {tag});
    assert m * 0 == 0 && m * 1 == m;
  }

  // ------------------------------------------------------ subscription events

  const QUERY_INVALIDATION := "gowdk.query.invalidate"

  function Copies(e: Event, audiences: seq<string>): seq<Event> {
    if audiences == [] then [] else Copies(e, audiences[..|audiences| - 1]) + [WithAudience(e, audiences[|audiences| - 1])]
  }

  /** The emitted realtimeAudienceScopedEvents: which events leave the server for one presentation event. */
  function AudienceScopedEvents(queries: Tables, subscriptions: Tables, subscribed: set<string>, presentation: bool, e: Event): seq<Event> {
    if !presentation then []
    else if e.eventType == QUERY_INVALIDATION then FanOut(queries, e)
    else if e.eventType !in subscribed then []
    else if subscriptions.Unscoped(e.eventType) then [e]
    else Copies(e, subscriptions.Audiences(e.eventType))
  }

  function DeliveredCount(events: seq<Event>, client: set<string>): nat {
    if events == [] then 0
    else DeliveredCount(events[..|events| - 1], client) + if Delivered(events[|events| - 1], client) then 1 else 0
  }

  lemma {:induction false} CopiesDelivered(e: Event, audiences: seq<string>, tag: string)
    requires Distinct(audiences) && e.audience == []
    ensures DeliveredCount(Copies(e, audiences), {tag}) == if tag in audiences then 1 else 0
  {
    if audiences != [] {
      var before, last := audiences[..|audiences| - 1], audiences[|audiences| - 1];
      CopiesDelivered(e, before, tag);
      assert audiences == before + [last] && last !in before;
      OneLabelDelivered(e, last, tag);
      CountOneMore(Copies(e, before), WithAudience(e, last), {tag});
    }
  }

  lemma CountOneMore(events: seq<Event>, e: Event, client: set<string>)
    ensures DeliveredCount(events + [e], client) == DeliveredCount(events, client) + if Delivered(e, client) then 1 else 0
  {
    assert (events + [e])[..|events|] == events;
  }

  lemma OneLabelDelivered(e: Event, audience: string, tag: string)
    requires e.audience == []
    ensures Delivered(WithAudience(e, audience), {tag}) <==> audience == tag
  {
    assert WithAudience(e, audience).audience == [audience];
    assert audience in [audience];
  }

  /**
   A subscribed presentation event reaches a one-label client exactly once if it is broadcast,
   has no audiences or lists the label, and otherwise not at all.
   */
  lemma SubscriptionDelivery(queries: Tables, subscriptions: Tables, subscribed: set<string>, e: Event, tag: string)
    requires subscriptions.Valid() && e.audience == [] && e.eventType in subscribed && e.eventType != QUERY_INVALIDATION
    ensures DeliveredCount(AudienceScopedEvents(queries, subscriptions, subscribed, true, e), {tag})
            == if subscriptions.Unscoped(e.eventType) || tag in subscriptions.Audiences(e.eventType) then 1 else 0
  {
    if subscriptions.Unscoped(e.eventType) {
      assert [e][..0] == [];
    } else {
      CopiesDelivered(e, subscriptions.Audiences(e.eventType), tag);
    }
  }
}
