/**
 Realtime delivery end to end: from the pages, subscriptions and query invalidations of a program,
 through the streams, labels and tables of internal/appgen/source_realtime.go, to what a client on
 a path receives.
 */
module RealtimeProgram {
  import opened Text
  import opened Dedupe
  import opened Guards
  import opened Realtime
  import R = SsrRoutes
  import S = RouteSyntax

  // --------------------------------------------------------------- program input

  /** A query invalidation as the compiler's IR records it. */
  datatype Invalidation = Invalidation(
    bound: bool, eventType: string, queryType: string, pageOwned: bool, ownerId: string, guards: seq<string>)

  datatype Subscription = Subscription(
    bound: bool, eventType: string, importPath: string, pageOwned: bool, ownerId: string, guards: seq<string>)

  datatype Program = Program(pages: seq<Page>, subscriptions: seq<Subscription>, invalidations: seq<Invalidation>)

  /** Page routes have passed the compiler. */
  ghost predicate Valid(p: Program) {
    forall i | 0 <= i < |p.pages| :: TrimSpace(p.pages[i].route) == "" || S.Compiled(p.pages[i].route)
  }

  predicate InvalidationBound(i: Invalidation) {
    i.bound && TrimSpace(i.eventType) != "" && TrimSpace(i.queryType) != ""
  }

  predicate SubscriptionBound(s: Subscription) {
    s.bound && TrimSpace(s.eventType) != ""
  }

  /** realtimeEventEnvelopeType of a bound subscription. */
  function EnvelopeType(s: Subscription): string {
    if TrimSpace(s.importPath) == "" then TrimSpace(s.eventType) else TrimSpace(s.importPath) + "." + TrimSpace(s.eventType)
  }

  // ------------------------------------------------------------ streams and labels

  function SubscriptionSources(subscriptions: seq<Subscription>): seq<Source> {
    if subscriptions == [] then []
    else
      var before, last := SubscriptionSources(subscriptions[..|subscriptions| - 1]), subscriptions[|subscriptions| - 1];
      if SubscriptionBound(last) then before + [Source(last.pageOwned, last.ownerId, last.guards)] else before
  }

  function InvalidationSources(invalidations: seq<Invalidation>): seq<Source> {
    if invalidations == [] then []
    else
      var before, last := InvalidationSources(invalidations[..|invalidations| - 1]), invalidations[|invalidations| - 1];
      if InvalidationBound(last) then before + [Source(last.pageOwned, last.ownerId, last.guards)] else before
  }

  function Sources(p: Program): seq<Source> {
    SubscriptionSources(p.subscriptions) + InvalidationSources(p.invalidations)
  }

  /** The order streams are sorted in: by route, then by joined guards. */
  predicate StreamLeq(a: StreamRoute, b: StreamRoute) {
    if a.route == b.route then LexLeq(Join(a.guards, "\0"), Join(b.guards, "\0")) else LexLeq(a.route, b.route)
  }

  function InsertStream(x: StreamRoute, xs: seq<StreamRoute>): seq<StreamRoute> {
    if xs == [] || StreamLeq(x, xs[0]) then [x] + xs else [xs[0]] + InsertStream(x, xs[1..])
  }

  function SortStreams(xs: seq<StreamRoute>): seq<StreamRoute> {
    if xs == [] then [] else InsertStream(xs[0], SortStreams(xs[1..]))
  }

  ghost predicate StreamsSorted(xs: seq<StreamRoute>) {
    forall i, j | 0 <= i < j < |xs| :: StreamLeq(xs[i], xs[j])
  }

  lemma StreamTotal(a: StreamRoute, b: StreamRoute)
    ensures StreamLeq(a, b) || StreamLeq(b, a)
  {
    LexTotal(a.route, b.route);
    LexTotal(Join(a.guards, "\0"), Join(b.guards, "\0"));
  }

  lemma StreamTransitive(a: StreamRoute, b: StreamRoute, c: StreamRoute)
    requires StreamLeq(a, b) && StreamLeq(b, c)
    ensures StreamLeq(a, c)
  {
    if a.route == b.route == c.route {
      LexTransitive(Join(a.guards, "\0"), Join(b.guards, "\0"), Join(c.guards, "\0"));
    } else if a.route != b.route && b.route != c.route {
      LexTransitive(a.route, b.route, c.route);
      if a.route == c.route {
        LexAntisymmetric(a.route, b.route);
      }
    }
  }

  lemma {:induction false} InsertStreamPermutes(x: StreamRoute, xs: seq<StreamRoute>)
    ensures multiset(InsertStream(x, xs)) == multiset(xs) + multiset{x}
  {
    if xs != [] && !StreamLeq(x, xs[0]) {
      InsertStreamPermutes(x, xs[1..]);
      assert xs == [xs[0]] + xs[1..];
    }
  }

  lemma InsertStreamBounded(low: StreamRoute, x: StreamRoute, xs: seq<StreamRoute>)
    requires StreamLeq(low, x) && forall j | 0 <= j < |xs| :: StreamLeq(low, xs[j])
    ensures forall j | 0 <= j < |InsertStream(x, xs)| :: StreamLeq(low, InsertStream(x, xs)[j])
  {
    InsertStreamPermutes(x, xs);
    var all := InsertStream(x, xs);
    forall j | 0 <= j < |all|
      ensures StreamLeq(low, all[j])
    {
      assert all[j] in multiset(all);
    }
  }

  lemma {:induction false} InsertStreamSorts(x: StreamRoute, xs: seq<StreamRoute>)
    requires StreamsSorted(xs)
    ensures StreamsSorted(InsertStream(x, xs))
  {
    if xs == [] {
    } else if StreamLeq(x, xs[0]) {
      forall j | 0 <= j < |xs|
        ensures StreamLeq(x, xs[j])
      {
        if j > 0 {
          StreamTransitive(x, xs[0], xs[j]);
        }
      }
    } else {
      StreamTotal(x, xs[0]);
      InsertStreamSorts(x, xs[1..]);
      InsertStreamBounded(xs[0], x, xs[1..]);
    }
  }

  /** The sort of realtimeStreamRoutes: an ordered permutation. */
  lemma {:induction false} SortStreamsSorts(xs: seq<StreamRoute>)
    ensures StreamsSorted(SortStreams(xs)) && multiset(SortStreams(xs)) == multiset(xs)
  {
    if xs != [] {
      SortStreamsSorts(xs[1..]);
      InsertStreamSorts(xs[0], SortStreams(xs[1..]));
      InsertStreamPermutes(xs[0], SortStreams(xs[1..]));
      assert xs == [xs[0]] + xs[1..];
    }
  }

  /** Distinct streams in the order of the generated code. */
  function Streams(p: Program): seq<StreamRoute> {
    SortStreams(KeepFirst(StreamsOf(RoutesByPage(p.pages), Sources(p)), KeyOf))
  }

  function Labels(p: Program): map<string, string> {
    LabelsOf(Streams(p))
  }

  /** realtimeStreamRoutes: collect, sort, label. */
  method StreamRoutes(p: Program) returns (streams: seq<StreamRoute>, labels: map<string, string>)
    ensures labels == Labels(p) && LabelTable(labels)
    ensures |streams| == |Streams(p)| && forall i | 0 <= i < |streams| :: streams[i].route == Streams(p)[i].route && streams[i].guards == Streams(p)[i].guards
    ensures forall i | 0 <= i < |streams| :: streams[i].route in labels && streams[i].audience == labels[streams[i].route]
  {
    var collected := CollectStreams(RoutesByPage(p.pages), Sources(p));
    streams, labels := AssignLabels(SortStreams(collected));
  }

  // ------------------------------------------------------------- entries and tables

  /** A bound entry: what it is about, and its page's route ("" when it has none). */
  datatype Entry = Entry(key: string, route: string)

  function QueryEntries(routes: map<string, string>, invalidations: seq<Invalidation>): seq<Entry> {
    if invalidations == [] then []
    else
      var before, last := QueryEntries(routes, invalidations[..|invalidations| - 1]), invalidations[|invalidations| - 1];
      if InvalidationBound(last) then before + [Entry(TrimSpace(last.queryType), RouteOf(routes, last.pageOwned, last.ownerId))] else before
  }

  function EventEntries(routes: map<string, string>, subscriptions: seq<Subscription>): seq<Entry> {
    if subscriptions == [] then []
    else
      var before, last := EventEntries(routes, subscriptions[..|subscriptions| - 1]), subscriptions[|subscriptions| - 1];
      if SubscriptionBound(last) then before + [Entry(EnvelopeType(last), RouteOf(routes, last.pageOwned, last.ownerId))] else before
  }

  /** The label of a route, "" for none. */
  function TagOf(labels: map<string, string>, route: string): string {
    if route in labels then labels[route] else ""
  }

  function ClaimsOf(labels: map<string, string>, entries: seq<Entry>): seq<Claim> {
    if entries == [] then []
    else
      var last := entries[|entries| - 1];
      ClaimsOf(labels, entries[..|entries| - 1]) + [Claim(last.key, TagOf(labels, last.route))]
  }

  function Queries(p: Program): seq<Entry> {
    QueryEntries(RoutesByPage(p.pages), p.invalidations)
  }

  function Events(p: Program): seq<Entry> {
    EventEntries(RoutesByPage(p.pages), p.subscriptions)
  }

  function QueryTables(p: Program): Tables {
    TablesOf(ClaimsOf(Labels(p), Queries(p)))
  }

  function EventTables(p: Program): Tables {
    TablesOf(ClaimsOf(Labels(p), Events(p)))
  }

  /** Something asks for the key, and everything that does is on a page with a route. */
  ghost predicate Scoped(entries: seq<Entry>, key: string) {
    (exists e :: e in entries && e.key == key) && forall e | e in entries && e.key == key :: e.route != ""
  }

  lemma {:induction false} ClaimIff(labels: map<string, string>, entries: seq<Entry>, c: Claim)
    ensures c in ClaimsOf(labels, entries) <==>
              exists e :: e in entries && c == Claim(e.key, TagOf(labels, e.route))
  {
    if entries != [] {
      var before, last := entries[..|entries| - 1], entries[|entries| - 1];
      ClaimIff(labels, before, c);
      assert entries == before + [last];
    }
  }

  /** Labels are one-to-one, never empty, and cover the routes of the entries. */
  ghost predicate Covers(labels: map<string, string>, entries: seq<Entry>) {
    && LabelTable(labels) && "" !in labels
    && forall e | e in entries && e.route != "" :: e.route in labels
  }

  lemma LabelNotEmpty(labels: map<string, string>, route: string)
    requires LabelTable(labels) && route in labels
    ensures labels[route] != ""
  {
    var n: nat :| n < |labels| && labels[route] == Label(n);
    assert Label(n)[0] == 'g';
  }

  /** The tables scope a key exactly when its entries do, to exactly the labels of their routes. */
  lemma TablesScope(labels: map<string, string>, entries: seq<Entry>, key: string)
    requires Covers(labels, entries)
    ensures TablesOf(ClaimsOf(labels, entries)).Valid()
    ensures TablesOf(ClaimsOf(labels, entries)).Unscoped(key) <==> !Scoped(entries, key)
    ensures forall r | r in labels :: labels[r] in TablesOf(ClaimsOf(labels, entries)).Audiences(key) <==> Entry(key, r) in entries
  {
    var claims := ClaimsOf(labels, entries);
    var t := TablesOf(claims);
    TablesReflect(claims);
    forall c: Claim
      ensures c in claims <==> exists e :: e in entries && c == Claim(e.key, TagOf(labels, e.route))
    {
      ClaimIff(labels, entries, c);
    }
    forall r | r in labels
      ensures labels[r] != ""
    {
      LabelNotEmpty(labels, r);
    }
    AudienceIff(labels, entries, t, key);
    BroadcastIff(labels, entries, t, key);
    if Scoped(entries, key) {
      var e :| e in entries && e.key == key;
      assert Entry(key, e.route) == e;
      assert labels[e.route] in t.Audiences(key);
    }
    if !t.Unscoped(key) {
      var a := t.Audiences(key)[0];
      assert a in t.Audiences(key) && Claim(key, a) in claims;
      assert Scoped(entries, key);
    }
  }

  /** What is known of the claims behind the tables. */
  ghost predicate ClaimsKnown(labels: map<string, string>, entries: seq<Entry>, claims: seq<Claim>) {
    forall c: Claim :: c in claims <==> exists e :: e in entries && c == Claim(e.key, TagOf(labels, e.route))
  }

  lemma AudienceIff(labels: map<string, string>, entries: seq<Entry>, t: Tables, key: string)
    requires Covers(labels, entries) && Reflects(t, ClaimsOf(labels, entries)) && ClaimsKnown(labels, entries, ClaimsOf(labels, entries))
    requires forall r | r in labels :: labels[r] != ""
    ensures forall r | r in labels :: labels[r] in t.Audiences(key) <==> Entry(key, r) in entries
  {
    var claims := ClaimsOf(labels, entries);
    forall r | r in labels
      ensures labels[r] in t.Audiences(key) <==> Entry(key, r) in entries
    {
      var c := Claim(key, labels[r]);
      if Entry(key, r) in entries {
        assert c in claims;
      }
      if labels[r] in t.Audiences(key) {
        assert c in claims;
        var e :| e in entries && c == Claim(e.key, TagOf(labels, e.route));
        assert e.route == r;
        assert e == Entry(key, r);
      }
    }
  }

  lemma BroadcastIff(labels: map<string, string>, entries: seq<Entry>, t: Tables, key: string)
    requires Covers(labels, entries) && Reflects(t, ClaimsOf(labels, entries)) && ClaimsKnown(labels, entries, ClaimsOf(labels, entries))
    requires forall r | r in labels :: labels[r] != ""
    ensures key in t.broadcasts <==> exists e :: e in entries && e.key == key && e.route == ""
  {
    var claims := ClaimsOf(labels, entries);
    var c := Claim(key, "");
    if e :| e in entries && e.key == key && e.route == "" {
      assert c == Claim(e.key, TagOf(labels, e.route));
      assert c in claims;
    }
    if key in t.broadcasts {
      assert c in claims;
      var e :| e in entries && c == Claim(e.key, TagOf(labels, e.route));
      assert e.route !in labels;
    }
  }

  // ---------------------------------------------------------- routes and their labels

  /** Every recorded route is nonempty and holds no NUL. */
  ghost predicate PlainRoutes(routes: map<string, string>) {
    forall id | id in routes :: routes[id] != "" && '\0' !in routes[id]
  }

  lemma {:induction false} RoutesCompiled(pages: seq<Page>)
    requires forall i | 0 <= i < |pages| :: TrimSpace(pages[i].route) == "" || S.Compiled(pages[i].route)
    ensures PlainRoutes(RoutesByPage(pages))
  {
    if pages != [] {
      var page, before := pages[|pages| - 1], pages[..|pages| - 1];
      RoutesCompiled(before);
      if TrimSpace(page.route) != "" {
        CompiledPlain(page.route);
      }
    }
  }

  /** A compiled route is trimmed and free of control characters. */
  lemma CompiledPlain(route: string)
    requires S.Compiled(route)
    ensures TrimSpace(route) == route && '\0' !in route
  {
    S.CompiledTextClean(route);
    assert S.SpaceOrControl('\0');
  }

  lemma {:induction false} StreamFrom(routes: map<string, string>, sources: seq<Source>, s: StreamRoute)
    requires s in StreamsOf(routes, sources) && PlainRoutes(routes)
    ensures s.route != "" && '\0' !in s.route
    ensures exists source :: source in sources && s.route == RouteOf(routes, source.pageOwned, source.ownerId)
  {
    var before, last := sources[..|sources| - 1], sources[|sources| - 1];
    if s in StreamsOf(routes, before) {
      StreamFrom(routes, before, s);
    }
  }

  lemma {:induction false} StreamFor(routes: map<string, string>, sources: seq<Source>, source: Source) returns (s: StreamRoute)
    requires source in sources && RouteOf(routes, source.pageOwned, source.ownerId) != ""
    ensures s in StreamsOf(routes, sources) && s.route == RouteOf(routes, source.pageOwned, source.ownerId)
  {
    var before, last := sources[..|sources| - 1], sources[|sources| - 1];
    if source in before {
      s := StreamFor(routes, before, source);
    } else {
      assert sources == before + [last] && source == last;
      s := StreamRoute(RouteOf(routes, last.pageOwned, last.ownerId), RuntimeGuardNames(last.guards), "");
    }
  }

  /** The labelled routes are exactly the routes of the pages that own a bound entry. */
  lemma LabelledIff(p: Program, r: string)
    requires Valid(p)
    ensures r in Labels(p) <==> r != "" && exists source :: source in Sources(p) && RouteOf(RoutesByPage(p.pages), source.pageOwned, source.ownerId) == r
  {
    var routes := RoutesByPage(p.pages);
    RoutesCompiled(p.pages);
    var all := StreamsOf(routes, Sources(p));
    var kept := KeepFirst(all, KeyOf);
    SortStreamsSorts(kept);
    LabelsForm(Streams(p));
    if r in Labels(p) {
      var i :| 0 <= i < |Streams(p)| && Streams(p)[i].route == r;
      assert Streams(p)[i] in multiset(kept);
      KeptIsFrom(all, KeyOf, Streams(p)[i]);
      StreamFrom(routes, Sources(p), Streams(p)[i]);
    }
    if source :| r != "" && source in Sources(p) && RouteOf(routes, source.pageOwned, source.ownerId) == r {
      var s := StreamFor(routes, Sources(p), source);
      var y := KeptFor(all, KeyOf, s);
      StreamFrom(routes, Sources(p), s);
      StreamFrom(routes, Sources(p), y);
      StreamKeyRoute(s.route, s.guards, y.route, y.guards);
      assert y in multiset(Streams(p));
      var i :| 0 <= i < |Streams(p)| && Streams(p)[i] == y;
    }
  }

  lemma {:induction false} QuerySource(routes: map<string, string>, invalidations: seq<Invalidation>, e: Entry)
    requires e in QueryEntries(routes, invalidations)
    ensures exists source :: source in InvalidationSources(invalidations) && RouteOf(routes, source.pageOwned, source.ownerId) == e.route
  {
    var before, last := invalidations[..|invalidations| - 1], invalidations[|invalidations| - 1];
    if e in QueryEntries(routes, before) {
      QuerySource(routes, before, e);
    } else {
      assert Source(last.pageOwned, last.ownerId, last.guards) in InvalidationSources(invalidations);
    }
  }

  lemma {:induction false} EventSource(routes: map<string, string>, subscriptions: seq<Subscription>, e: Entry)
    requires e in EventEntries(routes, subscriptions)
    ensures exists source :: source in SubscriptionSources(subscriptions) && RouteOf(routes, source.pageOwned, source.ownerId) == e.route
  {
    var before, last := subscriptions[..|subscriptions| - 1], subscriptions[|subscriptions| - 1];
    if e in EventEntries(routes, before) {
      EventSource(routes, before, e);
    } else {
      assert Source(last.pageOwned, last.ownerId, last.guards) in SubscriptionSources(subscriptions);
    }
  }

  /** Every bound entry on a page with a route has that route labelled, so it is never broadcast for want of a label. */
  lemma EntriesCovered(p: Program)
    requires Valid(p)
    ensures Covers(Labels(p), Queries(p)) && Covers(Labels(p), Events(p))
  {
    LabelsForm(Streams(p));
    LabelledIff(p, "");
    forall e | e in Queries(p) && e.route != ""
      ensures e.route in Labels(p)
    {
      QuerySource(RoutesByPage(p.pages), p.invalidations, e);
      LabelledIff(p, e.route);
    }
    forall e | e in Events(p) && e.route != ""
      ensures e.route in Labels(p)
    {
      EventSource(RoutesByPage(p.pages), p.subscriptions, e);
      LabelledIff(p, e.route);
    }
  }

  // ------------------------------------------------------------------ delivery

  /**
   Delivery, end to end: a client labelled with a route receives a query of a notice as often as
   the notice lists it if the query is not scoped or some page with that route owns a bound
   invalidation of it, and otherwise never.
   */
  lemma RouteHears(p: Program, r: string, q: string, e: Event)
    requires Valid(p) && r in Labels(p) && e.value.NoticeValue? && e.audience == []
    ensures Received(FanOut(QueryTables(p), e), {Labels(p)[r]}, q)
            == if !Scoped(Queries(p), q) || Entry(q, r) in Queries(p) then Count(q, e.value.notice.queries) else 0
  {
    EntriesCovered(p);
    TablesScope(Labels(p), Queries(p), q);
    SingleLabelDelivery(QueryTables(p), e, Labels(p)[r], q);
  }

  /** A client without a label receives exactly the queries that are not scoped. */
  lemma StrangerHears(p: Program, q: string, e: Event)
    requires Valid(p) && e.value.NoticeValue? && e.audience == []
    ensures Received(FanOut(QueryTables(p), e), {}, q) == if !Scoped(Queries(p), q) then Count(q, e.value.notice.queries) else 0
  {
    EntriesCovered(p);
    TablesScope(Labels(p), Queries(p), q);
    FanOutReceived(QueryTables(p), e, {}, q);
    assert Hits(QueryTables(p), q, {}) == {};
    assert Count(q, e.value.notice.queries) * 0 == 0;
  }

  /** Which invalidations the entry of a query and a route stands for. */
  lemma {:induction false} EntryIff(routes: map<string, string>, invalidations: seq<Invalidation>, q: string, r: string)
    ensures Entry(q, r) in QueryEntries(routes, invalidations) <==>
              exists i :: 0 <= i < |invalidations| && InvalidationBound(invalidations[i]) && TrimSpace(invalidations[i].queryType) == q
                && RouteOf(routes, invalidations[i].pageOwned, invalidations[i].ownerId) == r
  {
    if invalidations != [] {
      var before, last := invalidations[..|invalidations| - 1], invalidations[|invalidations| - 1];
      EntryIff(routes, before, q, r);
      assert forall i | 0 <= i < |before| :: before[i] == invalidations[i];
      if i :| 0 <= i < |invalidations| && InvalidationBound(invalidations[i]) && TrimSpace(invalidations[i].queryType) == q
              && RouteOf(routes, invalidations[i].pageOwned, invalidations[i].ownerId) == r {
        if i < |before| {
          assert InvalidationBound(before[i]);
        }
      }
    }
  }

  /** The event types the generated program fans out. */
  function Subscribed(p: Program): set<string> {
    (set e | e in Events(p) :: e.key) + if Queries(p) != [] then {QUERY_INVALIDATION} else {}
  }

  /**
   The same for subscribed events: once, if the event is not scoped or a page with the client's
   route subscribes to it, and otherwise not at all.
   */
  lemma RouteReceivesEvent(p: Program, r: string, e: Event)
    requires Valid(p) && r in Labels(p) && e.audience == [] && e.eventType in Subscribed(p) && e.eventType != QUERY_INVALIDATION
    ensures DeliveredCount(AudienceScopedEvents(QueryTables(p), EventTables(p), Subscribed(p), true, e), {Labels(p)[r]})
            == if !Scoped(Events(p), e.eventType) || Entry(e.eventType, r) in Events(p) then 1 else 0
  {
    EntriesCovered(p);
    TablesScope(Labels(p), Events(p), e.eventType);
    SubscriptionDelivery(QueryTables(p), EventTables(p), Subscribed(p), e, Labels(p)[r]);
  }

  // ----------------------------------------------------------- a client's own label

  /** realtimeStreamAudience: the route of the first stream, in sorted order, that matches the page's path. */
  function FirstMatch(streams: seq<StreamRoute>, matches: string -> bool): Option<string> {
    if streams == [] then None
    else if matches(streams[0].route) then Some(streams[0].route)
    else FirstMatch(streams[1..], matches)
  }

  function ClientRoute(p: Program, path: string): Option<string> {
    if path == "" then None else FirstMatch(Streams(p), route => R.Matches(route, path))
  }

  /** The labels of a client: those of its one route. */
  function ClientTags(p: Program, path: string): set<string> {
    var route := ClientRoute(p, path);
    if route.Some? && route.value in Labels(p) then {Labels(p)[route.value]} else {}
  }

  /** In a sorted list, the first match is the least matching route. */
  lemma {:induction false} FirstIsLeast(streams: seq<StreamRoute>, matches: string -> bool)
    requires StreamsSorted(streams)
    ensures FirstMatch(streams, matches).None? ==> forall i | 0 <= i < |streams| :: !matches(streams[i].route)
    ensures FirstMatch(streams, matches).Some? ==>
              && matches(FirstMatch(streams, matches).value)
              && (exists i :: 0 <= i < |streams| && streams[i].route == FirstMatch(streams, matches).value)
              && forall i | 0 <= i < |streams| && matches(streams[i].route) :: LexLeq(FirstMatch(streams, matches).value, streams[i].route)
  {
    if streams != [] {
      var rest := streams[1..];
      assert forall i | 0 < i < |streams| :: streams[i] == rest[i - 1];
      if matches(streams[0].route) {
        forall i | 0 <= i < |streams|
          ensures LexLeq(streams[0].route, streams[i].route)
        {
          LexTotal(streams[0].route, streams[i].route);
          assert i > 0 ==> StreamLeq(streams[0], streams[i]);
        }
      } else {
        FirstIsLeast(rest, matches);
        if FirstMatch(rest, matches).Some? {
          var i :| 0 <= i < |rest| && rest[i].route == FirstMatch(rest, matches).value;
          assert streams[i + 1] == rest[i];
        }
      }
    }
  }

  /**
   Exactly when a client on a path is labelled with a route: the route is labelled, matches the
   path, and no labelled route before it in byte order matches the path too.
   */
  lemma ClientRouteIff(p: Program, path: string, r: string)
    requires path != ""
    ensures ClientRoute(p, path) == Some(r) <==>
              && r in Labels(p) && R.Matches(r, path)
              && forall s | s in Labels(p) && s != r && LexLeq(s, r) :: !R.Matches(s, path)
  {
    SortStreamsSorts(KeepFirst(StreamsOf(RoutesByPage(p.pages), Sources(p)), KeyOf));
    LabelsForm(Streams(p));
    LeastMatchIff(Streams(p), Labels(p), route => R.Matches(route, path), r);
  }

  lemma LeastMatchIff(streams: seq<StreamRoute>, labels: map<string, string>, matches: string -> bool, r: string)
    requires StreamsSorted(streams) && forall s :: s in labels <==> exists i :: 0 <= i < |streams| && streams[i].route == s
    ensures FirstMatch(streams, matches) == Some(r) <==>
              && r in labels && matches(r)
              && forall s | s in labels && s != r && LexLeq(s, r) :: !matches(s)
  {
    FirstIsLeast(streams, matches);
    var first := FirstMatch(streams, matches);
    if first == Some(r) {
      forall s | s in labels && s != r && LexLeq(s, r)
        ensures !matches(s)
      {
        var i :| 0 <= i < |streams| && streams[i].route == s;
        if matches(s) {
          LexAntisymmetric(s, r);
        }
      }
    }
    if r in labels && matches(r) && forall s | s in labels && s != r && LexLeq(s, r) :: !matches(s) {
      var i :| 0 <= i < |streams| && streams[i].route == r;
      assert first.Some? && LexLeq(first.value, r) && first.value in labels;
    }
  }

  /**
   A page's own path does not always give its client the page's label: "/{id}" comes before "/~x"
   in byte order and matches it.
   */
  lemma OtherPagesLabel(p: Program, left: string, right: string)
    requires left == "/" + "{id}" && right == "/" + "~x" && left in Labels(p) && right in Labels(p)
    ensures LexLeq(left, right) && R.Matches(left, right) && ClientRoute(p, right) != Some(right)
  {
    assert left[0] == right[0] && left[1..][0] < right[1..][0];
    R.BareSegments("{id}");
    R.SingleParamMatches(left, "~x");
    ClientRouteIff(p, right, right);
  }

  /** What the client on a path receives of a query. */
  lemma ClientHears(p: Program, path: string, q: string, e: Event)
    requires Valid(p) && e.value.NoticeValue? && e.audience == []
    ensures var route := ClientRoute(p, path);
            Received(FanOut(QueryTables(p), e), ClientTags(p, path), q)
            == if !Scoped(Queries(p), q) || (route.Some? && Entry(q, route.value) in Queries(p)) then Count(q, e.value.notice.queries) else 0
  {
    var route := ClientRoute(p, path);
    if route.Some? {
      ClientRouteIff(p, path, route.value);
      RouteHears(p, route.value, q, e);
    } else {
      StrangerHears(p, q, e);
    }
  }
}
