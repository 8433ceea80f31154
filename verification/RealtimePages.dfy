/**
 Realtime delivery read off the program: which pages, subscriptions and invalidations decide what a
 client on a path receives, without the tables of the generated code.
 */
module RealtimePages {
  import opened Text
  import opened Dedupe
  import opened Guards
  import opened Realtime
  import opened RealtimeProgram
  import R = SsrRoutes

  // ------------------------------------------------------------------- the pages

  /** The route of a page: the last one declared under its ID that is not blank. */
  ghost predicate PageRoute(pages: seq<Page>, id: string, r: string) {
    exists i :: 0 <= i < |pages|
      && id != "" && pages[i].id == id && TrimSpace(pages[i].route) == r && r != ""
      && forall j | i < j < |pages| && pages[j].id == id :: TrimSpace(pages[j].route) == ""
  }

  lemma {:induction false} RoutesByPageIff(pages: seq<Page>, id: string, r: string)
    ensures (id in RoutesByPage(pages) && RoutesByPage(pages)[id] == r) <==> PageRoute(pages, id, r)
  {
    hide TrimSpace;
    if pages != [] {
      var before, page := pages[..|pages| - 1], pages[|pages| - 1];
      RoutesByPageIff(before, id, r);
      assert forall i | 0 <= i < |before| :: before[i] == pages[i];
      if page.id == id && id != "" && TrimSpace(page.route) != "" {
        if TrimSpace(page.route) == r {
          assert pages[|before|] == page;
        }
      } else {
        PageKept(before, page, id, r);
        assert pages == before + [page];
      }
    }
  }

  lemma PageKept(before: seq<Page>, page: Page, id: string, r: string)
    requires page.id != id || id == "" || TrimSpace(page.route) == ""
    ensures PageRoute(before + [page], id, r) <==> PageRoute(before, id, r)
  {
    hide TrimSpace;
    var pages := before + [page];
    assert forall i | 0 <= i < |before| :: pages[i] == before[i];
    assert pages[|before|] == page;
    if i :| 0 <= i < |before| && id != "" && before[i].id == id && TrimSpace(before[i].route) == r && r != ""
            && forall j | i < j < |before| && before[j].id == id :: TrimSpace(before[j].route) == "" {
      assert pages[i].id == id;
    }
    if i :| 0 <= i < |pages| && id != "" && pages[i].id == id && TrimSpace(pages[i].route) == r && r != ""
            && forall j | i < j < |pages| && pages[j].id == id :: TrimSpace(pages[j].route) == "" {
      assert i < |before| && before[i].id == id;
    }
  }

  /** The entry belongs to a page with that route. */
  ghost predicate OnRoute(p: Program, pageOwned: bool, ownerId: string, r: string) {
    pageOwned && PageRoute(p.pages, ownerId, r)
  }

  lemma OnRouteIff(p: Program, pageOwned: bool, ownerId: string, r: string)
    requires r != ""
    ensures RouteOf(RoutesByPage(p.pages), pageOwned, ownerId) == r <==> OnRoute(p, pageOwned, ownerId, r)
  {
    hide PageRoute, RoutesByPage;
    RoutesByPageIff(p.pages, ownerId, r);
  }

  lemma RoutedIff(p: Program, pageOwned: bool, ownerId: string)
    ensures RouteOf(RoutesByPage(p.pages), pageOwned, ownerId) != "" <==> exists r :: OnRoute(p, pageOwned, ownerId, r)
  {
    hide PageRoute, RoutesByPage;
    var route := RouteOf(RoutesByPage(p.pages), pageOwned, ownerId);
    if route != "" {
      OnRouteIff(p, pageOwned, ownerId, route);
    }
    forall r | OnRoute(p, pageOwned, ownerId, r)
      ensures route != ""
    {
      RouteNotEmpty(p, ownerId, r);
      OnRouteIff(p, pageOwned, ownerId, r);
    }
  }

  lemma RouteNotEmpty(p: Program, ownerId: string, r: string)
    requires PageRoute(p.pages, ownerId, r)
    ensures r != ""
  {
  }

  // ------------------------------------------------------------------ the entries

  /** A bound invalidation of the query. */
  predicate Asks(i: Invalidation, q: string) {
    i.bound && TrimSpace(i.eventType) != "" && q != "" && TrimSpace(i.queryType) == q
  }

  /** A bound subscription to the event type, qualified by its import path when it has one. */
  predicate Listens(s: Subscription, eventType: string) {
    var name, path := TrimSpace(s.eventType), TrimSpace(s.importPath);
    s.bound && name != "" && eventType == if path == "" then name else path + "." + name
  }

  lemma {:induction false} QueriesHave(routes: map<string, string>, invalidations: seq<Invalidation>, e: Entry)
    ensures e in QueryEntries(routes, invalidations) <==>
              exists i :: i in invalidations && Asks(i, e.key) && RouteOf(routes, i.pageOwned, i.ownerId) == e.route
  {
    hide TrimSpace, RouteOf;
    if invalidations != [] {
      var before, last := invalidations[..|invalidations| - 1], invalidations[|invalidations| - 1];
      QueriesHave(routes, before, e);
      assert invalidations == before + [last];
    }
  }

  lemma {:induction false} EventsHave(routes: map<string, string>, subscriptions: seq<Subscription>, e: Entry)
    ensures e in EventEntries(routes, subscriptions) <==>
              exists s :: s in subscriptions && Listens(s, e.key) && RouteOf(routes, s.pageOwned, s.ownerId) == e.route
  {
    hide TrimSpace, RouteOf;
    if subscriptions != [] {
      var before, last := subscriptions[..|subscriptions| - 1], subscriptions[|subscriptions| - 1];
      EventsHave(routes, before, e);
      assert subscriptions == before + [last];
    }
  }

  /** A page with the route invalidates the query. */
  ghost predicate AskedOn(p: Program, q: string, r: string) {
    exists i :: i in p.invalidations && Asks(i, q) && OnRoute(p, i.pageOwned, i.ownerId, r)
  }

  ghost predicate ListenedOn(p: Program, eventType: string, r: string) {
    exists s :: s in p.subscriptions && Listens(s, eventType) && OnRoute(p, s.pageOwned, s.ownerId, r)
  }

  /** Something invalidates the query, and only pages with a route do. */
  ghost predicate Private(p: Program, q: string) {
    && (exists i :: i in p.invalidations && Asks(i, q))
    && (forall i | i in p.invalidations && Asks(i, q) :: exists r :: OnRoute(p, i.pageOwned, i.ownerId, r))
  }

  ghost predicate PrivateEvent(p: Program, eventType: string) {
    && (exists s :: s in p.subscriptions && Listens(s, eventType))
    && (forall s | s in p.subscriptions && Listens(s, eventType) :: exists r :: OnRoute(p, s.pageOwned, s.ownerId, r))
  }

  lemma QueryOnRoute(p: Program, q: string, r: string)
    requires r != ""
    ensures Entry(q, r) in Queries(p) <==> AskedOn(p, q, r)
  {
    hide OnRoute, Asks, RouteOf;
    QueriesHave(RoutesByPage(p.pages), p.invalidations, Entry(q, r));
    forall i: Invalidation
      ensures RouteOf(RoutesByPage(p.pages), i.pageOwned, i.ownerId) == r <==> OnRoute(p, i.pageOwned, i.ownerId, r)
    {
      OnRouteIff(p, i.pageOwned, i.ownerId, r);
    }
  }

  lemma EventOnRoute(p: Program, eventType: string, r: string)
    requires r != ""
    ensures Entry(eventType, r) in Events(p) <==> ListenedOn(p, eventType, r)
  {
    hide OnRoute, Listens, RouteOf;
    EventsHave(RoutesByPage(p.pages), p.subscriptions, Entry(eventType, r));
    forall s: Subscription
      ensures RouteOf(RoutesByPage(p.pages), s.pageOwned, s.ownerId) == r <==> OnRoute(p, s.pageOwned, s.ownerId, r)
    {
      OnRouteIff(p, s.pageOwned, s.ownerId, r);
    }
  }

  lemma PrivateIff(p: Program, q: string)
    ensures Scoped(Queries(p), q) <==> Private(p, q)
  {
    hide OnRoute, Asks, RouteOf;
    var routes := RoutesByPage(p.pages);
    forall e
      ensures e in Queries(p) <==> exists i :: i in p.invalidations && Asks(i, e.key) && RouteOf(routes, i.pageOwned, i.ownerId) == e.route
    {
      QueriesHave(routes, p.invalidations, e);
    }
    forall i: Invalidation
      ensures RouteOf(routes, i.pageOwned, i.ownerId) != "" <==> exists r :: OnRoute(p, i.pageOwned, i.ownerId, r)
    {
      RoutedIff(p, i.pageOwned, i.ownerId);
    }
    forall i | i in p.invalidations && Asks(i, q)
      ensures Entry(q, RouteOf(routes, i.pageOwned, i.ownerId)) in Queries(p)
    {
    }
  }

  lemma PrivateEventIff(p: Program, eventType: string)
    ensures Scoped(Events(p), eventType) <==> PrivateEvent(p, eventType)
    ensures (exists e :: e in Events(p) && e.key == eventType) <==> exists s :: s in p.subscriptions && Listens(s, eventType)
  {
    hide OnRoute, Listens, RouteOf;
    var routes := RoutesByPage(p.pages);
    forall e
      ensures e in Events(p) <==> exists s :: s in p.subscriptions && Listens(s, e.key) && RouteOf(routes, s.pageOwned, s.ownerId) == e.route
    {
      EventsHave(routes, p.subscriptions, e);
    }
    forall s: Subscription
      ensures RouteOf(routes, s.pageOwned, s.ownerId) != "" <==> exists r :: OnRoute(p, s.pageOwned, s.ownerId, r)
    {
      RoutedIff(p, s.pageOwned, s.ownerId);
    }
    forall s | s in p.subscriptions && Listens(s, eventType)
      ensures Entry(eventType, RouteOf(routes, s.pageOwned, s.ownerId)) in Events(p)
    {
    }
  }

  // ------------------------------------------------------------------- the labels

  lemma {:induction false} SubscriptionSourceIff(subscriptions: seq<Subscription>, source: Source)
    ensures source in SubscriptionSources(subscriptions) <==>
              exists s, t :: s in subscriptions && Listens(s, t) && source == Source(s.pageOwned, s.ownerId, s.guards)
  {
    hide TrimSpace;
    if subscriptions != [] {
      var before, last := subscriptions[..|subscriptions| - 1], subscriptions[|subscriptions| - 1];
      SubscriptionSourceIff(before, source);
      assert subscriptions == before + [last];
      ListensSome(last);
    }
  }

  lemma ListensSome(s: Subscription)
    ensures SubscriptionBound(s) <==> exists t :: Listens(s, t)
  {
    if SubscriptionBound(s) {
      assert Listens(s, EnvelopeType(s));
    }
  }

  lemma {:induction false} InvalidationSourceIff(invalidations: seq<Invalidation>, source: Source)
    ensures source in InvalidationSources(invalidations) <==>
              exists i, q :: i in invalidations && Asks(i, q) && source == Source(i.pageOwned, i.ownerId, i.guards)
  {
    hide TrimSpace;
    if invalidations != [] {
      var before, last := invalidations[..|invalidations| - 1], invalidations[|invalidations| - 1];
      InvalidationSourceIff(before, source);
      assert invalidations == before + [last];
      assert InvalidationBound(last) <==> Asks(last, TrimSpace(last.queryType));
    }
  }

  /** Something is invalidated or listened to on the route. */
  ghost predicate Live(p: Program, r: string) {
    (exists q :: AskedOn(p, q, r)) || exists t :: ListenedOn(p, t, r)
  }

  /** The labelled routes are those of the pages that invalidate a query or listen to an event. */
  lemma LiveIff(p: Program, r: string)
    requires Valid(p)
    ensures r in Labels(p) <==> Live(p, r)
  {
    hide OnRoute, Asks, Listens, RouteOf, Labels, PageRoute;
    var routes := RoutesByPage(p.pages);
    LabelledIff(p, r);
    if r in Labels(p) {
      var source :| source in Sources(p) && RouteOf(routes, source.pageOwned, source.ownerId) == r;
      OnRouteIff(p, source.pageOwned, source.ownerId, r);
      SubscriptionSourceIff(p.subscriptions, source);
      InvalidationSourceIff(p.invalidations, source);
      SourceLive(p, source, r);
    }
    if Live(p, r) {
      var source := LiveSource(p, r);
      OnRouteIff(p, source.pageOwned, source.ownerId, r);
    }
  }

  lemma SourceLive(p: Program, source: Source, r: string)
    requires OnRoute(p, source.pageOwned, source.ownerId, r)
    requires (exists s, t :: s in p.subscriptions && Listens(s, t) && source == Source(s.pageOwned, s.ownerId, s.guards))
             || exists i, q :: i in p.invalidations && Asks(i, q) && source == Source(i.pageOwned, i.ownerId, i.guards)
    ensures Live(p, r)
  {
    hide OnRoute, Asks, Listens;
    if s, t :| s in p.subscriptions && Listens(s, t) && source == Source(s.pageOwned, s.ownerId, s.guards) {
      assert ListenedOn(p, t, r);
    } else {
      var i, q :| i in p.invalidations && Asks(i, q) && source == Source(i.pageOwned, i.ownerId, i.guards);
      assert AskedOn(p, q, r);
    }
  }

  lemma LiveSource(p: Program, r: string) returns (source: Source)
    requires Live(p, r)
    ensures source in Sources(p) && OnRoute(p, source.pageOwned, source.ownerId, r) && r != ""
  {
    hide OnRoute, Asks, Listens;
    if t :| ListenedOn(p, t, r) {
      var s :| s in p.subscriptions && Listens(s, t) && OnRoute(p, s.pageOwned, s.ownerId, r);
      source := Source(s.pageOwned, s.ownerId, s.guards);
      SubscriptionSourceIff(p.subscriptions, source);
    } else {
      var q :| AskedOn(p, q, r);
      var i :| i in p.invalidations && Asks(i, q) && OnRoute(p, i.pageOwned, i.ownerId, r);
      source := Source(i.pageOwned, i.ownerId, i.guards);
      InvalidationSourceIff(p.invalidations, source);
    }
    OwnedRoute(p, source.pageOwned, source.ownerId, r);
  }

  lemma OwnedRoute(p: Program, pageOwned: bool, ownerId: string, r: string)
    requires OnRoute(p, pageOwned, ownerId, r)
    ensures r != ""
  {
    RouteNotEmpty(p, ownerId, r);
  }

  // ---------------------------------------------------------------------- streams

  /**
   The streams of the generated program: for every entry on a route, one with that route and the
   names its guards check at run time, up to the key that joins them; and no others.
   */
  lemma StreamsIff(p: Program, s: StreamRoute)
    requires Valid(p)
    ensures s in Streams(p) ==>
              s.audience == "" && exists source ::
                source in Sources(p) && OnRoute(p, source.pageOwned, source.ownerId, s.route) && RuntimeNames(source.guards, s.guards)
    ensures forall source, r | source in Sources(p) && OnRoute(p, source.pageOwned, source.ownerId, r) ::
              exists names, t :: RuntimeNames(source.guards, names) && t in Streams(p) && t.route == r && Join(t.guards, "\0") == Join(names, "\0")
  {
    hide *;
    if s in Streams(p) {
      StreamBehind(p, s);
    }
    forall source, r | source in Sources(p) && OnRoute(p, source.pageOwned, source.ownerId, r)
      ensures exists names, t :: RuntimeNames(source.guards, names) && t in Streams(p) && t.route == r && Join(t.guards, "\0") == Join(names, "\0")
    {
      StreamAhead(p, source, r);
    }
  }

  lemma StreamBehind(p: Program, s: StreamRoute)
    requires Valid(p) && s in Streams(p)
    ensures s.audience == "" && exists source ::
              source in Sources(p) && OnRoute(p, source.pageOwned, source.ownerId, s.route) && RuntimeNames(source.guards, s.guards)
  {
    hide OnRoute, RouteOf, Sources, RoutesByPage, RuntimeNames, RuntimeGuardNames, StreamsOf;
    var routes := RoutesByPage(p.pages);
    var all := StreamsOf(routes, Sources(p));
    SortStreamsSorts(KeepFirst(all, KeyOf));
    assert s in multiset(KeepFirst(all, KeyOf));
    KeptIsFrom(all, KeyOf, s);
    var source := StreamSource(routes, Sources(p), s);
    OnRouteIff(p, source.pageOwned, source.ownerId, s.route);
    RuntimeGuardNamesAre(source.guards);
  }

  lemma StreamAhead(p: Program, source: Source, r: string)
    requires Valid(p) && source in Sources(p) && OnRoute(p, source.pageOwned, source.ownerId, r)
    ensures exists names, t :: RuntimeNames(source.guards, names) && t in Streams(p) && t.route == r && Join(t.guards, "\0") == Join(names, "\0")
  {
    hide OnRoute, RouteOf, Sources, RoutesByPage, RuntimeNames, RuntimeGuardNames, StreamsOf, KeyOf, KeepFirst, PlainRoutes;
    var routes, names := RoutesByPage(p.pages), RuntimeGuardNames(source.guards);
    RoutesCompiled(p.pages);
    OwnedRoute(p, source.pageOwned, source.ownerId, r);
    OnRouteIff(p, source.pageOwned, source.ownerId, r);
    RuntimeGuardNamesAre(source.guards);
    SourceStream(routes, Sources(p), source);
    var all, x := StreamsOf(routes, Sources(p)), StreamRoute(r, names, "");
    SortStreamsSorts(KeepFirst(all, KeyOf));
    var t := KeptFor(all, KeyOf, x);
    StreamFrom(routes, Sources(p), x);
    StreamFrom(routes, Sources(p), t);
    SameStream(x, t);
    assert t in multiset(Streams(p));
  }

  lemma SameStream(x: StreamRoute, t: StreamRoute)
    requires KeyOf(x) == KeyOf(t) && '\0' !in x.route && '\0' !in t.route
    ensures x.route == t.route && Join(x.guards, "\0") == Join(t.guards, "\0")
  {
    StreamKeyRoute(x.route, x.guards, t.route, t.guards);
    var a, b := Join(x.guards, "\0"), Join(t.guards, "\0");
    assert KeyOf(x)[|x.route| + 1..] == a && KeyOf(t)[|t.route| + 1..] == b;
  }

  lemma {:induction false} StreamSource(routes: map<string, string>, sources: seq<Source>, s: StreamRoute) returns (source: Source)
    requires s in StreamsOf(routes, sources)
    ensures source in sources && s.route == RouteOf(routes, source.pageOwned, source.ownerId) != ""
    ensures s.guards == RuntimeGuardNames(source.guards) && s.audience == ""
  {
    var before, last := sources[..|sources| - 1], sources[|sources| - 1];
    if s in StreamsOf(routes, before) {
      source := StreamSource(routes, before, s);
    } else {
      source := last;
    }
  }

  lemma {:induction false} SourceStream(routes: map<string, string>, sources: seq<Source>, source: Source)
    requires source in sources && RouteOf(routes, source.pageOwned, source.ownerId) != ""
    ensures StreamRoute(RouteOf(routes, source.pageOwned, source.ownerId), RuntimeGuardNames(source.guards), "") in StreamsOf(routes, sources)
  {
    var before, last := sources[..|sources| - 1], sources[|sources| - 1];
    assert sources == before + [last];
    if source in before {
      SourceStream(routes, before, source);
    }
  }

  // --------------------------------------------------------------------- delivery

  /** The client on the path belongs to the live route that matches it and comes first in byte order. */
  ghost predicate Belongs(p: Program, path: string, r: string) {
    path != "" && Live(p, r) && R.Matches(r, path) && forall s | Live(p, s) && s != r && LexLeq(s, r) :: !R.Matches(s, path)
  }

  lemma BelongsIff(p: Program, path: string, r: string)
    requires Valid(p)
    ensures ClientRoute(p, path) == Some(r) <==> Belongs(p, path, r)
  {
    hide Live, Labels;
    forall s
      ensures s in Labels(p) <==> Live(p, s)
    {
      LiveIff(p, s);
    }
    if path != "" {
      ClientRouteIff(p, path, r);
    }
  }

  /**
   What the client on a path receives of a query, from the program alone: of a presentation event
   everything the notice lists, unless only pages with a route invalidate the query and none of the
   client's route does.
   */
  lemma ClientReceives(p: Program, path: string, q: string, presentation: bool, e: Event)
    requires Valid(p) && e.eventType == QUERY_INVALIDATION && e.value.NoticeValue? && e.audience == []
    ensures Received(AudienceScopedEvents(QueryTables(p), EventTables(p), Subscribed(p), presentation, e), ClientTags(p, path), q)
            == if presentation && (!Private(p, q) || exists r :: Belongs(p, path, r) && AskedOn(p, q, r)) then Count(q, e.value.notice.queries) else 0
  {
    hide Belongs, AskedOn, Private, Scoped, Queries, ClientRoute, FanOut, QueryTables, EventTables, Subscribed, ClientTags;
    ClientHears(p, path, q, e);
    PrivateIff(p, q);
    forall r
      ensures ClientRoute(p, path) == Some(r) <==> Belongs(p, path, r)
      ensures Belongs(p, path, r) ==> (Entry(q, r) in Queries(p) <==> AskedOn(p, q, r))
    {
      BelongsIff(p, path, r);
      if Belongs(p, path, r) {
        BelongsRoute(p, path, r);
        QueryOnRoute(p, q, r);
      }
    }
    var route := ClientRoute(p, path);
    assert route.Some? ==> Belongs(p, path, route.value);
  }

  lemma BelongsRoute(p: Program, path: string, r: string)
    requires Belongs(p, path, r)
    ensures r != ""
  {
    var source := LiveSource(p, r);
  }

  /**
   And of any other event: nothing unless it is a presentation event some page listens to; then one
   copy, unless only pages with a route listen and none of the client's route does.
   */
  lemma ClientReceivesEvent(p: Program, path: string, presentation: bool, e: Event)
    requires Valid(p) && e.audience == [] && e.eventType != QUERY_INVALIDATION
    ensures DeliveredCount(AudienceScopedEvents(QueryTables(p), EventTables(p), Subscribed(p), presentation, e), ClientTags(p, path))
            == if presentation && (exists s :: s in p.subscriptions && Listens(s, e.eventType))
                  && (!PrivateEvent(p, e.eventType) || exists r :: Belongs(p, path, r) && ListenedOn(p, e.eventType, r)) then 1 else 0
  {
    hide Belongs, ListenedOn, PrivateEvent, Listens, Scoped, Events, ClientRoute, QueryTables, EventTables, Labels;
    var t := e.eventType;
    PrivateEventIff(p, t);
    SubscribedIff(p, t);
    if presentation && t in Subscribed(p) {
      forall r
        ensures ClientRoute(p, path) == Some(r) <==> Belongs(p, path, r)
        ensures Belongs(p, path, r) ==> (Entry(t, r) in Events(p) <==> ListenedOn(p, t, r))
      {
        BelongsIff(p, path, r);
        if Belongs(p, path, r) {
          BelongsRoute(p, path, r);
          EventOnRoute(p, t, r);
        }
      }
      var route := ClientRoute(p, path);
      if route.Some? {
        assert Belongs(p, path, route.value);
        BelongsLabelled(p, path, route.value);
        RouteReceivesEvent(p, route.value, e);
      } else {
        StrangerReceivesEvent(p, e);
      }
    }
  }

  lemma BelongsLabelled(p: Program, path: string, r: string)
    requires Valid(p) && Belongs(p, path, r)
    ensures r in Labels(p)
  {
    LiveIff(p, r);
  }

  lemma SubscribedIff(p: Program, eventType: string)
    requires eventType != QUERY_INVALIDATION
    ensures eventType in Subscribed(p) <==> exists e :: e in Events(p) && e.key == eventType
  {
  }

  /** A client without a label receives the subscribed events that are not scoped. */
  lemma StrangerReceivesEvent(p: Program, e: Event)
    requires Valid(p) && e.audience == [] && e.eventType in Subscribed(p) && e.eventType != QUERY_INVALIDATION
    ensures DeliveredCount(AudienceScopedEvents(QueryTables(p), EventTables(p), Subscribed(p), true, e), {})
            == if !Scoped(Events(p), e.eventType) then 1 else 0
  {
    EntriesCovered(p);
    TablesScope(Labels(p), Events(p), e.eventType);
    var t := EventTables(p);
    if t.Unscoped(e.eventType) {
      assert [e][..0] == [];
    } else {
      NoCopies(e, t.Audiences(e.eventType));
    }
  }

  lemma {:induction false} NoCopies(e: Event, audiences: seq<string>)
    requires e.audience == []
    ensures DeliveredCount(Copies(e, audiences), {}) == 0
  {
    if audiences != [] {
      var before, last := audiences[..|audiences| - 1], audiences[|audiences| - 1];
      NoCopies(e, before);
      CountOneMore(Copies(e, before), WithAudience(e, last), {});
      assert last in WithAudience(e, last).audience;
    }
  }

  // ------------------------------------------------------------- what events carry

  /** Apart from the queries it lists and the label it gains, an event is sent on as it came. */
  ghost predicate SentOn(e: Event, x: Event) {
    && x.id == e.id && x.eventType == e.eventType && e.audience <= x.audience && |x.audience| <= |e.audience| + 1
    && match e.value
       case OtherValue(_) => x.value == e.value
       case NoticeValue(n) =>
         x.value.NoticeValue? && x.value.notice.version == n.version && x.value.notice.events == n.events && x.value.notice.eventIds == n.eventIds
  }

  lemma AllSentOn(queries: Tables, subscriptions: Tables, subscribed: set<string>, presentation: bool, e: Event)
    ensures forall x | x in AudienceScopedEvents(queries, subscriptions, subscribed, presentation, e) :: SentOn(e, x)
  {
    if e.value.NoticeValue? {
      ScopedSentOn(queries, e, e.value.notice.queries, AudiencesOf(queries, e.value.notice.queries));
    }
    CopiesSentOn(e, subscriptions.Audiences(e.eventType));
  }

  lemma {:induction false} ScopedSentOn(t: Tables, e: Event, queries: seq<string>, audiences: seq<string>)
    requires e.value.NoticeValue?
    ensures forall x | x in ScopedEvents(t, e, queries, audiences) :: SentOn(e, x)
  {
    if audiences != [] {
      ScopedSentOn(t, e, queries, audiences[..|audiences| - 1]);
    }
  }

  lemma {:induction false} CopiesSentOn(e: Event, audiences: seq<string>)
    ensures forall x | x in Copies(e, audiences) :: SentOn(e, x)
  {
    if audiences != [] {
      CopiesSentOn(e, audiences[..|audiences| - 1]);
    }
  }
}
