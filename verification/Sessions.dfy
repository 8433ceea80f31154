/**
 Revocable sessions, addons/auth/session.go and addons/auth/session_store.go: the in-memory
 store, the life of a session in a sequential run, and the permanence of revocation when the
 lookups, touches, issues and revocations of concurrent requests interleave.

 Times are nanoseconds since Go's zero time, so 0 is time.Time's zero value.
 */
module Sessions {
  import opened Text

  type Time = nat

  const SECOND := 1_000_000_000
  /** Seconds from Go's zero time to the Unix epoch. */
  const UNIX_EPOCH := 62_135_596_800

  function Unix(t: Time): int {
    t / SECOND - UNIX_EPOCH
  }

  /** sessionExpiry: the first whole second at or after now + ttl. */
  function SessionExpiry(now: Time, ttl: nat): (e: Time)
    ensures now + ttl <= e < now + ttl + SECOND && e % SECOND == 0
  {
    var expires := now + ttl;
    if expires % SECOND == 0 then expires else (expires / SECOND + 1) * SECOND
  }

  /** Whole-second expiries make the cookie's integer test and the record's time test the same test. */
  lemma ExpiryTestsAgree(issued: Time, ttl: nat, t: Time)
    ensures Unix(t) >= Unix(SessionExpiry(issued, ttl)) <==> t >= SessionExpiry(issued, ttl)
  {
    var e := SessionExpiry(issued, ttl);
    assert e == e / SECOND * SECOND;
  }

  datatype Principal = Principal(id: string, roles: seq<string>, permissions: seq<string>, authorizationVersion: string)

  datatype SessionRecord = SessionRecord(
    id: string,
    principal: Principal,
    authorizationVersion: string,
    createdAt: Time,
    expiresAt: Time,
    idleExpiresAt: Time,
    lastSeenAt: Time,
    revoked: bool)
  {
    predicate Expired(now: Time) {
      (expiresAt != 0 && now >= expiresAt) || (idleExpiresAt != 0 && now >= idleExpiresAt)
    }

    /** sessionRecordAuthorizationVersion. */
    function Version(): string {
      if principal.authorizationVersion != "" then principal.authorizationVersion else authorizationVersion
    }

    /** The principal a successful lookup resolves to. */
    function Resolved(): Principal {
      if principal.authorizationVersion == "" then principal.(authorizationVersion := authorizationVersion) else principal
    }
  }

  // --------------------------------------------------------------- the store

  type Store = map<string, SessionRecord>

  function WithTrimmedIds(record: SessionRecord): SessionRecord {
    record.(id := TrimSpace(record.id), principal := record.principal.(id := TrimSpace(record.principal.id)))
  }

  /** CreateSession with its IDs trimmed; None is an error. */
  function Created(store: Store, record: SessionRecord): Option<Store> {
    var trimmed := WithTrimmedIds(record);
    if trimmed.id == "" || trimmed.principal.id == "" then None else Some(store[trimmed.id := trimmed])
  }

  function LookedUp(store: Store, id: string): Option<SessionRecord> {
    if TrimSpace(id) in store && TrimSpace(id) != "" then Some(store[TrimSpace(id)]) else None
  }

  function Revoked(store: Store, id: string): Store {
    var key := TrimSpace(id);
    if key == "" || key !in store then store else store[key := store[key].(revoked := true)]
  }

  function PrincipalRevoked(store: Store, principalId: string): Store {
    var key := TrimSpace(principalId);
    if key == "" then store
    else map id | id in store :: if store[id].principal.id == key then store[id].(revoked := true) else store[id]
  }

  /** TouchSession; None is ErrSessionNotFound. */
  function Touched(store: Store, id: string, seenAt: Time, idleExpiresAt: Time): Option<Store> {
    var key := TrimSpace(id);
    if key == "" || key !in store then None
    else Some(store[key := store[key].(lastSeenAt := seenAt, idleExpiresAt := idleExpiresAt)])
  }

  class InMemorySessionStore {
    var sessions: Store

    constructor ()
      ensures sessions == map[]
    {
      sessions := map[];
    }

    /** Refused exactly without a session or principal ID; otherwise stored under the trimmed ID, and no other session is affected. */
    method CreateSession(record: SessionRecord) returns (ok: bool)
      modifies this
      ensures ok <==> TrimSpace(record.id) != "" && TrimSpace(record.principal.id) != ""
      ensures !ok ==> sessions == old(sessions)
      ensures ok ==> sessions.Keys == old(sessions).Keys + {TrimSpace(record.id)}
      ensures forall id | id in sessions ::
                sessions[id] == if ok && id == TrimSpace(record.id) then WithTrimmedIds(record) else old(sessions)[id]
    {
      var trimmed := record.(id := TrimSpace(record.id), principal := record.principal.(id := TrimSpace(record.principal.id)));
      if trimmed.id == "" || trimmed.principal.id == "" {
        return false;
      }
      sessions := sessions[trimmed.id := trimmed];
      ok := true;
    }

    method LookupSession(id: string) returns (r: Option<SessionRecord>)
      ensures r.Some? <==> TrimSpace(id) != "" && TrimSpace(id) in sessions
      ensures r.Some? ==> r.value == sessions[TrimSpace(id)]
    {
      var key := TrimSpace(id);
      if key == "" || key !in sessions {
        return None;
      }
      r := Some(sessions[key]);
    }

    /** Exactly the session under the trimmed ID is revoked, and nothing else about any session changes. */
    method RevokeSession(id: string)
      modifies this
      ensures sessions.Keys == old(sessions).Keys
      ensures forall k | k in sessions ::
                sessions[k] == old(sessions)[k].(revoked := old(sessions)[k].revoked || (k == TrimSpace(id) && k != ""))
    {
      var key := TrimSpace(id);
      if key != "" && key in sessions {
        sessions := sessions[key := sessions[key].(revoked := true)];
      }
    }

    /** The loop over every stored session, in whatever order the map yields them. */
    method RevokePrincipal(principalId: string)
      modifies this
      ensures sessions == PrincipalRevoked(old(sessions), principalId)
    {
      var key := TrimSpace(principalId);
      if key == "" {
        return;
      }
      var remaining := sessions.Keys;
      while remaining != {}
        invariant remaining <= sessions.Keys == old(sessions).Keys
        invariant forall id | id in remaining :: sessions[id] == old(sessions)[id]
        invariant forall id | id in sessions && id !in remaining :: sessions[id] == PrincipalRevoked(old(sessions), principalId)[id]
        decreases remaining
      {
        var id :| id in remaining;
        if sessions[id].principal.id == key {
          sessions := sessions[id := sessions[id].(revoked := true)];
        }
        remaining := remaining - {id};
      }
    }

    /** The times of any stored session move, live or not; its revocation and every other session stay. */
    method TouchSession(id: string, seenAt: Time, idleExpiresAt: Time) returns (ok: bool)
      modifies this
      ensures ok <==> TrimSpace(id) != "" && TrimSpace(id) in old(sessions)
      ensures sessions.Keys == old(sessions).Keys
      ensures forall k | k in sessions ::
                && sessions[k].revoked == old(sessions)[k].revoked
                && sessions[k] == if ok && k == TrimSpace(id) then old(sessions)[k].(lastSeenAt := seenAt, idleExpiresAt := idleExpiresAt)
                                  else old(sessions)[k]
    {
      var key := TrimSpace(id);
      if key == "" || key !in sessions {
        return false;
      }
      sessions := sessions[key := sessions[key].(lastSeenAt := seenAt, idleExpiresAt := idleExpiresAt)];
      ok := true;
    }
  }

  // ----------------------------------------------------------- laws of the store

  /** A created session is found again under any spelling of its ID, and every other lookup is as before. */
  lemma CreateThenLookup(store: Store, record: SessionRecord, id: string)
    requires Created(store, record).Some?
    ensures LookedUp(Created(store, record).value, id)
            == if TrimSpace(id) == TrimSpace(record.id) then Some(WithTrimmedIds(record)) else LookedUp(store, id)
  {
  }

  /** Revoking is idempotent, commutes with touching, and is undone by neither. */
  lemma RevokeTouch(store: Store, id: string, other: string, seenAt: Time, idleExpiresAt: Time)
    ensures Revoked(Revoked(store, id), id) == Revoked(store, id)
    ensures Touched(store, other, seenAt, idleExpiresAt).Some? <==> Touched(Revoked(store, id), other, seenAt, idleExpiresAt).Some?
    ensures Touched(store, other, seenAt, idleExpiresAt).Some? ==>
              Touched(Revoked(store, id), other, seenAt, idleExpiresAt).value == Revoked(Touched(store, other, seenAt, idleExpiresAt).value, id)
  {
  }

  /** A touch reaches a session if and only if it is stored, revoked or not, and the session stays as revoked as it was. */
  lemma TouchReachesStored(store: Store, id: string, seenAt: Time, idleExpiresAt: Time)
    ensures Touched(store, id, seenAt, idleExpiresAt).Some? <==> LookedUp(store, id).Some?
    ensures LookedUp(store, id).Some? ==>
              LookedUp(Touched(store, id, seenAt, idleExpiresAt).value, id)
              == Some(LookedUp(store, id).value.(lastSeenAt := seenAt, idleExpiresAt := idleExpiresAt))
  {
  }

  /** In particular the times of a revoked session move. */
  lemma RevokedIsTouched(record: SessionRecord, seenAt: Time, idleExpiresAt: Time)
    requires record.id == "s" && record.revoked && record.lastSeenAt != seenAt
    ensures var touched := Touched(map["s" := record], "s", seenAt, idleExpiresAt);
            && touched.Some? && touched.value["s"].revoked
            && touched.value["s"].lastSeenAt == seenAt && touched.value["s"] != record
  {
    assert TrimSpace("s") == "s";
  }

  // ------------------------------------------------- the manager's operations

  /** The session lifetimes New accepts: at least one second each, zero switching the idle limit off. */
  datatype Config = Config(ttl: nat, idleTTL: nat) {
    predicate Valid() {
      ttl >= SECOND && (idleTTL == 0 || idleTTL >= SECOND)
    }
  }

  /** The signed contents of a revocable session's cookie. */
  datatype Payload = Payload(sessionId: string, authorizationVersion: string, expires: int)

  function NewRecord(config: Config, principal: Principal, now: Time, id: string): SessionRecord {
    SessionRecord(id, principal, principal.authorizationVersion, now, SessionExpiry(now, config.ttl),
                  if config.idleTTL > 0 then SessionExpiry(now, config.idleTTL) else 0, now, false)
  }

  function IssuedPayload(config: Config, principal: Principal, now: Time, id: string): Payload {
    Payload(id, principal.authorizationVersion, Unix(SessionExpiry(now, config.ttl)))
  }

  /** Cookie in revocable mode: the stored state after issuing, unchanged when issuing is refused. */
  function Issued(config: Config, store: Store, principal: Principal, now: Time, id: string): Store {
    if TrimSpace(principal.id) == "" then store
    else
      var created := Created(store, NewRecord(config, principal, now, id));
      if created.None? then store else created.value
  }

  /** Principal up to and including the lookup and its checks; the clock is read twice. */
  function Checked(store: Store, payload: Payload, first: Time, second: Time): Option<SessionRecord> {
    if Unix(first) >= payload.expires || TrimSpace(payload.sessionId) == "" then None
    else
      var found := LookedUp(store, payload.sessionId);
      if found.None? then None
      else
        var record := found.value;
        if record.revoked || record.Expired(second) || TrimSpace(record.principal.id) == "" then None
        else if record.Version() != payload.authorizationVersion then None
        else found
  }

  /** Principal, run without interruption: whom the request acts as, and the store after the touch. */
  function Access(config: Config, store: Store, payload: Payload, first: Time, second: Time): (Option<Principal>, Store) {
    var found := Checked(store, payload, first, second);
    if found.None? then (None, store)
    else if config.idleTTL == 0 then (Some(found.value.Resolved()), store)
    else
      var touched := Touched(store, found.value.id, second, SessionExpiry(second, config.idleTTL));
      if touched.None? then (None, store) else (Some(found.value.Resolved()), touched.value)
  }

  /** Sessions.Cookie and Sessions.Principal against a live store object. */
  class Manager {
    const config: Config
    const store: InMemorySessionStore

    constructor (config: Config, store: InMemorySessionStore)
      ensures this.config == config && this.store == store
    {
      this.config := config;
      this.store := store;
    }

    method Cookie(principal: Principal, now: Time, freshId: string) returns (r: Option<Payload>)
      modifies store
      ensures store.sessions == Issued(config, old(store.sessions), principal, now, freshId)
      ensures r == if TrimSpace(principal.id) == "" || TrimSpace(freshId) == "" then None
                   else Some(IssuedPayload(config, principal, now, freshId))
    {
      if TrimSpace(principal.id) == "" {
        return None;
      }
      var expires := SessionExpiry(now, config.ttl);
      var idle := if config.idleTTL > 0 then SessionExpiry(now, config.idleTTL) else 0;
      var ok := store.CreateSession(
        SessionRecord(freshId, principal, principal.authorizationVersion, now, expires, idle, now, false));
      r := if ok then Some(Payload(freshId, principal.authorizationVersion, Unix(expires))) else None;
    }

    method Resolve(payload: Payload, first: Time, second: Time) returns (r: Option<Principal>)
      modifies store
      ensures (r, store.sessions) == Access(config, old(store.sessions), payload, first, second)
    {
      if Unix(first) >= payload.expires || TrimSpace(payload.sessionId) == "" {
        return None;
      }
      var found := store.LookupSession(payload.sessionId);
      if found.None? {
        return None;
      }
      var record := found.value;
      if record.revoked || record.Expired(second) || TrimSpace(record.principal.id) == "" || record.Version() != payload.authorizationVersion {
        return None;
      }
      if config.idleTTL > 0 {
        var ok := store.TouchSession(record.id, second, SessionExpiry(second, config.idleTTL));
        if !ok {
          assert store.sessions == old(store.sessions);
          return None;
        }
        assert store.sessions == Touched(old(store.sessions), record.id, second, SessionExpiry(second, config.idleTTL)).value;
      }
      r := Some(record.Resolved());
    }
  }

  // ------------------------------------------------- when a request is answered

  /** The version a record stands for: its principal's when that is set, otherwise the one it was stored with. */
  predicate HasVersion(record: SessionRecord, version: string) {
    || (record.principal.authorizationVersion != "" && version == record.principal.authorizationVersion)
    || (record.principal.authorizationVersion == "" && version == record.authorizationVersion)
  }

  /**
   The cookie is before its expiry, and a record is stored under its session ID: not revoked, before
   both of its expiries, of a principal with an ID, and at the version the cookie was issued at.
   */
  predicate Honoured(store: Store, payload: Payload, first: Time, second: Time) {
    && first / 1_000_000_000 - 62_135_596_800 < payload.expires
    && var key := TrimSpace(payload.sessionId);
       && key != "" && key in store
       && var record := store[key];
          && !record.revoked
          && (record.expiresAt == 0 || second < record.expiresAt)
          && (record.idleExpiresAt == 0 || second < record.idleExpiresAt)
          && TrimSpace(record.principal.id) != ""
          && HasVersion(record, payload.authorizationVersion)
  }

  /**
   Exactly when a request is answered, for every store, cookie and clock: the session is honoured,
   and, where an idle limit is to be extended, its record is stored under its own ID.  The answer
   is the record's principal at the cookie's version; only the two times of the record move, and
   only under an idle limit.  A request that is not answered changes nothing.
   */
  lemma AnsweredIff(config: Config, store: Store, payload: Payload, first: Time, second: Time)
    ensures var (who, after) := Access(config, store, payload, first, second);
            var key := TrimSpace(payload.sessionId);
            && (who.Some? <==>
                && Honoured(store, payload, first, second)
                && (config.idleTTL == 0 || (TrimSpace(store[key].id) != "" && TrimSpace(store[key].id) in store)))
            && (who.None? ==> after == store)
            && (who.Some? ==>
                && who.value == store[key].principal.(authorizationVersion := payload.authorizationVersion)
                && after == if config.idleTTL == 0 then store
                            else var own := TrimSpace(store[key].id);
                                 store[own := store[own].(lastSeenAt := second, idleExpiresAt := SessionExpiry(second, config.idleTTL))])
  {
    hide TrimSpace;
  }

  /** Every record is stored under its own trimmed ID. */
  predicate Keyed(store: Store) {
    forall id | id in store :: id != "" && TrimSpace(id) == id && store[id].id == id
  }

  /** So are all records of every store that is reached, and the second clause of AnsweredIff always holds. */
  lemma KeyedAlways(config: Config, store: Store, e: Event, payload: Payload)
    requires Keyed(store)
    ensures Keyed(map[]) && Keyed(Apply(config, store, e))
    ensures var key := TrimSpace(payload.sessionId); key in store ==> TrimSpace(store[key].id) == key != "" && key in store
  {
    match e
    case Issue(principal, now, id) => TrimSpaceTrims(id); TrimSpaceTrims(TrimSpace(id));
    case Request(_, first, second) =>
    case _ =>
  }

  // --------------------------------------------- the life of one session

  datatype Event =
    | Issue(principal: Principal, now: Time, id: string)
    | Request(payload: Payload, first: Time, second: Time)
    | RevokeOne(sessionId: string)
    | RevokeAll(principalId: string)

  function Apply(config: Config, store: Store, e: Event): Store {
    match e
    case Issue(principal, now, id) => Issued(config, store, principal, now, id)
    case Request(payload, first, second) => Access(config, store, payload, first, second).1
    case RevokeOne(id) => Revoked(store, id)
    case RevokeAll(id) => PrincipalRevoked(store, id)
  }

  /** What can be said of one session without looking at the store. */
  datatype Life = Life(lastAccepted: Time, revoked: bool)

  /** The session under observation: who it was issued to, when, and under which ID. */
  datatype Ticket = Ticket(principal: Principal, issuedAt: Time, id: string)

  /** Absolute and idle lifetime, counted in rounded-up seconds. */
  predicate Alive(config: Config, ticket: Ticket, life: Life, t: Time) {
    && !life.revoked
    && t < SessionExpiry(ticket.issuedAt, config.ttl)
    && (config.idleTTL > 0 ==> t < SessionExpiry(life.lastAccepted, config.idleTTL))
  }

  function Lived(config: Config, ticket: Ticket, life: Life, e: Event): Life {
    match e
    case Issue(_, _, _) => life
    case Request(payload, _, second) =>
      if TrimSpace(payload.sessionId) == ticket.id && Alive(config, ticket, life, second)
      then life.(lastAccepted := second) else life
    case RevokeOne(id) => if TrimSpace(id) == ticket.id then life.(revoked := true) else life
    case RevokeAll(id) => if TrimSpace(id) == TrimSpace(ticket.principal.id) then life.(revoked := true) else life
  }

  function LivedAll(config: Config, ticket: Ticket, life: Life, events: seq<Event>): Life {
    if events == [] then life
    else Lived(config, ticket, LivedAll(config, ticket, life, events[..|events| - 1]), events[|events| - 1])
  }

  function ApplyAll(config: Config, store: Store, events: seq<Event>): Store {
    if events == [] then store
    else Apply(config, ApplyAll(config, store, events[..|events| - 1]), events[|events| - 1])
  }

  /** The clock never runs backwards within a request, nobody forges the ticket's cookie, and IDs are not reused. */
  predicate Fair(config: Config, ticket: Ticket, e: Event) {
    match e
    case Issue(_, _, id) => TrimSpace(id) != ticket.id
    case Request(payload, first, second) =>
      && first <= second
      && (TrimSpace(payload.sessionId) == ticket.id ==>
          payload == IssuedPayload(config, ticket.principal, ticket.issuedAt, ticket.id))
    case _ => true
  }

  predicate ValidTicket(ticket: Ticket) {
    ticket.id != "" && Trimmed(ticket.id) && TrimSpace(ticket.principal.id) != ""
  }

  /** The stored record says exactly what the observer knows. */
  ghost predicate Tracks(config: Config, ticket: Ticket, life: Life, store: Store) {
    && ticket.id in store
    && var record := store[ticket.id];
       && record.id == ticket.id
       && record.principal == ticket.principal.(id := TrimSpace(ticket.principal.id))
       && record.authorizationVersion == ticket.principal.authorizationVersion
       && record.expiresAt == SessionExpiry(ticket.issuedAt, config.ttl)
       && record.idleExpiresAt == (if config.idleTTL > 0 then SessionExpiry(life.lastAccepted, config.idleTTL) else 0)
       && record.revoked == life.revoked
  }

  lemma IssueTracks(config: Config, ticket: Ticket, store: Store)
    requires config.Valid() && ValidTicket(ticket)
    ensures Tracks(config, ticket, Life(ticket.issuedAt, false),
                   Issued(config, store, ticket.principal, ticket.issuedAt, ticket.id))
  {
    TrimSpaceTrims(ticket.id);
  }

  /** One request with the ticket's cookie: accepted exactly while the session is alive. */
  lemma RequestVerdict(config: Config, ticket: Ticket, life: Life, store: Store, first: Time, second: Time)
    requires config.Valid() && ValidTicket(ticket) && first <= second
    requires Tracks(config, ticket, life, store)
    ensures var payload := IssuedPayload(config, ticket.principal, ticket.issuedAt, ticket.id);
            && Checked(store, payload, first, second)
               == (if Alive(config, ticket, life, second) then Some(store[ticket.id]) else None)
            && Access(config, store, payload, first, second).0
               == (if Alive(config, ticket, life, second)
                   then Some(ticket.principal.(id := TrimSpace(ticket.principal.id))) else None)
  {
    TrimSpaceTrims(ticket.id);
    TrimSpaceTrims(ticket.principal.id);
    TrimSpaceTrims(TrimSpace(ticket.principal.id));
    ExpiryTestsAgree(ticket.issuedAt, config.ttl, first);
  }

  lemma EventTracks(config: Config, ticket: Ticket, life: Life, store: Store, e: Event)
    requires config.Valid() && ValidTicket(ticket) && Fair(config, ticket, e)
    requires Tracks(config, ticket, life, store)
    requires forall id | id in store :: store[id].id == id && id != "" && Trimmed(id)
    ensures Tracks(config, ticket, Lived(config, ticket, life, e), Apply(config, store, e))
    ensures forall id | id in Apply(config, store, e) :: Apply(config, store, e)[id].id == id && id != "" && Trimmed(id)
  {
    match e
    case Issue(principal, now, id) =>
      TrimSpaceTrims(id);
    case Request(payload, first, second) =>
      TrimSpaceTrims(payload.sessionId);
      var key := TrimSpace(payload.sessionId);
      if key == ticket.id {
        RequestVerdict(config, ticket, life, store, first, second);
        TrimSpaceTrims(ticket.id);
      } else if key in store {
        TrimSpaceTrims(key);
      }
    case RevokeOne(_) =>
    case RevokeAll(_) =>
  }

  lemma {:induction false} RunTracks(config: Config, ticket: Ticket, store: Store, events: seq<Event>)
    requires config.Valid() && ValidTicket(ticket)
    requires forall i | 0 <= i < |events| :: Fair(config, ticket, events[i])
    requires forall id | id in store :: store[id].id == id && id != "" && Trimmed(id)
    ensures var start := Issued(config, store, ticket.principal, ticket.issuedAt, ticket.id);
            var end := ApplyAll(config, start, events);
            && Tracks(config, ticket, LivedAll(config, ticket, Life(ticket.issuedAt, false), events), end)
            && forall id | id in end :: end[id].id == id && id != "" && Trimmed(id)
  {
    var start := Issued(config, store, ticket.principal, ticket.issuedAt, ticket.id);
    var life := Life(ticket.issuedAt, false);
    if events == [] {
      IssueTracks(config, ticket, store);
      TrimSpaceTrims(ticket.id);
    } else {
      var before := events[..|events| - 1];
      RunTracks(config, ticket, store, before);
      EventTracks(config, ticket, LivedAll(config, ticket, life, before), ApplyAll(config, start, before), events[|events| - 1]);
    }
  }

  /**
   Session lifetime, both directions: after any sequential history of issues, requests and
   revocations, a request with the session's cookie is accepted at time t if and only if the
   session has not been revoked, t is before the rounded absolute expiry and, with an idle
   limit, before the rounded idle expiry counted from the last accepted request.  Who it is
   accepted as never changes.
   */
  lemma SessionLifetime(config: Config, ticket: Ticket, store: Store, events: seq<Event>, first: Time, second: Time)
    requires config.Valid() && ValidTicket(ticket) && first <= second
    requires forall i | 0 <= i < |events| :: Fair(config, ticket, events[i])
    requires forall id | id in store :: store[id].id == id && id != "" && Trimmed(id)
    ensures var payload := IssuedPayload(config, ticket.principal, ticket.issuedAt, ticket.id);
            var now := ApplyAll(config, Issued(config, store, ticket.principal, ticket.issuedAt, ticket.id), events);
            var life := LivedAll(config, ticket, Life(ticket.issuedAt, false), events);
            Access(config, now, payload, first, second).0
            == if Alive(config, ticket, life, second)
               then Some(ticket.principal.(id := TrimSpace(ticket.principal.id))) else None
  {
    RunTracks(config, ticket, store, events);
    var now := ApplyAll(config, Issued(config, store, ticket.principal, ticket.issuedAt, ticket.id), events);
    RequestVerdict(config, ticket, LivedAll(config, ticket, Life(ticket.issuedAt, false), events), now, first, second);
  }

  // ------------------------------------ interleaved requests and revocation

  /** A request that passed its checks and still owes the store its touch. */
  datatype PendingTouch = PendingTouch(id: string, seenAt: Time, idleExpiresAt: Time)

  datatype System = System(store: Store, pending: map<nat, PendingTouch>)

  /** Each step is one critical section of the store's mutex. */
  datatype Step =
    | DoIssue(principal: Principal, now: Time, id: string)
    | DoLookup(request: nat, payload: Payload, first: Time, second: Time)
    | DoTouch(request: nat)
    | DoRevoke(sessionId: string)
    | DoRevokeAll(principalId: string)

  function Next(config: Config, s: System, step: Step): System {
    match step
    case DoIssue(principal, now, id) => s.(store := Issued(config, s.store, principal, now, id))
    case DoLookup(request, payload, first, second) =>
      var found := Checked(s.store, payload, first, second);
      if found.None? || config.idleTTL == 0 then s
      else s.(pending := s.pending[request := PendingTouch(found.value.id, second, SessionExpiry(second, config.idleTTL))])
    case DoTouch(request) =>
      if request !in s.pending then s
      else
        var p := s.pending[request];
        var touched := Touched(s.store, p.id, p.seenAt, p.idleExpiresAt);
        System(if touched.None? then s.store else touched.value, s.pending - {request})
    case DoRevoke(id) => s.(store := Revoked(s.store, id))
    case DoRevokeAll(id) => s.(store := PrincipalRevoked(s.store, id))
  }

  /** The states an interleaving passes through, first to last. */
  ghost predicate IsRun(config: Config, states: seq<System>, steps: seq<Step>) {
    |states| == |steps| + 1 && forall i | 0 <= i < |steps| :: states[i + 1] == Next(config, states[i], steps[i])
  }

  /** The step issues a session under this ID. */
  predicate Creates(step: Step, id: string) {
    step.DoIssue? && TrimSpace(step.id) == id && id != "" && TrimSpace(step.principal.id) != ""
  }

  /** Some cookie at some time is answered under this ID. */
  ghost predicate Answers(store: Store, id: string) {
    exists payload: Payload, first: Time, second: Time :: TrimSpace(payload.sessionId) == id && Checked(store, payload, first, second).Some?
  }

  lemma StepKeepsRevoked(config: Config, s: System, step: Step, id: string)
    requires id in s.store && s.store[id].revoked && !Creates(step, id) && id != ""
    ensures id in Next(config, s, step).store && Next(config, s, step).store[id].revoked
  {
  }

  lemma {:induction false} RunKeepsRevoked(config: Config, states: seq<System>, steps: seq<Step>, i: nat, j: nat, id: string)
    requires IsRun(config, states, steps) && i <= j < |states| && id != ""
    requires id in states[i].store && states[i].store[id].revoked
    requires forall k | i <= k < j :: !Creates(steps[k], id)
    ensures id in states[j].store && states[j].store[id].revoked
    decreases j
  {
    if i < j {
      RunKeepsRevoked(config, states, steps, i, j - 1, id);
      StepKeepsRevoked(config, states[j - 1], steps[j - 1], id);
    }
  }

  /**
   Revocation is permanent under interleaving: from the step that revokes a stored session, or
   its principal, every later lookup of that session resolves to unauthenticated, whatever
   touches, rotations, issues and revocations of other requests run in between, and whatever
   cookie and clock the lookup comes with, as long as nothing is issued under its own ID.
   */
  lemma RevocationIsPermanent(config: Config, states: seq<System>, steps: seq<Step>, i: nat, j: nat,
                              id: string, payload: Payload, first: Time, second: Time)
    requires IsRun(config, states, steps) && i < |steps| && i < j < |states|
    requires id in states[i].store && id != ""
    requires || (steps[i].DoRevoke? && TrimSpace(steps[i].sessionId) == id)
             || (steps[i].DoRevokeAll? && TrimSpace(steps[i].principalId) == states[i].store[id].principal.id != "")
    requires forall k | i < k < j :: !Creates(steps[k], id)
    requires TrimSpace(payload.sessionId) == id
    ensures Checked(states[j].store, payload, first, second) == None
  {
    assert states[i + 1] == Next(config, states[i], steps[i]);
    RunKeepsRevoked(config, states, steps, i + 1, j, id);
  }

  /** A session just issued answers. */
  lemma IssuedAnswers(config: Config, s: System, step: Step, id: string)
    requires config.Valid() && Creates(step, id)
    ensures Answers(Next(config, s, step).store, id)
  {
    var store := Next(config, s, step).store;
    TrimSpaceTrims(step.id);
    TrimSpaceTrims(id);
    TrimSpaceTrims(step.principal.id);
    TrimSpaceTrims(TrimSpace(step.principal.id));
    var record := store[id];
    var payload := Payload(id, record.Version(), Unix(step.now) + 1);
    assert Checked(store, payload, step.now, step.now).Some?;
  }

  /**
   The exact condition, for every run: a revoked session answers again at some later state if and
   only if one of the steps in between issues a session under its ID.
   */
  lemma RevivedIff(config: Config, states: seq<System>, steps: seq<Step>, i: nat, j: nat, id: string)
    requires config.Valid() && IsRun(config, states, steps) && i <= j < |states| && id != ""
    requires id in states[i].store && states[i].store[id].revoked
    ensures (exists k :: i <= k <= j && Answers(states[k].store, id)) <==> (exists k :: i <= k < j && Creates(steps[k], id))
  {
    if k :| i <= k < j && Creates(steps[k], id) {
      IssuedAnswers(config, states[k], steps[k], id);
      assert states[k + 1] == Next(config, states[k], steps[k]);
    } else {
      forall k | i <= k <= j
        ensures !Answers(states[k].store, id)
      {
        RunKeepsRevoked(config, states, steps, i, k, id);
      }
    }
  }
}
