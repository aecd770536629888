/**
  * Refresh-token rotation as a protocol of interleaved requests. A step is one
  * SQL statement of one request, or the transaction that rotates a grant. A
  * token is known by its hash, and a new token is one no one has seen.
  */
module RefreshRotation {
  import opened Wrappers

  type Hash = nat
  type Time = int

  const ACCESS_TTL: Time := 60 * 60
  const REFRESH_TTL: Time := 30 * 24 * 60 * 60
  const MANAGE := "mcps:manage"

  /** A row of `access_tokens` that an OAuth grant made. Its id is its position in the table. */
  datatype Grant = Grant(accessHash: Hash, expiresAt: Time, refreshHash: Option<Hash>, refreshExpiresAt: Option<Time>,
                         clientId: int, resource: string, scopes: set<string>, createdAt: Time, revokedAt: Option<Time>)

  /** A row of `oauth_refresh_token_history`. */
  datatype Spent = Spent(grant: nat, hash: Hash)

  /** The two tables, and every hash ever handed out. */
  datatype Store = Store(grants: seq<Grant>, history: seq<Spent>, issued: set<Hash>)

  datatype Request = Request(hash: Hash, clientId: int, resource: string, scopes: set<string>)

  datatype Outcome = Rotated(accessHash: Hash, refreshHash: Hash) | Invalid | Reused | ScopeExceeded

  /** Where a request is: the statement it is about to run. The history is looked up twice. */
  datatype Phase =
    | LookUp(second: bool)
    | ReadSpent(second: bool, id: nat)
    | RevokeSpent(id: nat)
    | ReadCurrent
    | Check(id: nat, copy: Grant)
    | Mint(id: nat, checkedAt: Time)
    | Rotate(id: nat, expiresAt: Time)
    | Done(outcome: Outcome)

  // ----- The statements

  predicate BelongsTo(g: Grant, r: Request) {
    g.clientId == r.clientId && g.resource == r.resource
  }

  /** `select access_token_id from oauth_refresh_token_history where token_hash = ? limit 1` */
  function FindSpent(history: seq<Spent>, hash: Hash): (id: Option<nat>)
    ensures id.Some? ==> Spent(id.value, hash) in history
    ensures id.None? ==> forall row :: row in history ==> row.hash != hash
  {
    if history == [] then None
    else if history[0].hash == hash then Some(history[0].grant)
    else FindSpent(history[1..], hash)
  }

  predicate IsCurrent(g: Grant, r: Request) {
    g.refreshHash == Some(r.hash) && BelongsTo(g, r) && g.revokedAt.None?
  }

  /** The select of the grant whose refresh token is presented, from row `from` on. */
  function FindCurrent(grants: seq<Grant>, r: Request, from: nat): (id: Option<nat>)
    requires from <= |grants|
    ensures id.Some? ==> from <= id.value < |grants| && IsCurrent(grants[id.value], r)
    ensures id.None? ==> forall j :: from <= j < |grants| ==> !IsCurrent(grants[j], r)
    decreases |grants| - from
  {
    if from == |grants| then None
    else if IsCurrent(grants[from], r) then Some(from)
    else FindCurrent(grants, r, from + 1)
  }

  function Revoked(store: Store, id: nat, now: Time): Store
    requires id < |store.grants|
  {
    store.(grants := store.grants[id := store.grants[id].(revokedAt := Some(now))])
  }

  /** The transaction: the conditional update, and the history insert if it changed the row. */
  function Exchanged(store: Store, hash: Hash, id: nat, expiresAt: Time, access: Hash, refresh: Hash): Option<Store>
  {
    if id < |store.grants| && store.grants[id].refreshHash == Some(hash) && store.grants[id].revokedAt.None? then
      Some(Store(store.grants[id := store.grants[id].(accessHash := access, expiresAt := expiresAt,
                                                      refreshHash := Some(refresh))],
                 store.history + [Spent(id, hash)],
                 store.issued + {access, refresh}))
    else None
  }

  function NotReused(second: bool): Phase {
    if second then Done(Invalid) else ReadCurrent
  }

  predicate IsExpired(copy: Grant, now: Time) {
    copy.refreshExpiresAt.None? || copy.refreshExpiresAt.value <= now
  }

  /** The filter on the refresh expiry and the scopes, after the grant was read. */
  function Checked(r: Request, id: nat, copy: Grant, now: Time): Phase {
    if IsExpired(copy, now) then Done(Invalid)
    else if !(r.scopes <= copy.scopes) then Done(ScopeExceeded)
    else Mint(id, now)
  }

  /**
    * One statement of `rotate_oauth_grant`, or one of its two readings of the
    * clock. `access` and `refresh` are the tokens it would hand out.
    */
  function Advance(store: Store, now: Time, r: Request, phase: Phase, access: Hash, refresh: Hash): (Store, Phase)
    requires !phase.Done?
    requires phase.RevokeSpent? ==> phase.id < |store.grants|
  {
    match phase
    case LookUp(second) =>
      (match FindSpent(store.history, r.hash)
       case None => (store, NotReused(second))
       case Some(id) => (store, ReadSpent(second, id)))
    case ReadSpent(second, id) =>
      if id >= |store.grants| || !BelongsTo(store.grants[id], r) then (store, NotReused(second))
      else if store.grants[id].revokedAt.Some? then (store, Done(Reused))
      else (store, RevokeSpent(id))
    case RevokeSpent(id) => (Revoked(store, id, now), Done(Reused))
    case ReadCurrent =>
      (match FindCurrent(store.grants, r, 0)
       case None => (store, Done(Invalid))
       case Some(id) => (store, Check(id, store.grants[id])))
    case Check(id, copy) => (store, Checked(r, id, copy, now))
    case Mint(id, _) => (store, Rotate(id, now + ACCESS_TTL))
    case Rotate(id, expiresAt) =>
      (match Exchanged(store, r.hash, id, expiresAt, access, refresh)
       case None => (store, LookUp(true))
       case Some(next) => (next, Done(Rotated(access, refresh))))
  }

  /** Every statement takes a request nearer to its answer. */
  function Rank(phase: Phase): nat {
    match phase
    case LookUp(second) => if second then 3 else 9
    case ReadSpent(second, _) => if second then 2 else 8
    case RevokeSpent(_) => 1
    case ReadCurrent => 7
    case Check(_, _) => 6
    case Mint(_, _) => 5
    case Rotate(_, _) => 4
    case Done(_) => 0
  }

  lemma {:induction false} AdvanceTerminates(store: Store, now: Time, r: Request, phase: Phase, access: Hash,
                                             refresh: Hash)
    requires !phase.Done? && (phase.RevokeSpent? ==> phase.id < |store.grants|)
    ensures Rank(Advance(store, now, r, phase, access, refresh).1) < Rank(phase)
  {
  }

  // ----- The system

  /** A refresh request, or a removal of the management scope that has read its copy of the scopes. */
  datatype Session = Refresh(request: Request, phase: Phase) | Removal(id: nat, copy: set<string>)

  /** `gap` is the longest time so far between the two readings of the clock of one request. */
  datatype System = System(store: Store, now: Time, sessions: map<nat, Session>, gap: nat)

  datatype Event =
    | Tick(elapsed: nat)
    | Create(clientId: int, resource: string, scopes: set<string>, access: Hash, first: Option<Hash>)
    | Open(sid: nat, request: Request)
    | Statement(sid: nat, access: Hash, refresh: Hash)
    | Revoke(id: nat)
    | OpenRemoval(sid: nat, id: nat)
    | Remove(sid: nat)

  predicate IsFresh(store: Store, access: Hash, refresh: Hash) {
    access !in store.issued && refresh !in store.issued && access != refresh
  }

  predicate Enabled(s: System, e: Event) {
    match e
    case Tick(_) => true
    case Create(_, _, _, access, first) =>
      access !in s.store.issued && (first.Some? ==> IsFresh(s.store, access, first.value))
    case Open(sid, _) => sid !in s.sessions
    case Statement(sid, access, refresh) =>
      && sid in s.sessions && s.sessions[sid].Refresh? && !s.sessions[sid].phase.Done?
      && (s.sessions[sid].phase.RevokeSpent? ==> s.sessions[sid].phase.id < |s.store.grants|)
      && IsFresh(s.store, access, refresh)
    case Revoke(id) => id < |s.store.grants|
    case OpenRemoval(sid, id) => sid !in s.sessions && id < |s.store.grants|
    case Remove(sid) => sid in s.sessions && s.sessions[sid].Removal? && s.sessions[sid].id < |s.store.grants|
  }

  /** A new row of `create_oauth_grant`. */
  function NewGrant(now: Time, clientId: int, resource: string, scopes: set<string>, access: Hash,
                    refresh: Option<Hash>): Grant {
    Grant(access, now + ACCESS_TTL, refresh, if refresh.Some? then Some(now + REFRESH_TTL) else None,
          clientId, resource, scopes, now, None)
  }

  function Created(store: Store, g: Grant): Store {
    Store(store.grants + [g], store.history,
          store.issued + {g.accessHash} + if g.refreshHash.Some? then {g.refreshHash.value} else {})
  }

  /** The update of `remove_mcp_management`, from scopes that may be stale. */
  function Narrowed(store: Store, id: nat, copy: set<string>): Store
    requires id < |store.grants|
  {
    if MANAGE in copy && store.grants[id].revokedAt.None? then
      store.(grants := store.grants[id := store.grants[id].(scopes := copy - {MANAGE})])
    else store
  }

  function Longer(gap: nat, now: Time, phase: Phase): (longer: nat)
    ensures longer >= gap && (phase.Mint? ==> now - phase.checkedAt <= longer)
  {
    if phase.Mint? && now - phase.checkedAt > gap then now - phase.checkedAt else gap
  }

  function Next(s: System, e: Event): System
    requires Enabled(s, e)
  {
    match e
    case Tick(elapsed) => s.(now := s.now + elapsed)
    case Create(clientId, resource, scopes, access, first) =>
      s.(store := Created(s.store, NewGrant(s.now, clientId, resource, scopes, access, first)))
    case Open(sid, request) => s.(sessions := s.sessions[sid := Refresh(request, LookUp(false))])
    case Statement(sid, access, refresh) =>
      var session := s.sessions[sid];
      var (store, phase) := Advance(s.store, s.now, session.request, session.phase, access, refresh);
      System(store, s.now, s.sessions[sid := Refresh(session.request, phase)], Longer(s.gap, s.now, session.phase))
    case Revoke(id) => s.(store := Revoked(s.store, id, s.now))
    case OpenRemoval(sid, id) => s.(sessions := s.sessions[sid := Removal(id, s.store.grants[id].scopes)])
    case Remove(sid) => s.(store := Narrowed(s.store, s.sessions[sid].id, s.sessions[sid].copy))
  }

  const EMPTY: System := System(Store([], [], {}), 0, map[], 0)

  /** Whether the events happen one after the other and lead from `s` to `t`. */
  ghost predicate Leads(s: System, events: seq<Event>, t: System)
    decreases |events|
  {
    if events == [] then s == t
    else Enabled(s, events[0]) && Leads(Next(s, events[0]), events[1..], t)
  }

  ghost predicate Reachable(s: System) {
    exists events :: Leads(EMPTY, events, s)
  }

  // ----- What the tables keep

  /** No token was spent twice, and no spent token is the current one of a grant. */
  ghost predicate TokensApart(store: Store) {
    && (forall i, j :: 0 <= i < j < |store.history| ==> store.history[i].hash != store.history[j].hash)
    && (forall row :: row in store.history ==> row.grant < |store.grants| && row.hash in store.issued)
    && (forall id :: 0 <= id < |store.grants| && store.grants[id].refreshHash.Some? ==>
          && store.grants[id].refreshHash.value in store.issued
          && forall row :: row in store.history ==> row.hash != store.grants[id].refreshHash.value)
    && (forall i, j :: 0 <= i < j < |store.grants| && store.grants[i].refreshHash.Some? ==>
          store.grants[i].refreshHash != store.grants[j].refreshHash)
  }

  /**
    * The access token of a grant ends at most an hour after its refresh token,
    * which ends 30 days after the start, and the gap of the clock readings later.
    */
  predicate IsTimely(g: Grant, gap: nat) {
    && g.expiresAt <= g.createdAt + REFRESH_TTL + ACCESS_TTL + gap
    && g.refreshExpiresAt == if g.refreshHash.Some? then Some(g.createdAt + REFRESH_TTL) else None
  }

  /** What may become of a row. */
  predicate Kept(g: Grant, h: Grant) {
    && g.clientId == h.clientId && g.resource == h.resource && g.createdAt == h.createdAt
    && g.refreshExpiresAt == h.refreshExpiresAt
    && h.scopes <= g.scopes && h.scopes - {MANAGE} == g.scopes - {MANAGE}
    && (g.revokedAt.Some? ==> h.revokedAt.Some? && h.accessHash == g.accessHash && h.refreshHash == g.refreshHash
                              && h.expiresAt == g.expiresAt)
  }

  /** The tables grow, rows keep what they must, and a token that is given up is in the history. */
  ghost predicate Evolves(a: Store, b: Store) {
    && |a.grants| <= |b.grants| && a.history <= b.history && a.issued <= b.issued
    && forall id :: 0 <= id < |a.grants| ==>
         && Kept(a.grants[id], b.grants[id])
         && (a.grants[id].refreshHash == b.grants[id].refreshHash ||
             (a.grants[id].refreshHash.Some? && Spent(id, a.grants[id].refreshHash.value) in b.history))
  }

  // ----- What a request knows

  /** The presented token was exchanged for one of this client and resource. */
  ghost predicate IsSpent(store: Store, r: Request) {
    exists row :: row in store.history && row.hash == r.hash && row.grant < |store.grants| &&
      BelongsTo(store.grants[row.grant], r)
  }

  ghost predicate IsSpentAndRevoked(store: Store, r: Request) {
    exists row :: row in store.history && row.hash == r.hash && row.grant < |store.grants| &&
                  BelongsTo(store.grants[row.grant], r) && store.grants[row.grant].revokedAt.Some?
  }

  /** The presented token was never exchanged, and its grant is revoked. */
  ghost predicate IsRevokedUnspent(store: Store, r: Request) {
    exists id :: 0 <= id < |store.grants| && store.grants[id].refreshHash == Some(r.hash) &&
                 BelongsTo(store.grants[id], r) && store.grants[id].revokedAt.Some?
  }

  /** Grant `id` is of this client and resource, and the presented token is or was its refresh token. */
  ghost predicate Owns(store: Store, id: nat, r: Request) {
    && id < |store.grants| && BelongsTo(store.grants[id], r)
    && (store.grants[id].refreshHash == Some(r.hash) || Spent(id, r.hash) in store.history)
  }

  /** What holds of a request at each of its statements. */
  ghost predicate Knows(store: Store, r: Request, phase: Phase, gap: nat) {
    match phase
    case LookUp(second) => second ==> IsSpent(store, r) || IsRevokedUnspent(store, r)
    case ReadSpent(second, id) => Spent(id, r.hash) in store.history && (second ==> IsSpent(store, r))
    case RevokeSpent(id) => Spent(id, r.hash) in store.history && id < |store.grants| && BelongsTo(store.grants[id], r)
    case ReadCurrent => true
    case Check(id, copy) =>
      Owns(store, id, r) && copy.refreshExpiresAt == store.grants[id].refreshExpiresAt
    case Mint(id, checkedAt) =>
      && Owns(store, id, r) && store.grants[id].refreshExpiresAt.Some?
      && checkedAt <= store.grants[id].refreshExpiresAt.value
    case Rotate(id, expiresAt) =>
      && Owns(store, id, r) && store.grants[id].refreshExpiresAt.Some?
      && expiresAt <= store.grants[id].refreshExpiresAt.value + ACCESS_TTL + gap
    case Done(Rotated(_, _)) => IsSpent(store, r)
    case Done(Reused) => IsSpentAndRevoked(store, r)
    case Done(_) => true
  }

  ghost predicate Remembers(store: Store, session: Session, gap: nat) {
    match session
    case Refresh(r, phase) => Knows(store, r, phase, gap)
    case Removal(id, copy) => id < |store.grants| && copy - {MANAGE} == store.grants[id].scopes - {MANAGE}
  }

  predicate HasRotated(session: Session) {
    session.Refresh? && session.phase.Done? && session.phase.outcome.Rotated?
  }

  ghost predicate Inv(s: System) {
    && TokensApart(s.store)
    && (forall g :: g in s.store.grants ==> IsTimely(g, s.gap))
    && (forall sid :: sid in s.sessions ==> Remembers(s.store, s.sessions[sid], s.gap))
    && (forall a, b :: a in s.sessions && b in s.sessions && a != b &&
                       HasRotated(s.sessions[a]) && HasRotated(s.sessions[b]) ==>
          s.sessions[a].request.hash != s.sessions[b].request.hash)
  }

  // ----- Each write keeps the tables

  lemma {:induction false} EvolvesTransitive(a: Store, b: Store, c: Store)
    requires Evolves(a, b) && Evolves(b, c)
    ensures Evolves(a, c)
  {
    forall id | 0 <= id < |a.grants|
      ensures Kept(a.grants[id], c.grants[id])
      ensures a.grants[id].refreshHash == c.grants[id].refreshHash ||
              (a.grants[id].refreshHash.Some? && Spent(id, a.grants[id].refreshHash.value) in c.history)
    {
      assert Kept(a.grants[id], b.grants[id]) && Kept(b.grants[id], c.grants[id]);
    }
  }

  ghost predicate Keeps(a: Store, b: Store, gap: nat) {
    TokensApart(b) && Evolves(a, b) && forall g :: g in b.grants ==> IsTimely(g, gap)
  }

  /** A write that leaves the refresh token of the row alone. */
  lemma {:induction false} WriteKeeps(store: Store, id: nat, h: Grant, gap: nat)
    requires Keeps(store, store, gap) && id < |store.grants|
    requires Kept(store.grants[id], h) && h.refreshHash == store.grants[id].refreshHash && IsTimely(h, gap)
    ensures Keeps(store, store.(grants := store.grants[id := h]), gap)
  {
  }

  lemma {:induction false} RevokedKeeps(store: Store, id: nat, now: Time, gap: nat)
    requires Keeps(store, store, gap) && id < |store.grants|
    ensures Keeps(store, Revoked(store, id, now), gap)
  {
    assert store.grants[id] in store.grants;
    WriteKeeps(store, id, store.grants[id].(revokedAt := Some(now)), gap);
  }

  lemma {:induction false} NarrowedKeeps(store: Store, id: nat, copy: set<string>, gap: nat)
    requires Keeps(store, store, gap) && id < |store.grants|
    requires copy - {MANAGE} == store.grants[id].scopes - {MANAGE}
    ensures Keeps(store, Narrowed(store, id, copy), gap)
  {
    if MANAGE in copy && store.grants[id].revokedAt.None? {
      var g := store.grants[id];
      assert g in store.grants;
      var h := g.(scopes := copy - {MANAGE});
      assert h.scopes <= g.scopes && h.scopes - {MANAGE} == g.scopes - {MANAGE};
      WriteKeeps(store, id, h, gap);
    }
  }

  lemma {:induction false} CreatedKeeps(store: Store, g: Grant, gap: nat)
    requires Keeps(store, store, gap) && IsTimely(g, gap)
    requires g.refreshHash.Some? ==> g.refreshHash.value !in store.issued
    ensures Keeps(store, Created(store, g), gap)
  {
    var next := Created(store, g);
    assert forall id :: 0 <= id < |store.grants| ==> next.grants[id] == store.grants[id];
  }

  lemma {:induction false} ExchangedKeeps(store: Store, hash: Hash, id: nat, expiresAt: Time, access: Hash,
                                          refresh: Hash, gap: nat)
    requires Keeps(store, store, gap) && IsFresh(store, access, refresh)
    requires Exchanged(store, hash, id, expiresAt, access, refresh).Some?
    requires store.grants[id].refreshExpiresAt.Some?
    requires expiresAt <= store.grants[id].refreshExpiresAt.value + ACCESS_TTL + gap
    ensures Keeps(store, Exchanged(store, hash, id, expiresAt, access, refresh).value, gap)
  {
    var next := Exchanged(store, hash, id, expiresAt, access, refresh).value;
    assert IsTimely(store.grants[id], gap);
    assert next.history[|store.history|] == Spent(id, hash);
  }

  // ----- What is known stays known

  lemma {:induction false} KnowsStays(a: Store, b: Store, session: Session, gap: nat, longer: nat)
    requires Evolves(a, b) && Remembers(a, session, gap) && gap <= longer
    ensures Remembers(b, session, longer)
  {
  }

  lemma {:induction false} AdvanceKnows(store: Store, now: Time, r: Request, phase: Phase, access: Hash, refresh: Hash,
                                        gap: nat)
    requires Keeps(store, store, gap) && Knows(store, r, phase, gap) && !phase.Done? && IsFresh(store, access, refresh)
    ensures var (next, after) := Advance(store, now, r, phase, access, refresh);
            Keeps(store, next, gap) && Knows(next, r, after, Longer(gap, now, phase))
  {
    match phase
    case Rotate(id, expiresAt) =>
      if Exchanged(store, r.hash, id, expiresAt, access, refresh).Some? {
        ExchangedKeeps(store, r.hash, id, expiresAt, access, refresh, gap);
        var next := Exchanged(store, r.hash, id, expiresAt, access, refresh).value;
        assert Spent(id, r.hash) in next.history;
      }
    case RevokeSpent(id) =>
      RevokedKeeps(store, id, now, gap);
      assert Spent(id, r.hash) in Revoked(store, id, now).history;
    case _ =>
  }

  lemma {:induction false} NextKeeps(s: System, e: Event)
    requires Inv(s) && Enabled(s, e)
    ensures Inv(Next(s, e)) && Evolves(s.store, Next(s, e).store) && s.gap <= Next(s, e).gap && s.now <= Next(s, e).now
  {
    var t := Next(s, e);
    assert Keeps(s.store, s.store, s.gap);
    match e {
      case Tick(_) =>
      case Create(clientId, resource, scopes, access, first) =>
        CreatedKeeps(s.store, NewGrant(s.now, clientId, resource, scopes, access, first), s.gap);
      case Open(_, _) =>
      case Statement(sid, access, refresh) =>
        assert Remembers(s.store, s.sessions[sid], s.gap);
        AdvanceKnows(s.store, s.now, s.sessions[sid].request, s.sessions[sid].phase, access, refresh, s.gap);
      case Revoke(id) => RevokedKeeps(s.store, id, s.now, s.gap);
      case OpenRemoval(_, _) =>
      case Remove(sid) =>
        assert Remembers(s.store, s.sessions[sid], s.gap);
        NarrowedKeeps(s.store, s.sessions[sid].id, s.sessions[sid].copy, s.gap);
    }
    assert Keeps(s.store, t.store, s.gap);
    forall sid | sid in t.sessions
      ensures Remembers(t.store, t.sessions[sid], t.gap)
    {
      if sid in s.sessions && t.sessions[sid] == s.sessions[sid] {
        KnowsStays(s.store, t.store, s.sessions[sid], s.gap, t.gap);
      }
    }
    OneRotation(s, e);
  }

  /** A token that is exchanged now was never exchanged before. */
  lemma {:induction false} OneRotation(s: System, e: Event)
    requires Inv(s) && Enabled(s, e)
    ensures var t := Next(s, e);
            forall a, b :: a in t.sessions && b in t.sessions && a != b &&
                           HasRotated(t.sessions[a]) && HasRotated(t.sessions[b]) ==>
              t.sessions[a].request.hash != t.sessions[b].request.hash
  {
  }

  // ----- Whole runs

  lemma {:induction false} RunKeeps(s: System, events: seq<Event>, t: System)
    requires Inv(s) && Leads(s, events, t)
    ensures Inv(t) && Evolves(s.store, t.store) && s.gap <= t.gap && s.now <= t.now
    decreases |events|
  {
    if events != [] {
      var next := Next(s, events[0]);
      NextKeeps(s, events[0]);
      RunKeeps(next, events[1..], t);
      EvolvesTransitive(s.store, next.store, t.store);
    }
  }

  lemma {:induction false} ReachableKeeps(s: System)
    requires Reachable(s)
    ensures Inv(s)
  {
    var events :| Leads(EMPTY, events, s);
    RunKeeps(EMPTY, events, s);
  }

  /** Of all requests that present a token, at most one is answered with new tokens. */
  lemma {:induction false} RotatedAtMostOnce(s: System, a: nat, b: nat)
    requires Reachable(s) && a in s.sessions && b in s.sessions
    requires HasRotated(s.sessions[a]) && HasRotated(s.sessions[b])
    requires s.sessions[a].request.hash == s.sessions[b].request.hash
    ensures a == b
  {
    ReachableKeeps(s);
  }

  /** The unique index of the history is never violated, and a spent token never works again. */
  lemma {:induction false} SpentForGood(s: System, events: seq<Event>, t: System, row: Spent)
    requires Reachable(s) && Leads(s, events, t) && row in s.store.history
    ensures TokensApart(t.store) && row in t.store.history
    ensures forall g :: g in t.store.grants ==> g.refreshHash != Some(row.hash)
  {
    ReachableKeeps(s);
    RunKeeps(s, events, t);
    forall g | g in t.store.grants
      ensures g.refreshHash != Some(row.hash)
    {
      var id :| 0 <= id < |t.store.grants| && t.store.grants[id] == g;
    }
  }

  /** A revoked grant stays revoked and keeps its tokens, so it never rotates. */
  lemma {:induction false} RevokedNeverRotates(s: System, events: seq<Event>, t: System, id: nat)
    requires Reachable(s) && Leads(s, events, t)
    requires id < |s.store.grants| && s.store.grants[id].revokedAt.Some?
    ensures id < |t.store.grants| && t.store.grants[id].revokedAt.Some?
    ensures t.store.grants[id].accessHash == s.store.grants[id].accessHash
    ensures t.store.grants[id].refreshHash == s.store.grants[id].refreshHash
    ensures forall row :: row in t.store.history ==> s.store.grants[id].refreshHash != Some(row.hash)
  {
    ReachableKeeps(s);
    RunKeeps(s, events, t);
    assert Kept(s.store.grants[id], t.store.grants[id]);
  }

  /**
    * Scopes only shrink, the refresh expiry never moves, and no access token
    * outlives the start by more than 30 days, an hour and the longest time a
    * request has taken from one reading of the clock to the other.
    */
  lemma {:induction false} GrantLifetime(s: System, events: seq<Event>, t: System, id: nat)
    requires Reachable(s) && Leads(s, events, t) && id < |s.store.grants|
    ensures id < |t.store.grants|
    ensures t.store.grants[id].scopes <= s.store.grants[id].scopes
    ensures s.store.grants[id].scopes - t.store.grants[id].scopes <= {MANAGE}
    ensures t.store.grants[id].refreshExpiresAt == s.store.grants[id].refreshExpiresAt
    ensures t.store.grants[id].expiresAt <= s.store.grants[id].createdAt + REFRESH_TTL + ACCESS_TTL + t.gap
  {
    ReachableKeeps(s);
    RunKeeps(s, events, t);
    var g, h := s.store.grants[id], t.store.grants[id];
    assert Kept(g, h) && h in t.store.grants;
    forall scope | scope in g.scopes - h.scopes
      ensures scope == MANAGE
    {
      assert scope in g.scopes - {MANAGE} ==> scope in h.scopes - {MANAGE};
    }
  }

  // ----- What becomes of a request whose token is spent, revoked or someone else's

  datatype Fate = Replayed | TooLate | Outrun | Foreign | HasRead(copy: Grant, since: Time)

  /** From the update on, and in the history, a spent token is found out. */
  predicate IsFindingOut(phase: Phase) {
    phase.LookUp? || phase.ReadSpent? || phase.RevokeSpent? || phase.Mint? || phase.Rotate? || phase == Done(Reused)
  }

  /** Where the check of the copy leads, for a token that is spent, when the clock shows `at`. */
  predicate IsJudged(r: Request, copy: Grant, at: Time, phase: Phase) {
    if IsExpired(copy, at) then phase == Done(Invalid)
    else if !(r.scopes <= copy.scopes) then phase == Done(ScopeExceeded)
    else IsFindingOut(phase)
  }

  /** The presented token is or was the refresh token of a grant of another client or resource. */
  ghost predicate IsForeign(store: Store, r: Request) {
    exists id :: 0 <= id < |store.grants| && !BelongsTo(store.grants[id], r) &&
                 (store.grants[id].refreshHash == Some(r.hash) || Spent(id, r.hash) in store.history)
  }

  ghost predicate Concerns(store: Store, r: Request, fate: Fate) {
    match fate
    case Outrun => IsRevokedUnspent(store, r)
    case Foreign => IsForeign(store, r)
    case _ => IsSpent(store, r)
  }

  /** The phases that a request of this fate goes through. */
  ghost predicate Suits(fate: Fate, r: Request, phase: Phase, now: Time) {
    match fate
    case Replayed => IsFindingOut(phase)
    case TooLate => phase == ReadCurrent || phase == Done(Invalid)
    case Outrun => phase.LookUp? || phase == ReadCurrent || phase.Mint? || phase.Rotate? || phase == Done(Invalid)
    case Foreign =>
      || phase == LookUp(false) || (phase.ReadSpent? && !phase.second)
      || phase == ReadCurrent || phase == Done(Invalid)
    case HasRead(copy, since) =>
      since <= now && ((phase.Check? && phase.copy == copy) || WasJudged(r, copy, since, now, phase))
  }

  ghost predicate WasJudged(r: Request, copy: Grant, since: Time, now: Time, phase: Phase) {
    exists at :: since <= at <= now && IsJudged(r, copy, at, phase)
  }

  ghost predicate Fated(s: System, sid: nat, r: Request, fate: Fate) {
    && sid in s.sessions && s.sessions[sid].Refresh? && s.sessions[sid].request == r
    && Concerns(s.store, r, fate) && Suits(fate, r, s.sessions[sid].phase, s.now)
  }

  lemma {:induction false} ConcernStays(a: Store, b: Store, r: Request, fate: Fate)
    requires Evolves(a, b) && Concerns(a, r, fate)
    ensures Concerns(b, r, fate)
  {
  }

  lemma {:induction false} SuitsLater(fate: Fate, r: Request, phase: Phase, now: Time, later: Time)
    requires Suits(fate, r, phase, now) && now <= later
    ensures Suits(fate, r, phase, later)
  {
    hide IsJudged;
  }

  lemma {:induction false} FateStays(s: System, e: Event, sid: nat, r: Request, fate: Fate)
    requires Inv(s) && Enabled(s, e) && Fated(s, sid, r, fate)
    ensures Fated(Next(s, e), sid, r, fate)
    ensures fate != Replayed && !fate.HasRead? && e.Statement? && e.sid == sid ==> Next(s, e).store == s.store
  {
    NextKeeps(s, e);
    ConcernStays(s.store, Next(s, e).store, r, fate);
    if e.Statement? && e.sid == sid {
      FateAdvances(s, sid, r, fate, e.access, e.refresh);
    } else {
      SuitsLater(fate, r, s.sessions[sid].phase, s.now, Next(s, e).now);
    }
  }

  lemma {:induction false} FateAdvances(s: System, sid: nat, r: Request, fate: Fate, access: Hash, refresh: Hash)
    requires Inv(s) && Enabled(s, Statement(sid, access, refresh)) && Fated(s, sid, r, fate)
    ensures var (store, phase) := Advance(s.store, s.now, r, s.sessions[sid].phase, access, refresh);
            && Suits(fate, r, phase, s.now)
            && (fate != Replayed && !fate.HasRead? ==> store == s.store)
  {
    var phase := s.sessions[sid].phase;
    assert Remembers(s.store, s.sessions[sid], s.gap);
    var (_, next) := Advance(s.store, s.now, r, phase, access, refresh);
    if fate.HasRead? {
      if phase.Check? {
        assert IsJudged(r, fate.copy, s.now, next);
      } else {
        var at :| fate.since <= at <= s.now && IsJudged(r, fate.copy, at, phase);
        assert IsJudged(r, fate.copy, at, next);
      }
    }
  }

  lemma {:induction false} FateLasts(s: System, events: seq<Event>, t: System, sid: nat, r: Request, fate: Fate)
    requires Inv(s) && Leads(s, events, t) && Fated(s, sid, r, fate)
    ensures Inv(t) && Fated(t, sid, r, fate)
    decreases |events|
  {
    if events != [] {
      NextKeeps(s, events[0]);
      FateStays(s, events[0], sid, r, fate);
      FateLasts(Next(s, events[0]), events[1..], t, sid, r, fate);
    }
  }

  predicate IsAnswered(s: System, sid: nat) {
    sid in s.sessions && s.sessions[sid].Refresh? && s.sessions[sid].phase.Done?
  }

  lemma {:induction false} SessionsRemember(s: System, sid: nat)
    requires Inv(s) && sid in s.sessions
    ensures Remembers(s.store, s.sessions[sid], s.gap)
  {
  }

  /**
    * What a request whose token is spent is answered, by where it is and by
    * what the clock shows when it checks its copy.
    */
  function ReplayAnswer(r: Request, phase: Phase, at: Time): Outcome {
    match phase
    case ReadCurrent => Invalid
    case Check(_, copy) =>
      if IsExpired(copy, at) then Invalid else if !(r.scopes <= copy.scopes) then ScopeExceeded else Reused
    case _ => Reused
  }

  /**
    * A replay, wherever it is when its token is spent. It is answered `Reused`,
    * with the grant revoked, but in three cases: it has missed the token in the
    * history and not read the row yet, or the row it has read is refused for its
    * expiry or for its scopes.
    */
  lemma {:induction false} ReplayIsAnswered(s: System, events: seq<Event>, t: System, sid: nat)
    requires Reachable(s) && Leads(s, events, t)
    requires sid in s.sessions && s.sessions[sid].Refresh? && IsSpent(s.store, s.sessions[sid].request)
    requires !s.sessions[sid].phase.Done?
    requires IsAnswered(t, sid)
    ensures var Refresh(r, phase) := s.sessions[sid];
            exists at :: s.now <= at <= t.now && t.sessions[sid].phase.outcome == ReplayAnswer(r, phase, at)
    ensures t.sessions[sid].phase.outcome == Reused ==> IsSpentAndRevoked(t.store, s.sessions[sid].request)
  {
    hide Inv, Leads, Evolves, Reachable;
    ReachableKeeps(s);
    RunKeeps(s, events, t);
    var Refresh(r, phase) := s.sessions[sid];
    var fate := match phase
      case ReadCurrent => TooLate
      case Check(_, copy) => HasRead(copy, s.now)
      case _ => Replayed;
    FateLasts(s, events, t, sid, r, fate);
    SessionsRemember(t, sid);
    if fate.HasRead? {
      var at :| fate.since <= at <= t.now && IsJudged(r, fate.copy, at, t.sessions[sid].phase);
      assert t.sessions[sid].phase.outcome == ReplayAnswer(r, phase, at);
    } else {
      assert t.sessions[sid].phase.outcome == ReplayAnswer(r, phase, s.now);
    }
  }

  /** So only the copy, the scopes asked for and the clock decide between the answers to one that has read the row. */
  lemma {:induction false} ReplayAfterRead(s: System, events: seq<Event>, t: System, sid: nat)
    requires Reachable(s) && Leads(s, events, t)
    requires sid in s.sessions && s.sessions[sid].Refresh? && IsSpent(s.store, s.sessions[sid].request)
    requires s.sessions[sid].phase.Check?
    requires IsAnswered(t, sid)
    ensures var Refresh(r, phase) := s.sessions[sid];
            var outcome := t.sessions[sid].phase.outcome;
            && (IsExpired(phase.copy, s.now) ==> outcome == Invalid)
            && (!IsExpired(phase.copy, t.now) ==>
                  outcome == if r.scopes <= phase.copy.scopes then Reused else ScopeExceeded)
            && (outcome == Invalid ==> IsExpired(phase.copy, t.now))
            && (outcome == Reused ==> IsSpentAndRevoked(t.store, r))
  {
    ReplayIsAnswered(s, events, t, sid);
  }

  /** A request that loses to a plain revocation is answered `Invalid`, and its token never enters the history. */
  lemma {:induction false} LosesToRevocation(s: System, events: seq<Event>, t: System, sid: nat)
    requires Reachable(s) && Leads(s, events, t)
    requires sid in s.sessions && s.sessions[sid].Refresh? && s.sessions[sid].phase.Rotate?
    requires IsRevokedUnspent(s.store, s.sessions[sid].request)
    requires IsAnswered(t, sid)
    ensures t.sessions[sid].phase.outcome == Invalid
    ensures forall row :: row in t.store.history ==> row.hash != s.sessions[sid].request.hash
  {
    ReachableKeeps(s);
    FateLasts(s, events, t, sid, s.sessions[sid].request, Outrun);
  }

  /** A request for another client or resource is answered `Invalid`. */
  lemma {:induction false} ForeignIsInvalid(s: System, events: seq<Event>, t: System, sid: nat)
    requires Reachable(s) && Leads(s, events, t)
    requires sid in s.sessions && s.sessions[sid].Refresh? && s.sessions[sid].phase == LookUp(false)
    requires IsForeign(s.store, s.sessions[sid].request)
    requires IsAnswered(t, sid)
    ensures t.sessions[sid].phase.outcome == Invalid
  {
    ReachableKeeps(s);
    FateLasts(s, events, t, sid, s.sessions[sid].request, Foreign);
  }

  /** ... and none of its statements writes. */
  lemma {:induction false} ForeignWritesNothing(s: System, events: seq<Event>, t: System, sid: nat, access: Hash,
                                                refresh: Hash)
    requires Reachable(s) && Leads(s, events, t)
    requires sid in s.sessions && s.sessions[sid].Refresh? && s.sessions[sid].phase == LookUp(false)
    requires IsForeign(s.store, s.sessions[sid].request)
    requires Enabled(t, Statement(sid, access, refresh))
    ensures Next(t, Statement(sid, access, refresh)).store == t.store
  {
    ReachableKeeps(s);
    FateLasts(s, events, t, sid, s.sessions[sid].request, Foreign);
    FateStays(t, Statement(sid, access, refresh), sid, s.sessions[sid].request, Foreign);
  }

  // ----- The window is real

  lemma {:induction false} LeadsExtends(s: System, events: seq<Event>, t: System, e: Event)
    requires Leads(s, events, t) && Enabled(t, e)
    ensures Leads(s, events + [e], Next(t, e))
    decreases |events|
  {
    if events == [] {
      assert Leads(Next(t, e), [], Next(t, e));
      assert ([] + [e])[1..] == [];
    } else {
      LeadsExtends(Next(s, events[0]), events[1..], t, e);
      assert (events + [e])[1..] == events[1..] + [e];
    }
  }

  lemma {:induction false} ReachesNext(s: System, e: Event)
    requires Reachable(s) && Enabled(s, e)
    ensures Reachable(Next(s, e))
  {
    var events :| Leads(EMPTY, events, s);
    LeadsExtends(EMPTY, events, s, e);
  }

  /** One statement of request `sid`, whose effect is known. */
  lemma {:induction false} Runs(s: System, sid: nat, access: Hash, refresh: Hash, store: Store, phase: Phase)
    returns (t: System)
    requires Reachable(s) && Enabled(s, Statement(sid, access, refresh))
    requires Advance(s.store, s.now, s.sessions[sid].request, s.sessions[sid].phase, access, refresh) == (store, phase)
    ensures Reachable(t) && t.store == store && t.now == s.now
    ensures t.sessions == s.sessions[sid := Refresh(s.sessions[sid].request, phase)]
  {
    ReachesNext(s, Statement(sid, access, refresh));
    t := Next(s, Statement(sid, access, refresh));
  }

  /** Both requests present the token of one grant. The second asks for the scopes in `wanted`. */
  function Presented(wanted: set<string>): Request {
    Request(2, 7, "gateway", wanted)
  }

  function TheGrant(): Grant {
    NewGrant(0, 7, "gateway", {}, 1, Some(2))
  }

  function Before(): Store {
    Store([TheGrant()], [], {1, 2})
  }

  function After(): Store {
    Store([TheGrant().(accessHash := 3, expiresAt := ACCESS_TTL, refreshHash := Some(4))], [Spent(0, 2)], {1, 2, 3, 4})
  }

  /** The token was exchanged by the first request and presented by the second, and no grant is revoked. */
  ghost predicate GoesUnpunished(s: System, outcome: Outcome) {
    && Reachable(s) && IsAnswered(s, 0) && IsAnswered(s, 1)
    && s.sessions[0].request.hash == s.sessions[1].request.hash
    && s.sessions[0].request.clientId == s.sessions[1].request.clientId
    && s.sessions[0].request.resource == s.sessions[1].request.resource
    && HasRotated(s.sessions[0]) && s.sessions[1].phase == Done(outcome)
    && forall g :: g in s.store.grants ==> g.revokedAt.None?
  }

  /** The second request misses the token in the history before the exchange and reads the row after it. */
  lemma {:induction false} ReplayInTheWindow() returns (s: System)
    ensures GoesUnpunished(s, Invalid) && s.sessions[0].request == s.sessions[1].request
  {
    hide Reachable, Advance;
    s := WindowOpens({});
    WindowStatements({}, 0);
    s := Runs(s, 1, 3, 4, Before(), ReadCurrent);
    s := FirstRotates(s);
    s := Runs(s, 1, 5, 6, After(), Done(Invalid));
  }

  /** The second request reads the row before the exchange, and checks its copy when the refresh token has expired. */
  lemma {:induction false} ReplayPastTheExpiry() returns (s: System)
    ensures GoesUnpunished(s, Invalid) && s.sessions[0].request == s.sessions[1].request
  {
    hide Reachable, Advance;
    s := WindowOpens({});
    WindowStatements({}, REFRESH_TTL);
    WindowStatements({}, 0);
    s := Runs(s, 1, 3, 4, Before(), ReadCurrent);
    s := Runs(s, 1, 3, 4, Before(), Check(0, TheGrant()));
    s := FirstRotates(s);
    ReachesNext(s, Tick(REFRESH_TTL));
    s := Next(s, Tick(REFRESH_TTL));
    s := Runs(s, 1, 5, 6, After(), Done(Invalid));
  }

  /** The second request reads the row before the exchange, and asks for more than the grant holds. */
  lemma {:induction false} ReplayForMoreScopes() returns (s: System)
    ensures GoesUnpunished(s, ScopeExceeded)
  {
    hide Reachable, Advance;
    s := WindowOpens({MANAGE});
    WindowStatements({MANAGE}, 0);
    s := Runs(s, 1, 3, 4, Before(), ReadCurrent);
    s := Runs(s, 1, 3, 4, Before(), Check(0, TheGrant()));
    s := FirstRotates(s);
    s := Runs(s, 1, 5, 6, After(), Done(ScopeExceeded));
  }

  lemma {:induction false} WindowOpens(wanted: set<string>) returns (s: System)
    ensures Reachable(s) && s.store == Before() && s.now == 0
    ensures s.sessions == map[0 := Refresh(Presented({}), LookUp(false)),
                              1 := Refresh(Presented(wanted), LookUp(false))]
  {
    assert Leads(EMPTY, [], EMPTY);
    ReachesNext(EMPTY, Create(7, "gateway", {}, 1, Some(2)));
    s := Next(EMPTY, Create(7, "gateway", {}, 1, Some(2)));
    ReachesNext(s, Open(0, Presented({})));
    s := Next(s, Open(0, Presented({})));
    ReachesNext(s, Open(1, Presented(wanted)));
    s := Next(s, Open(1, Presented(wanted)));
  }

  /** The first request runs from its start to its answer. */
  lemma {:induction false} FirstRotates(s: System) returns (t: System)
    requires Reachable(s) && s.store == Before() && s.now == 0
    requires 0 in s.sessions && s.sessions[0] == Refresh(Presented({}), LookUp(false))
    ensures Reachable(t) && t.store == After() && t.now == 0
    ensures t.sessions == s.sessions[0 := Refresh(Presented({}), Done(Rotated(3, 4)))]
  {
    hide Reachable, Advance;
    WindowStatements({}, 0);
    t := Runs(s, 0, 3, 4, Before(), ReadCurrent);
    t := Runs(t, 0, 3, 4, Before(), Check(0, TheGrant()));
    t := Runs(t, 0, 3, 4, Before(), Mint(0, 0));
    t := Runs(t, 0, 3, 4, Before(), Rotate(0, ACCESS_TTL));
    t := Runs(t, 0, 3, 4, After(), Done(Rotated(3, 4)));
  }

  lemma {:induction false} WindowStatements(wanted: set<string>, now: Time)
    ensures var r := Presented(wanted);
            && Advance(Before(), now, r, LookUp(false), 3, 4) == (Before(), ReadCurrent)
            && Advance(Before(), now, r, ReadCurrent, 3, 4) == (Before(), Check(0, TheGrant()))
            && Advance(Before(), now, r, Check(0, TheGrant()), 3, 4) == (Before(), Checked(r, 0, TheGrant(), now))
            && Advance(Before(), now, r, Mint(0, 0), 3, 4) == (Before(), Rotate(0, now + ACCESS_TTL))
            && Advance(Before(), now, r, Rotate(0, ACCESS_TTL), 3, 4) == (After(), Done(Rotated(3, 4)))
            && Advance(After(), now, r, ReadCurrent, 5, 6) == (After(), Done(Invalid))
            && Advance(After(), now, r, Check(0, TheGrant()), 5, 6) == (After(), Checked(r, 0, TheGrant(), now))
  {
    var r := Presented(wanted);
    assert FindCurrent(Before().grants, r, 0) == Some(0);
    assert FindCurrent(After().grants, r, 0) == None;
    var next := Exchanged(Before(), 2, 0, ACCESS_TTL, 3, 4).value;
    assert next.grants == After().grants && next.history == After().history && next.issued == After().issued;
  }

  // ----- One request without interruption

  /** `rotate_oauth_grant` from a statement on, with no other request in between. */
  function Alone(store: Store, now: Time, r: Request, phase: Phase, access: Hash, refresh: Hash): (Store, Outcome)
    requires phase.RevokeSpent? ==> phase.id < |store.grants|
    decreases Rank(phase)
  {
    if phase.Done? then (store, phase.outcome)
    else
      var (next, after) := Advance(store, now, r, phase, access, refresh);
      Alone(next, now, r, after, access, refresh)
  }

  lemma {:induction false} AloneNext(store: Store, now: Time, r: Request, phase: Phase, access: Hash, refresh: Hash)
    requires phase.RevokeSpent? ==> phase.id < |store.grants|
    ensures Alone(store, now, r, phase, access, refresh) ==
            if phase.Done? then (store, phase.outcome)
            else
              var (next, after) := Advance(store, now, r, phase, access, refresh);
              Alone(next, now, r, after, access, refresh)
  {
  }

  /** What the request alone does once the token is not found in the history. */
  lemma {:induction false} AloneFromRead(store: Store, now: Time, r: Request, access: Hash, refresh: Hash)
    ensures Alone(store, now, r, ReadCurrent, access, refresh) ==
            match FindCurrent(store.grants, r, 0)
            case None => (store, Invalid)
            case Some(id) =>
              var phase := Checked(r, id, store.grants[id], now);
              if phase.Done? then (store, phase.outcome)
              else (Exchanged(store, r.hash, id, now + ACCESS_TTL, access, refresh).value, Rotated(access, refresh))
  {
    AloneNext(store, now, r, ReadCurrent, access, refresh);
    match FindCurrent(store.grants, r, 0)
    case None => AloneNext(store, now, r, Done(Invalid), access, refresh);
    case Some(id) =>
      AloneNext(store, now, r, Check(id, store.grants[id]), access, refresh);
      var phase := Checked(r, id, store.grants[id], now);
      AloneNext(store, now, r, phase, access, refresh);
      if !phase.Done? {
        AloneNext(store, now, r, Rotate(id, now + ACCESS_TTL), access, refresh);
        var next := Exchanged(store, r.hash, id, now + ACCESS_TTL, access, refresh).value;
        AloneNext(next, now, r, Done(Rotated(access, refresh)), access, refresh);
      }
  }

  /** What the request alone does with the history. */
  lemma {:induction false} AloneFromLookUp(store: Store, now: Time, r: Request, second: bool, access: Hash,
                                           refresh: Hash)
    ensures Alone(store, now, r, LookUp(second), access, refresh) ==
            match FindSpent(store.history, r.hash)
            case None => Alone(store, now, r, NotReused(second), access, refresh)
            case Some(id) =>
              if id >= |store.grants| || !BelongsTo(store.grants[id], r) then
                Alone(store, now, r, NotReused(second), access, refresh)
              else (if store.grants[id].revokedAt.Some? then store else Revoked(store, id, now), Reused)
  {
    AloneNext(store, now, r, LookUp(second), access, refresh);
    match FindSpent(store.history, r.hash)
    case None =>
    case Some(id) =>
      AloneNext(store, now, r, ReadSpent(second, id), access, refresh);
      if id < |store.grants| && BelongsTo(store.grants[id], r) {
        if store.grants[id].revokedAt.Some? {
          AloneNext(store, now, r, Done(Reused), access, refresh);
        } else {
          AloneNext(store, now, r, RevokeSpent(id), access, refresh);
          AloneNext(Revoked(store, id, now), now, r, Done(Reused), access, refresh);
        }
      }
  }

  /** What a request alone is answered, and what it leaves behind. */
  lemma {:induction false} AnswerAlone(store: Store, now: Time, r: Request, access: Hash, refresh: Hash)
    requires TokensApart(store)
    ensures var (next, outcome) := Alone(store, now, r, LookUp(false), access, refresh);
            match FindCurrent(store.grants, r, 0)
            case None =>
              if IsSpent(store, r) then
                outcome == Reused && IsSpentAndRevoked(next, r) && next.history == store.history &&
                  |next.grants| == |store.grants|
              else
                outcome == Invalid && next == store
            case Some(id) =>
              var g := store.grants[id];
              if g.refreshExpiresAt.None? || g.refreshExpiresAt.value <= now then outcome == Invalid && next == store
              else if !(r.scopes <= g.scopes) then outcome == ScopeExceeded && next == store
              else outcome == Rotated(access, refresh)
                   && next.grants == store.grants[id := g.(accessHash := access, expiresAt := now + ACCESS_TTL,
                                                           refreshHash := Some(refresh))]
                   && next.history == store.history + [Spent(id, r.hash)]
  {
    AloneFromLookUp(store, now, r, false, access, refresh);
    AloneFromRead(store, now, r, access, refresh);
    if FindSpent(store.history, r.hash).Some? {
      var row := Spent(FindSpent(store.history, r.hash).value, r.hash);
      assert row in store.history;
      assert row in Alone(store, now, r, LookUp(false), access, refresh).0.history;
    }
  }

  /** The two tables in place. `issued` is only there to say which hashes are new. */
  class Database {
    var grants: seq<Grant>
    var history: seq<Spent>
    ghost var issued: set<Hash>

    ghost function View(): Store
      reads this
    {
      Store(grants, history, issued)
    }

    method SelectSpent(hash: Hash) returns (id: Option<nat>)
      ensures id == FindSpent(history, hash)
    {
      var i := 0;
      while i < |history|
        invariant i <= |history|
        invariant FindSpent(history, hash) == FindSpent(history[i..], hash)
      {
        assert history[i..][1..] == history[i + 1..];
        if history[i].hash == hash {
          return Some(history[i].grant);
        }
        i := i + 1;
      }
      return None;
    }

    method SelectCurrent(r: Request) returns (id: Option<nat>)
      ensures id == FindCurrent(grants, r, 0)
    {
      var i := 0;
      while i < |grants|
        invariant i <= |grants|
        invariant FindCurrent(grants, r, 0) == FindCurrent(grants, r, i)
      {
        if IsCurrent(grants[i], r) {
          return Some(i);
        }
        i := i + 1;
      }
      return None;
    }

    method Revoke(id: nat, now: Time)
      requires id < |grants|
      modifies this
      ensures View() == Revoked(old(View()), id, now)
    {
      grants := grants[id := grants[id].(revokedAt := Some(now))];
    }

    /** The transaction of `rotate_oauth_grant`. */
    method Exchange(hash: Hash, id: nat, expiresAt: Time, access: Hash, refresh: Hash) returns (rotated: bool)
      modifies this
      ensures rotated == Exchanged(old(View()), hash, id, expiresAt, access, refresh).Some?
      ensures View() ==
              if rotated then Exchanged(old(View()), hash, id, expiresAt, access, refresh).value else old(View())
    {
      rotated := id < |grants| && grants[id].refreshHash == Some(hash) && grants[id].revokedAt.None?;
      if rotated {
        grants := grants[id := grants[id].(accessHash := access, expiresAt := expiresAt, refreshHash := Some(refresh))];
        history := history + [Spent(id, hash)];
        issued := issued + {access, refresh};
      }
    }

    /** `revoke_oauth_grant_for_refresh_reuse`: whether the token was spent, its grant now being revoked. */
    method RevokeForReuse(r: Request, now: Time, ghost second: bool, ghost access: Hash, ghost refresh: Hash)
      returns (reused: bool)
      modifies this
      ensures reused ==> Alone(old(View()), now, r, LookUp(second), access, refresh) == (View(), Reused)
      ensures !reused ==> View() == old(View())
      ensures !reused ==> Alone(old(View()), now, r, LookUp(second), access, refresh) ==
                          Alone(View(), now, r, NotReused(second), access, refresh)
    {
      var found := SelectSpent(r.hash);
      AloneFromLookUp(View(), now, r, second, access, refresh);
      if found == None {
        return false;
      }
      var id := found.value;
      if id >= |grants| || !BelongsTo(grants[id], r) {
        return false;
      }
      if grants[id].revokedAt.None? {
        Revoke(id, now);
      }
      return true;
    }

    /** `rotate_oauth_grant`, while no other request has its turn. */
    method RotateGrant(r: Request, now: Time, access: Hash, refresh: Hash) returns (outcome: Outcome)
      modifies this
      ensures (View(), outcome) == Alone(old(View()), now, r, LookUp(false), access, refresh)
    {
      var reused := RevokeForReuse(r, now, false, access, refresh);
      if reused {
        return Reused;
      }
      AloneFromRead(View(), now, r, access, refresh);
      var found := SelectCurrent(r);
      if found == None {
        return Invalid;
      }
      var id, current := found.value, grants[found.value];
      if current.refreshExpiresAt.None? || current.refreshExpiresAt.value <= now {
        return Invalid;
      }
      if !(r.scopes <= current.scopes) {
        return ScopeExceeded;
      }
      var rotated := Exchange(r.hash, id, now + ACCESS_TTL, access, refresh);
      // With no other request in between, the update finds the row just read.
      assert rotated;
      return Rotated(access, refresh);
    }
  }
}
