/** The per-replica cache of API-key validations, over every interleaving of calls on any number of replicas. */
module ApiKeyCache {
  import opened Options

  type KeyId = string
  type RouteId = string
  type FolderId = string
  type Hash = string

  const POSITIVE_TTL_MS := 30_000

  datatype Scope = Read | Full

  datatype KeyRow = KeyRow(hash: Hash, owner: RouteId, active: bool, scope: Scope, expires: Option<int>,
                           sharedRoutes: set<RouteId>, sharedFolders: set<FolderId>)

  datatype Database = Database(keys: map<KeyId, KeyRow>, folderOf: map<RouteId, FolderId>, epoch: Option<int>)

  /** A key covers the route it owns, the routes it is shared with, and the routes in the folders it is bound to. */
  predicate Covers(db: Database, row: KeyRow, route: RouteId) {
    || row.owner == route
    || route in row.sharedRoutes
    || (route in db.folderOf && db.folderOf[route] in row.sharedFolders)
  }

  predicate Unexpired(row: KeyRow, now: int) {
    row.expires.None? || row.expires.value > now
  }

  /** In `db`, key `id` with `scope` authorises `hash` on `route`, its expiry lying after `now`. */
  predicate Authorises(db: Database, route: RouteId, hash: Hash, now: int, id: KeyId, scope: Scope) {
    && id in db.keys
    && var row := db.keys[id];
       row.hash == hash && row.active && row.scope == scope && Unexpired(row, now) && Covers(db, row, route)
  }

  // ---------------------------------------------------------------------
  // One replica: the parts of each call that run without interruption.
  // ---------------------------------------------------------------------

  datatype Entry = Entry(id: KeyId, scope: Scope, cacheUntil: int)

  type Cache = map<(RouteId, Hash), Entry>

  datatype Found = Found(id: KeyId, scope: Scope, expires: Option<int>)

  function Lookup(cache: Cache, route: RouteId, hash: Hash, now: int): Option<Entry> {
    if (route, hash) in cache && cache[(route, hash)].cacheUntil > now then Some(cache[(route, hash)]) else None
  }

  function Ttl(found: Found, now: int): int {
    if found.expires.Some? && found.expires.value - now < POSITIVE_TTL_MS
    then found.expires.value - now else POSITIVE_TTL_MS
  }

  function Store(cache: Cache, route: RouteId, hash: Hash, now: int, found: Found): Cache {
    if Ttl(found, now) > 0 then cache[(route, hash) := Entry(found.id, found.scope, now + Ttl(found, now))] else cache
  }

  /**
   * A remembered key is hit for 30 seconds or until it expires, whichever is sooner, with its id and
   * scope; an expired one is not remembered, and no other entry is touched.
   */
  lemma RememberedUntil(cache: Cache, route: RouteId, hash: Hash, now: int, found: Found, t: int)
    ensures found.expires.Some? && found.expires.value <= now ==> Store(cache, route, hash, now, found) == cache
    ensures found.expires.None? || now < found.expires.value ==>
              var hit := Lookup(Store(cache, route, hash, now, found), route, hash, t);
              && (hit.Some? <==> t < now + 30_000 && (found.expires.None? || t < found.expires.value))
              && (hit.Some? ==> hit.value.id == found.id && hit.value.scope == found.scope)
    ensures forall other, h | (other, h) != (route, hash) ::
              Lookup(Store(cache, route, hash, now, found), other, h, t) == Lookup(cache, other, h, t)
  {
  }

  /** What a poll does with the epoch it read; the first epoch seen invalidates nothing. */
  function AfterPoll(cache: Cache, lastSeen: Option<int>, epoch: Option<int>): Cache {
    if lastSeen.Some? && epoch != lastSeen then map[] else cache
  }

  class Validator {
    var validCache: Cache
    var lastSeenEpoch: Option<int>

    constructor ()
      ensures validCache == map[] && lastSeenEpoch == None
    {
      validCache, lastSeenEpoch := map[], None;
    }

    method FromCache(route: RouteId, hash: Hash, now: int) returns (hit: Option<(KeyId, Scope)>)
      ensures hit.Some? <==> (route, hash) in validCache && now < validCache[(route, hash)].cacheUntil
      ensures hit.Some? ==> hit.value == (validCache[(route, hash)].id, validCache[(route, hash)].scope)
      ensures hit.Some? <==> Lookup(validCache, route, hash, now).Some?
    {
      hit := None;
      if (route, hash) in validCache {
        var cached := validCache[(route, hash)];
        if cached.cacheUntil > now { hit := Some((cached.id, cached.scope)); }
      }
    }

    method Remember(route: RouteId, hash: Hash, now: int, apiKey: Found)
      modifies this`validCache
      ensures validCache == Store(old(validCache), route, hash, now, apiKey)
    {
      var ttl := POSITIVE_TTL_MS;
      if apiKey.expires.Some? && apiKey.expires.value - now < ttl { ttl := apiKey.expires.value - now; }
      if ttl > 0 { validCache := validCache[(route, hash) := Entry(apiKey.id, apiKey.scope, now + ttl)]; }
    }

    method InvalidateCache()
      modifies this`validCache
      ensures validCache == map[]
    {
      validCache := map[];
    }

    method SeeEpoch(v: Option<int>)
      modifies this
      ensures old(lastSeenEpoch).Some? && v != old(lastSeenEpoch) ==> validCache == map[]
      ensures old(lastSeenEpoch).None? || v == old(lastSeenEpoch) ==> validCache == old(validCache)
      ensures lastSeenEpoch == v && validCache == AfterPoll(old(validCache), old(lastSeenEpoch), v)
    {
      if lastSeenEpoch.Some? && v != lastSeenEpoch { InvalidateCache(); }
      lastSeenEpoch := v;
    }
  }

  // ---------------------------------------------------------------------
  // All replicas: every order of the uninterrupted parts.
  // ---------------------------------------------------------------------

  /** A verification waiting for the database: started at `now`, asking for keys unexpired at `asked`. */
  datatype Call =
    | Asked(route: RouteId, hash: Hash, now: int, asked: int)
    | Answered(route: RouteId, hash: Hash, now: int, found: Option<Found>)

  datatype Replica = Replica(cache: Cache, lastSeen: Option<int>, calls: map<nat, Call>, polls: map<nat, Option<int>>)

  datatype System = System(clock: int, db: Database, replicas: map<nat, Replica>)

  datatype Step =
    | Tick(to: int)
    | Hit(r: nat, route: RouteId, hash: Hash)
    | Ask(r: nat, call: nat, route: RouteId, hash: Hash, asked: int)
    | Answer(r: nat, call: nat, key: Option<KeyId>)
    | Finish(r: nat, call: nat)
    | Invalidate(r: nat)
    | BumpEpoch(stamp: int)
    | PollRead(r: nat, poll: nat)
    | PollApply(r: nat, poll: nat)
    | CreateKey(id: KeyId, row: KeyRow)
    | Revoke(id: KeyId)
    | Delete(id: KeyId)
    | Reshare(id: KeyId, routes: set<RouteId>, folders: set<FolderId>)
    | MoveRoute(moved: RouteId, folder: Option<FolderId>)

  /** `id` is an answer of the database to the waiting query `c`. */
  predicate IsAnswer(db: Database, c: Call, id: Option<KeyId>)
    requires c.Asked?
  {
    match id
    case Some(k) => k in db.keys && Authorises(db, c.route, c.hash, c.asked, k, db.keys[k].scope)
    case None => forall k | k in db.keys :: !Authorises(db, c.route, c.hash, c.asked, k, db.keys[k].scope)
  }

  predicate Enabled(s: System, step: Step) {
    match step
    case Tick(to) => s.clock <= to
    case Hit(r, route, hash) => r in s.replicas && Lookup(s.replicas[r].cache, route, hash, s.clock).Some?
    case Ask(r, call, route, hash, asked) =>
      && r in s.replicas && call !in s.replicas[r].calls && s.clock <= asked
      && Lookup(s.replicas[r].cache, route, hash, s.clock).None?
    case Answer(r, call, id) =>
      && r in s.replicas && call in s.replicas[r].calls && s.replicas[r].calls[call].Asked?
      && IsAnswer(s.db, s.replicas[r].calls[call], id)
    case Finish(r, call) => r in s.replicas && call in s.replicas[r].calls && s.replicas[r].calls[call].Answered?
    case Invalidate(r) => r in s.replicas
    case BumpEpoch(stamp) => stamp <= s.clock
    case PollRead(r, poll) => r in s.replicas && poll !in s.replicas[r].polls
    case PollApply(r, poll) => r in s.replicas && poll in s.replicas[r].polls
    case CreateKey(id, _) => id !in s.db.keys
    case Revoke(id) => id in s.db.keys
    case Delete(id) => id in s.db.keys
    case Reshare(id, _, _) => id in s.db.keys
    case MoveRoute(_, _) => true
  }

  function WithReplica(s: System, r: nat, replica: Replica): System {
    s.(replicas := s.replicas[r := replica])
  }

  function Next(s: System, step: Step): System
    requires Enabled(s, step)
  {
    match step
    case Tick(to) => s.(clock := to)
    case Hit(_, _, _) => s
    case Ask(r, call, route, hash, asked) =>
      var replica := s.replicas[r];
      WithReplica(s, r, replica.(calls := replica.calls[call := Asked(route, hash, s.clock, asked)])).(clock := asked)
    case Answer(r, call, id) =>
      var replica := s.replicas[r];
      var c := replica.calls[call];
      var found := match id
                   case Some(k) => Some(Found(k, s.db.keys[k].scope, s.db.keys[k].expires))
                   case None => None;
      WithReplica(s, r, replica.(calls := replica.calls[call := Answered(c.route, c.hash, c.now, found)]))
    case Finish(r, call) =>
      var replica := s.replicas[r];
      var c := replica.calls[call];
      var cache := if c.found.Some? then Store(replica.cache, c.route, c.hash, c.now, c.found.value) else replica.cache;
      WithReplica(s, r, replica.(cache := cache, calls := replica.calls - {call}))
    case Invalidate(r) => WithReplica(s, r, s.replicas[r].(cache := map[]))
    case BumpEpoch(stamp) => s.(db := s.db.(epoch := Some(stamp)))
    case PollRead(r, poll) =>
      var replica := s.replicas[r];
      WithReplica(s, r, replica.(polls := replica.polls[poll := s.db.epoch]))
    case PollApply(r, poll) =>
      var replica := s.replicas[r];
      var v := replica.polls[poll];
      WithReplica(s, r, replica.(cache := AfterPoll(replica.cache, replica.lastSeen, v), lastSeen := v,
                                 polls := replica.polls - {poll}))
    case CreateKey(id, row) => s.(db := s.db.(keys := s.db.keys[id := row]))
    case Revoke(id) => s.(db := s.db.(keys := s.db.keys[id := s.db.keys[id].(active := false)]))
    case Delete(id) => s.(db := s.db.(keys := s.db.keys - {id}))
    case Reshare(id, routes, folders) =>
      s.(db := s.db.(keys := s.db.keys[id := s.db.keys[id].(sharedRoutes := routes, sharedFolders := folders)]))
    case MoveRoute(route, folder) =>
      s.(db := s.db.(folderOf :=
                       if folder.Some? then s.db.folderOf[route := folder.value] else s.db.folderOf - {route}))
  }

  predicate Init(s: System) {
    forall r | r in s.replicas :: s.replicas[r] == Replica(map[], None, map[], map[])
  }

  /** `run[i]` is the state before `steps[i]`; the run starts with empty caches and any database. */
  predicate IsRun(run: seq<System>, steps: seq<Step>) {
    && |run| == |steps| + 1 && Init(run[0])
    && forall i | 0 <= i < |steps| :: Enabled(run[i], steps[i]) && run[i + 1] == Next(run[i], steps[i])
  }

  // ---------------------------------------------------------------------
  // What the steps grant and withdraw.
  // ---------------------------------------------------------------------

  /** A verification hits the cache or asks the database, never both, and one of them at any time. */
  lemma VerifyHitsOrAsks(s: System, r: nat, call: nat, route: RouteId, hash: Hash)
    requires r in s.replicas && call !in s.replicas[r].calls
    ensures Enabled(s, Hit(r, route, hash)) <==> !Enabled(s, Ask(r, call, route, hash, s.clock))
  {
  }

  /** A new key opens the route it owns, from the start, as long as it is active and not expired. */
  lemma CreationGrants(s: System, id: KeyId, row: KeyRow, now: int)
    requires id !in s.db.keys && row.active
    ensures Enabled(s, CreateKey(id, row))
    ensures Authorises(Next(s, CreateKey(id, row)).db, row.owner, row.hash, now, id, row.scope)
            <==> row.expires.None? || now < row.expires.value
  {
  }

  /** Revoked or deleted, a key opens nothing, for no hash and at no time. */
  lemma RevocationWithdraws(s: System, id: KeyId, route: RouteId, hash: Hash, now: int, scope: Scope)
    requires id in s.db.keys
    ensures Enabled(s, Revoke(id)) && !Authorises(Next(s, Revoke(id)).db, route, hash, now, id, scope)
    ensures Enabled(s, Delete(id)) && !Authorises(Next(s, Delete(id)).db, route, hash, now, id, scope)
  {
  }

  /** A key reaches its own route whatever is shared, and other routes exactly by what is shared with it. */
  lemma SharingDecides(s: System, id: KeyId, route: RouteId, routes: set<RouteId>, folders: set<FolderId>)
    requires id in s.db.keys
    ensures Enabled(s, Reshare(id, routes, folders))
    ensures var db := Next(s, Reshare(id, routes, folders)).db;
            var owner := db.keys[id].owner;
            && (route == owner || route in routes ==> Covers(db, db.keys[id], route))
            && (route != owner && route !in routes && folders == {} ==> !Covers(db, db.keys[id], route))
            && (route != owner && routes == {} && route !in db.folderOf ==> !Covers(db, db.keys[id], route))
  {
  }

  /** Moving a route into a folder gives it to the keys bound to that folder, and takes it from all others. */
  lemma MovingDecides(s: System, id: KeyId, route: RouteId, folder: Option<FolderId>)
    requires id in s.db.keys && s.db.keys[id].owner != route && route !in s.db.keys[id].sharedRoutes
    ensures Enabled(s, MoveRoute(route, folder))
    ensures var db := Next(s, MoveRoute(route, folder)).db;
            Covers(db, db.keys[id], route) <==> folder.Some? && folder.value in s.db.keys[id].sharedFolders
  {
  }

  // ---------------------------------------------------------------------
  // What every cached entry and pending answer rests on.
  // ---------------------------------------------------------------------

  /** In state `s` the database authorised what `e` says, up to the end of `e`, at most a TTL before that end. */
  predicate Backs(s: System, route: RouteId, hash: Hash, e: Entry) {
    && Authorises(s.db, route, hash, e.cacheUntil - 1, e.id, e.scope)
    && e.cacheUntil <= s.clock + POSITIVE_TTL_MS
  }

  /** In state `s` the database held the row that was found, after the call had started. */
  predicate BacksAnswer(s: System, c: Call)
    requires c.Answered? && c.found.Some?
  {
    var f := c.found.value;
    && Authorises(s.db, c.route, c.hash, c.now, f.id, f.scope)
    && s.db.keys[f.id].expires == f.expires
    && c.now <= s.clock
  }

  predicate CallBacked(run: seq<System>, i: nat, c: Call)
    requires i < |run|
  {
    match c
    case Asked(_, _, now, asked) => now <= asked <= run[i].clock
    case Answered(_, _, _, found) => found.Some? ==> exists j | 0 <= j <= i :: BacksAnswer(run[j], c)
  }

  predicate EntryBacked(run: seq<System>, i: nat, route: RouteId, hash: Hash, e: Entry)
    requires i < |run|
  {
    exists j | 0 <= j <= i :: Backs(run[j], route, hash, e)
  }

  predicate CacheBacked(run: seq<System>, i: nat, cache: Cache)
    requires i < |run|
  {
    forall k | k in cache :: EntryBacked(run, i, k.0, k.1, cache[k])
  }

  predicate CallsBacked(run: seq<System>, i: nat, calls: map<nat, Call>)
    requires i < |run|
  {
    forall k | k in calls :: CallBacked(run, i, calls[k])
  }

  predicate AllBacked(run: seq<System>, i: nat)
    requires i < |run|
  {
    forall r | r in run[i].replicas ::
      CacheBacked(run, i, run[i].replicas[r].cache) && CallsBacked(run, i, run[i].replicas[r].calls)
  }

  lemma BackedLater(run: seq<System>, steps: seq<Step>, i: nat, replica: Replica)
    requires IsRun(run, steps) && i < |steps|
    requires CacheBacked(run, i, replica.cache) && CallsBacked(run, i, replica.calls)
    ensures CacheBacked(run, i + 1, replica.cache) && CallsBacked(run, i + 1, replica.calls)
  {
    forall k | k in replica.cache ensures EntryBacked(run, i + 1, k.0, k.1, replica.cache[k]) {
      assert EntryBacked(run, i, k.0, k.1, replica.cache[k]);
    }
    assert run[i].clock <= run[i + 1].clock;
    forall k | k in replica.calls ensures CallBacked(run, i + 1, replica.calls[k]) {
      assert CallBacked(run, i, replica.calls[k]);
    }
  }

  /** Storing an answer caches an entry that the answered row backs. */
  lemma StoreBacked(run: seq<System>, i: nat, c: Call, cache: Cache)
    requires i < |run| && c.Answered? && c.found.Some?
    requires CallBacked(run, i, c) && CacheBacked(run, i, cache)
    ensures CacheBacked(run, i, Store(cache, c.route, c.hash, c.now, c.found.value))
  {
    var f := c.found.value;
    var ttl := Ttl(f, c.now);
    if ttl > 0 {
      var e := Entry(f.id, f.scope, c.now + ttl);
      var j :| 0 <= j <= i && BacksAnswer(run[j], c);
      assert Backs(run[j], c.route, c.hash, e);
      assert EntryBacked(run, i, c.route, c.hash, e);
    }
  }

  lemma StepBacked(run: seq<System>, steps: seq<Step>, i: nat)
    requires IsRun(run, steps) && i < |steps| && AllBacked(run, i)
    ensures AllBacked(run, i + 1)
  {
    var s, s', step := run[i], run[i + 1], steps[i];
    assert Enabled(s, step) && s' == Next(s, step);
    forall r | r in s'.replicas
      ensures CacheBacked(run, i + 1, s'.replicas[r].cache) && CallsBacked(run, i + 1, s'.replicas[r].calls)
    {
      BackedLater(run, steps, i, s.replicas[r]);
      if s'.replicas[r] != s.replicas[r] { ReplicaStepBacked(run, steps, i, r); }
    }
  }

  lemma ReplicaStepBacked(run: seq<System>, steps: seq<Step>, i: nat, r: nat)
    requires IsRun(run, steps) && i < |steps| && r in run[i].replicas
    requires run[i + 1].replicas.Keys == run[i].replicas.Keys && run[i + 1].replicas[r] != run[i].replicas[r]
    requires CacheBacked(run, i + 1, run[i].replicas[r].cache) && CallsBacked(run, i + 1, run[i].replicas[r].calls)
    ensures CacheBacked(run, i + 1, run[i + 1].replicas[r].cache)
            && CallsBacked(run, i + 1, run[i + 1].replicas[r].calls)
  {
    var s, step := run[i], steps[i];
    assert Enabled(s, step) && run[i + 1] == Next(s, step);
    var before, after := s.replicas[r], run[i + 1].replicas[r];
    match step
    case Answer(_, call, id) =>
      if id.Some? {
        assert CallBacked(run, i + 1, before.calls[call]);
        assert BacksAnswer(run[i], after.calls[call]);
      }
    case Finish(_, call) =>
      assert CallBacked(run, i + 1, before.calls[call]);
      if before.calls[call].found.Some? { StoreBacked(run, i + 1, before.calls[call], before.cache); }
    case _ =>
  }

  lemma {:induction false} RunBacked(run: seq<System>, steps: seq<Step>, i: nat)
    requires IsRun(run, steps) && i < |run|
    ensures AllBacked(run, i)
  {
    if i > 0 {
      RunBacked(run, steps, i - 1);
      StepBacked(run, steps, i - 1);
    }
  }

  lemma {:induction false} ClockAdvances(run: seq<System>, steps: seq<Step>, i: nat, j: nat)
    requires IsRun(run, steps) && i <= j < |run|
    ensures run[i].clock <= run[j].clock
  {
    if i < j {
      ClockAdvances(run, steps, i, j - 1);
      assert Enabled(run[j - 1], steps[j - 1]);
    }
  }

  // ---------------------------------------------------------------------
  // The theorems.
  // ---------------------------------------------------------------------

  /**
   * In every run, whatever a cache hit reports was authorised by the database at some moment of the
   * last 30 seconds, by a key whose expiry has not passed at the moment of the hit.
   */
  lemma HitIsRecentlyAuthorised(run: seq<System>, steps: seq<Step>, i: nat) returns (j: nat)
    requires IsRun(run, steps) && i < |steps| && steps[i].Hit?
    ensures var e := Lookup(run[i].replicas[steps[i].r].cache, steps[i].route, steps[i].hash, run[i].clock).value;
            && j <= i
            && run[i].clock - POSITIVE_TTL_MS < run[j].clock <= run[i].clock
            && Authorises(run[j].db, steps[i].route, steps[i].hash, run[i].clock, e.id, e.scope)
            && var row := run[j].db.keys[e.id];
               && row.active && row.hash == steps[i].hash && row.scope == e.scope
               && (row.expires.None? || run[i].clock < row.expires.value)
  {
    RunBacked(run, steps, i);
    assert Enabled(run[i], steps[i]);
    var route, hash, cache := steps[i].route, steps[i].hash, run[i].replicas[steps[i].r].cache;
    var e := cache[(route, hash)];
    assert EntryBacked(run, i, (route, hash).0, (route, hash).1, e);
    j :| 0 <= j <= i && Backs(run[j], route, hash, e);
    ClockAdvances(run, steps, j, i);
  }

  /** An answer read from the database was authorised there after the call had started. */
  lemma AnswerIsAuthorised(run: seq<System>, steps: seq<Step>, i: nat) returns (j: nat)
    requires IsRun(run, steps) && i < |steps| && steps[i].Finish?
    requires run[i].replicas[steps[i].r].calls[steps[i].call].found.Some?
    ensures var c := run[i].replicas[steps[i].r].calls[steps[i].call];
            && j <= i
            && c.now <= run[j].clock <= run[i].clock
            && Authorises(run[j].db, c.route, c.hash, c.now, c.found.value.id, c.found.value.scope)
  {
    RunBacked(run, steps, i);
    assert Enabled(run[i], steps[i]);
    var c := run[i].replicas[steps[i].r].calls[steps[i].call];
    assert CallBacked(run, i, c);
    j :| 0 <= j <= i && BacksAnswer(run[j], c);
    ClockAdvances(run, steps, j, i);
  }

  /** The key, if any, that the database authorises for `hash` on `route`. */
  ghost predicate Authorised(db: Database, route: RouteId, hash: Hash, now: int) {
    exists id, scope :: Authorises(db, route, hash, now, id, scope)
  }

  /**
   * Once a key is revoked, deleted, unshared or moved out of reach for good (from state `k` on), no
   * replica accepts it from its cache 30 seconds later, whatever invalidations were lost or raced.
   */
  lemma WithdrawnWithinTtl(run: seq<System>, steps: seq<Step>, k: nat, i: nat)
    requires IsRun(run, steps) && k <= i < |steps| && steps[i].Hit?
    requires forall j | k <= j <= i :: !Authorised(run[j].db, steps[i].route, steps[i].hash, run[j].clock)
    ensures run[i].clock < run[k].clock + POSITIVE_TTL_MS
  {
    var j := HitIsRecentlyAuthorised(run, steps, i);
    var e := Lookup(run[i].replicas[steps[i].r].cache, steps[i].route, steps[i].hash, run[i].clock).value;
    if j >= k {
      assert Authorises(run[j].db, steps[i].route, steps[i].hash, run[j].clock, e.id, e.scope);
      assert Authorised(run[j].db, steps[i].route, steps[i].hash, run[j].clock);
    } else {
      ClockAdvances(run, steps, j, k);
    }
  }

  // ---------------------------------------------------------------------
  // When a withdrawal is final.
  // ---------------------------------------------------------------------

  /** No key of `hash` reaches `route` any more, whatever its expiry. */
  predicate Withdrawn(db: Database, route: RouteId, hash: Hash) {
    forall id | id in db.keys :: !(db.keys[id].hash == hash && db.keys[id].active && Covers(db, db.keys[id], route))
  }

  /** A key is withdrawn exactly when the database authorises it at no time, past or future. */
  lemma WithdrawnIsNeverAuthorised(db: Database, route: RouteId, hash: Hash)
    ensures Withdrawn(db, route, hash) <==> forall now :: !Authorised(db, route, hash, now)
  {
    if !Withdrawn(db, route, hash) {
      var id :| id in db.keys && db.keys[id].hash == hash && db.keys[id].active && Covers(db, db.keys[id], route);
      var now := if db.keys[id].expires.Some? then db.keys[id].expires.value - 1 else 0;
      assert Authorises(db, route, hash, now, id, db.keys[id].scope);
      assert Authorised(db, route, hash, now);
    }
  }

  /** The time up to which an answer, once it is stored, can be hit. */
  function HitUntil(c: Call): int
    requires c.Answered? && c.found.Some?
  {
    c.now + Ttl(c.found.value, c.now)
  }

  predicate Spent(c: Call, route: RouteId, hash: Hash, now: int) {
    c.Answered? && c.found.Some? && c.route == route && c.hash == hash ==> HitUntil(c) <= now
  }

  /** No answer under way would still be stored alive. */
  predicate AnswersSpent(replica: Replica, route: RouteId, hash: Hash, now: int) {
    forall call | call in replica.calls :: Spent(replica.calls[call], route, hash, now)
  }

  /** The replica holds nothing that can still become a hit: no live entry, and no answer that would make one. */
  predicate Dormant(replica: Replica, route: RouteId, hash: Hash, now: int) {
    && Lookup(replica.cache, route, hash, now).None?
    && AnswersSpent(replica, route, hash, now)
  }

  /** `run` goes on from `s` by `steps`. */
  predicate Continues(s: System, run: seq<System>, steps: seq<Step>) {
    && |run| == |steps| + 1 && run[0] == s
    && forall i | 0 <= i < |steps| :: Enabled(run[i], steps[i]) && run[i + 1] == Next(run[i], steps[i])
  }

  /** The withdrawal lasts as long as the run. */
  predicate StaysWithdrawn(run: seq<System>, route: RouteId, hash: Hash) {
    forall i | 0 <= i < |run| :: Withdrawn(run[i].db, route, hash)
  }

  lemma StepKeepsDormant(s: System, step: Step, r: nat, route: RouteId, hash: Hash)
    requires Enabled(s, step) && r in s.replicas && Withdrawn(s.db, route, hash)
    requires Dormant(s.replicas[r], route, hash, s.clock)
    ensures r in Next(s, step).replicas && Dormant(Next(s, step).replicas[r], route, hash, Next(s, step).clock)
  {
    var replica, next := s.replicas[r], Next(s, step);
    var after := next.replicas[r];
    assert s.clock <= next.clock;
    forall call | call in after.calls
      ensures Spent(after.calls[call], route, hash, next.clock)
    {
      if call in replica.calls { assert Spent(replica.calls[call], route, hash, s.clock); }
    }
    if step.Finish? && step.r == r {
      assert Spent(replica.calls[step.call], route, hash, s.clock);
    }
  }

  lemma {:induction false} DormantForever(s: System, run: seq<System>, steps: seq<Step>, i: nat, r: nat,
                                          route: RouteId, hash: Hash)
    requires Continues(s, run, steps) && StaysWithdrawn(run, route, hash) && i < |run|
    requires r in s.replicas && Dormant(s.replicas[r], route, hash, s.clock)
    ensures r in run[i].replicas && Dormant(run[i].replicas[r], route, hash, run[i].clock)
  {
    if i > 0 {
      DormantForever(s, run, steps, i - 1, r, route, hash);
      StepKeepsDormant(run[i - 1], steps[i - 1], r, route, hash);
    }
  }

  /** From a state in which the replica holds nothing alive, a withdrawn key is never accepted from its cache again. */
  lemma DormantNeverHits(s: System, run: seq<System>, steps: seq<Step>, i: nat, r: nat, route: RouteId, hash: Hash)
    requires Continues(s, run, steps) && StaysWithdrawn(run, route, hash) && i < |steps|
    requires r in s.replicas && Dormant(s.replicas[r], route, hash, s.clock)
    ensures steps[i] != Hit(r, route, hash)
  {
    DormantForever(s, run, steps, i, r, route, hash);
    assert Enabled(run[i], steps[i]);
  }

  /** Some run from `s`, in which the key stays withdrawn, ends in a hit on replica `r`. */
  ghost predicate CanStillHit(s: System, r: nat, route: RouteId, hash: Hash) {
    exists run, steps :: EndsInHit(s, run, steps, r, route, hash)
  }

  predicate EndsInHit(s: System, run: seq<System>, steps: seq<Step>, r: nat, route: RouteId, hash: Hash) {
    && Continues(s, run, steps) && StaysWithdrawn(run, route, hash)
    && steps != [] && steps[|steps| - 1] == Hit(r, route, hash)
  }

  lemma HitAtOnce(s: System, r: nat, route: RouteId, hash: Hash)
    requires r in s.replicas && Withdrawn(s.db, route, hash)
    requires Lookup(s.replicas[r].cache, route, hash, s.clock).Some?
    ensures CanStillHit(s, r, route, hash)
  {
    assert EndsInHit(s, [s, s], [Hit(r, route, hash)], r, route, hash);
  }

  lemma HitAfterFinish(s: System, r: nat, call: nat, route: RouteId, hash: Hash)
    requires r in s.replicas && Withdrawn(s.db, route, hash)
    requires call in s.replicas[r].calls && !Spent(s.replicas[r].calls[call], route, hash, s.clock)
    requires s.replicas[r].calls[call].now <= s.clock
    ensures CanStillHit(s, r, route, hash)
  {
    var stored := Next(s, Finish(r, call));
    assert Lookup(stored.replicas[r].cache, route, hash, s.clock).Some?;
    assert EndsInHit(s, [s, stored, stored], [Finish(r, call), Hit(r, route, hash)], r, route, hash);
  }

  /** In every run, calls have started by the clock. */
  lemma {:induction false} CallsHaveStarted(run: seq<System>, steps: seq<Step>, i: nat, r: nat, call: nat)
    requires IsRun(run, steps) && i < |run| && r in run[i].replicas && call in run[i].replicas[r].calls
    ensures run[i].replicas[r].calls[call].now <= run[i].clock
  {
    if i > 0 {
      assert Enabled(run[i - 1], steps[i - 1]) && run[i] == Next(run[i - 1], steps[i - 1]);
      if call in run[i - 1].replicas[r].calls { CallsHaveStarted(run, steps, i - 1, r, call); }
    }
  }

  /**
   * In every state of every run in which a key is withdrawn: replica `r` can accept it again from its
   * cache, however things go on, exactly when it holds a live entry, or an answer read before the
   * withdrawal that would be stored alive. Polls matter only through the entries they drop.
   */
  lemma WithdrawalIsFinalIff(run: seq<System>, steps: seq<Step>, i: nat, r: nat, route: RouteId, hash: Hash)
    requires IsRun(run, steps) && i < |run| && r in run[i].replicas && Withdrawn(run[i].db, route, hash)
    ensures !CanStillHit(run[i], r, route, hash) <==> Dormant(run[i].replicas[r], route, hash, run[i].clock)
  {
    var s := run[i];
    if Dormant(s.replicas[r], route, hash, s.clock) {
      forall more, next | Continues(s, more, next) && StaysWithdrawn(more, route, hash)
        ensures !EndsInHit(s, more, next, r, route, hash)
      {
        if next != [] { DormantNeverHits(s, more, next, |next| - 1, r, route, hash); }
      }
    } else if Lookup(s.replicas[r].cache, route, hash, s.clock).Some? {
      HitAtOnce(s, r, route, hash);
    } else {
      var call :| call in s.replicas[r].calls && !Spent(s.replicas[r].calls[call], route, hash, s.clock);
      CallsHaveStarted(run, steps, i, r, call);
      HitAfterFinish(s, r, call, route, hash);
    }
  }

  /** The poll being applied read another epoch than the one seen before. */
  predicate SeesNewEpoch(replica: Replica, poll: nat)
    requires poll in replica.polls
  {
    replica.lastSeen.Some? && replica.polls[poll] != replica.lastSeen
  }

  /**
   * What a poll buys: a replica that applies a changed epoch, with no live answer under way, never
   * again accepts from its cache a key that stays withdrawn.
   */
  lemma ChangedEpochEndsAcceptance(s: System, run: seq<System>, steps: seq<Step>, i: nat, r: nat, poll: nat,
                                   route: RouteId, hash: Hash)
    requires Continues(s, run, steps) && StaysWithdrawn(run, route, hash) && 0 < i < |run|
    requires steps[0] == PollApply(r, poll) && Enabled(s, PollApply(r, poll)) && SeesNewEpoch(s.replicas[r], poll)
    requires AnswersSpent(s.replicas[r], route, hash, s.clock)
    ensures r in run[i].replicas && Dormant(run[i].replicas[r], route, hash, run[i].clock)
    ensures i < |steps| ==> steps[i] != Hit(r, route, hash)
  {
    var polled := Next(s, steps[0]);
    assert polled.replicas[r].cache == map[];
    assert Dormant(polled.replicas[r], route, hash, polled.clock);
    Shifted(s, run, steps);
    DormantForever(polled, run[1..], steps[1..], i - 1, r, route, hash);
    if i < |steps| { assert Enabled(run[i], steps[i]); }
  }

  /** A run goes on from its second state. */
  lemma Shifted(s: System, run: seq<System>, steps: seq<Step>)
    requires Continues(s, run, steps) && steps != []
    ensures Continues(Next(s, steps[0]), run[1..], steps[1..])
  {
    assert Enabled(run[0], steps[0]) && run[1] == Next(run[0], steps[0]);
    forall i | 0 <= i < |steps[1..]|
      ensures Enabled(run[1..][i], steps[1..][i]) && run[1..][i + 1] == Next(run[1..][i], steps[1..][i])
    {
      assert Enabled(run[i + 1], steps[i + 1]) && run[i + 2] == Next(run[i + 1], steps[i + 1]);
    }
  }

  /**
   * In every run, a poll makes a withdrawal final on its replica exactly when no live answer is under
   * way and either the epoch is another one than it had seen or there was no live entry to drop.
   */
  lemma PollIsFinalIff(run: seq<System>, steps: seq<Step>, i: nat, route: RouteId, hash: Hash)
    requires IsRun(run, steps) && i < |steps| && steps[i].PollApply? && Enabled(run[i], steps[i])
    requires Withdrawn(run[i].db, route, hash)
    ensures var r, before := steps[i].r, run[i].replicas[steps[i].r];
            !CanStillHit(run[i + 1], r, route, hash) <==>
            && AnswersSpent(before, route, hash, run[i].clock)
            && (SeesNewEpoch(before, steps[i].poll) || Lookup(before.cache, route, hash, run[i].clock).None?)
  {
    var r, s := steps[i].r, run[i];
    assert run[i + 1] == Next(s, steps[i]);
    assert run[i + 1].replicas[r].calls == s.replicas[r].calls;
    WithdrawalIsFinalIff(run, steps, i + 1, r, route, hash);
  }

  // ---------------------------------------------------------------------
  // Polling does not make revocation prompt.
  // ---------------------------------------------------------------------

  /** Any key, asked for on any route, and revoked at any time. */
  datatype Cast = Cast(key: KeyId, route: RouteId, hash: Hash, at: int)

  /** One replica and the one key. */
  function Scene(c: Cast, clock: int, active: bool, epoch: int, cache: Cache, lastSeen: Option<int>,
                 calls: map<nat, Call>, polls: map<nat, Option<int>>): System {
    System(clock, Database(map[c.key := KeyRow(c.hash, c.route, active, Full, None, {}, {})], map[], Some(epoch)),
           map[0 := Replica(cache, lastSeen, calls, polls)])
  }

  /** The replica between two calls, having seen `lastSeen`. */
  function Idle(c: Cast, clock: int, active: bool, epoch: int, cache: Cache, lastSeen: Option<int>): System {
    Scene(c, clock, active, epoch, cache, lastSeen, map[], map[])
  }

  function Held(c: Cast): Cache {
    map[(c.route, c.hash) := Entry(c.key, Full, c.at + POSITIVE_TTL_MS)]
  }

  /** The key is revoked in the database, and the replica still holds it, having seen the last epoch. */
  function Stale(c: Cast, clock: int): System {
    Idle(c, clock, false, c.at, Held(c), Some(c.at))
  }

  /** `steps` lead from `s` to `s'`. */
  predicate Leads(s: System, steps: seq<Step>, s': System)
    decreases |steps|
  {
    if steps == [] then s == s' else Enabled(s, steps[0]) && Leads(Next(s, steps[0]), steps[1..], s')
  }

  lemma OneStep(s: System, step: Step, s': System)
    requires Enabled(s, step) && Next(s, step) == s'
    ensures Leads(s, [step], s')
  {
    assert [step][1..] == [];
  }

  lemma {:induction false} LeadsOn(s: System, steps: seq<Step>, mid: System, more: seq<Step>, s': System)
    requires Leads(s, steps, mid) && Leads(mid, more, s')
    ensures Leads(s, steps + more, s')
    decreases |steps|
  {
    if steps == [] {
      assert steps + more == more;
    } else {
      LeadsOn(Next(s, steps[0]), steps[1..], mid, more, s');
      assert (steps + more)[1..] == steps[1..] + more;
    }
  }

  lemma {:induction false} RunOfSteps(s: System, steps: seq<Step>, s': System) returns (run: seq<System>)
    requires Leads(s, steps, s')
    ensures Continues(s, run, steps) && run[|steps|] == s'
    decreases |steps|
  {
    if steps == [] {
      run := [s];
    } else {
      var rest := RunOfSteps(Next(s, steps[0]), steps[1..], s');
      run := [s] + rest;
      assert forall i | 0 < i < |steps| :: steps[i] == steps[1..][i - 1];
    }
  }

  lemma JoinRuns(s: System, first: seq<System>, steps: seq<Step>, second: seq<System>, more: seq<Step>)
    returns (run: seq<System>)
    requires Continues(s, first, steps) && Continues(first[|steps|], second, more)
    ensures Continues(s, run, steps + more)
    ensures (forall i | 0 <= i <= |steps| :: run[i] == first[i]) && run[|steps + more|] == second[|more|]
  {
    run := first + second[1..];
    assert forall i | 0 <= i <= |more| :: run[|steps| + i] == second[i];
    forall i | 0 <= i < |steps + more|
      ensures Enabled(run[i], (steps + more)[i]) && run[i + 1] == Next(run[i], (steps + more)[i])
    {
      if i >= |steps| {
        var k := i - |steps|;
        assert run[i] == second[k] && run[i + 1] == second[k + 1] && (steps + more)[i] == more[k];
      }
    }
  }

  /** A poll reads the epoch and acts on it. */
  function Poll(): seq<Step> {
    [PollRead(0, 0)] + [PollApply(0, 0)]
  }

  /** A verification that asks the database and stores the answer. */
  function Verification(c: Cast): seq<Step> {
    [Ask(0, 0, c.route, c.hash, c.at)] + [Answer(0, 0, Some(c.key))] + [Finish(0, 0)]
  }

  /** A revocation invalidates, bumps the epoch and writes last; a poll and a verification come in between. */
  function Revocation(c: Cast): seq<Step> {
    [Invalidate(0)] + [BumpEpoch(c.at)] + (Poll() + (Verification(c) + [Revoke(c.key)]))
  }

  function Later(to: int): seq<Step> {
    [Tick(to)] + Poll()
  }

  /** A poll that finds the epoch it knows, or an empty cache, leaves the cache as it is. */
  lemma PollChangesNothing(c: Cast, clock: int, active: bool, epoch: int, cache: Cache, lastSeen: Option<int>)
    requires cache == map[] || lastSeen == Some(epoch)
    ensures Leads(Idle(c, clock, active, epoch, cache, lastSeen), Poll(),
                  Idle(c, clock, active, epoch, cache, Some(epoch)))
  {
    var s := Idle(c, clock, active, epoch, cache, lastSeen);
    var read := Scene(c, clock, active, epoch, cache, lastSeen, map[], map[0 := Some(epoch)]);
    var applied := Idle(c, clock, active, epoch, cache, Some(epoch));
    OneStep(s, PollRead(0, 0), read);
    assert map[0 := Some(epoch)] - {0} == map[];
    OneStep(read, PollApply(0, 0), applied);
    LeadsOn(s, [PollRead(0, 0)], read, [PollApply(0, 0)], applied);
  }

  lemma TimePasses(c: Cast, clock: int, to: int)
    requires clock <= to
    ensures Leads(Stale(c, clock), Later(to), Stale(c, to))
  {
    OneStep(Stale(c, clock), Tick(to), Stale(c, to));
    PollChangesNothing(c, to, false, c.at, Held(c), Some(c.at));
    LeadsOn(Stale(c, clock), [Tick(to)], Stale(c, to), Poll(), Stale(c, to));
  }

  lemma AskStep(c: Cast, s: System, asked: System)
    requires s == Idle(c, c.at, true, c.at, map[], Some(c.at))
    requires asked == Scene(c, c.at, true, c.at, map[], Some(c.at), map[0 := Asked(c.route, c.hash, c.at, c.at)], map[])
    ensures Leads(s, [Ask(0, 0, c.route, c.hash, c.at)], asked)
  {
    OneStep(s, Ask(0, 0, c.route, c.hash, c.at), asked);
  }

  lemma AnswerStep(c: Cast, asked: System, answered: System)
    requires asked == Scene(c, c.at, true, c.at, map[], Some(c.at), map[0 := Asked(c.route, c.hash, c.at, c.at)], map[])
    requires answered == Scene(c, c.at, true, c.at, map[], Some(c.at),
                               map[0 := Answered(c.route, c.hash, c.at, Some(Found(c.key, Full, None)))], map[])
    ensures Leads(asked, [Answer(0, 0, Some(c.key))], answered)
  {
    assert Authorises(asked.db, c.route, c.hash, c.at, c.key, Full);
    var calls := asked.replicas[0].calls[0 := Answered(c.route, c.hash, c.at, Some(Found(c.key, Full, None)))];
    assert calls == answered.replicas[0].calls;
    assert asked.replicas[0 := asked.replicas[0].(calls := calls)] == answered.replicas;
    OneStep(asked, Answer(0, 0, Some(c.key)), answered);
  }

  lemma FinishStep(c: Cast, answered: System, stored: System)
    requires answered == Scene(c, c.at, true, c.at, map[], Some(c.at),
                               map[0 := Answered(c.route, c.hash, c.at, Some(Found(c.key, Full, None)))], map[])
    requires stored == Idle(c, c.at, true, c.at, Held(c), Some(c.at))
    ensures Leads(answered, [Finish(0, 0)], stored)
  {
    var next := Next(answered, Finish(0, 0)).replicas[0];
    assert next.calls == map[] && next.cache == Held(c);
    OneStep(answered, Finish(0, 0), stored);
  }

  lemma VerificationCaches(c: Cast)
    ensures Leads(Idle(c, c.at, true, c.at, map[], Some(c.at)), Verification(c),
                  Idle(c, c.at, true, c.at, Held(c), Some(c.at)))
  {
    var s, stored := Idle(c, c.at, true, c.at, map[], Some(c.at)), Idle(c, c.at, true, c.at, Held(c), Some(c.at));
    var asked := Scene(c, c.at, true, c.at, map[], Some(c.at), map[0 := Asked(c.route, c.hash, c.at, c.at)], map[]);
    var answered := Scene(c, c.at, true, c.at, map[], Some(c.at),
                          map[0 := Answered(c.route, c.hash, c.at, Some(Found(c.key, Full, None)))], map[]);
    AskStep(c, s, asked);
    AnswerStep(c, asked, answered);
    FinishStep(c, answered, stored);
    LeadsOn(s, [Ask(0, 0, c.route, c.hash, c.at)], asked, [Answer(0, 0, Some(c.key))], answered);
    LeadsOn(s, [Ask(0, 0, c.route, c.hash, c.at)] + [Answer(0, 0, Some(c.key))], answered, [Finish(0, 0)], stored);
  }

  lemma RevocationBegins(c: Cast)
    ensures Leads(Idle(c, c.at, true, c.at - 1, map[], Some(c.at - 1)), [Invalidate(0)] + [BumpEpoch(c.at)],
                  Idle(c, c.at, true, c.at, map[], Some(c.at - 1)))
  {
    var s, bumped := Idle(c, c.at, true, c.at - 1, map[], Some(c.at - 1)),
        Idle(c, c.at, true, c.at, map[], Some(c.at - 1));
    OneStep(s, Invalidate(0), s);
    OneStep(s, BumpEpoch(c.at), bumped);
    LeadsOn(s, [Invalidate(0)], s, [BumpEpoch(c.at)], bumped);
  }

  lemma RevokeStep(c: Cast, s: System)
    requires s == Idle(c, c.at, true, c.at, Held(c), Some(c.at))
    ensures Leads(s, [Revoke(c.key)], Stale(c, c.at))
  {
    OneStep(s, Revoke(c.key), Stale(c, c.at));
  }

  lemma RevocationLeavesEntry(c: Cast)
    ensures Leads(Idle(c, c.at, true, c.at - 1, map[], Some(c.at - 1)), Revocation(c), Stale(c, c.at))
  {
    var s, bumped := Idle(c, c.at, true, c.at - 1, map[], Some(c.at - 1)),
        Idle(c, c.at, true, c.at, map[], Some(c.at - 1));
    var polled, stored := Idle(c, c.at, true, c.at, map[], Some(c.at)), Idle(c, c.at, true, c.at, Held(c), Some(c.at));
    RevocationBegins(c);
    PollChangesNothing(c, c.at, true, c.at, map[], Some(c.at - 1));
    VerificationCaches(c);
    RevokeStep(c, stored);
    LeadsOn(polled, Verification(c), stored, [Revoke(c.key)], Stale(c, c.at));
    LeadsOn(bumped, Poll(), polled, Verification(c) + [Revoke(c.key)], Stale(c, c.at));
    LeadsOn(s, [Invalidate(0)] + [BumpEpoch(c.at)], bumped, Poll() + (Verification(c) + [Revoke(c.key)]),
            Stale(c, c.at));
  }

  /** The clock and the polls after the write: a poll at least every ten seconds. */
  function AfterTheWrite(c: Cast): seq<Step> {
    Later(c.at + 10_000) + (Later(c.at + 20_000) + Later(c.at + 29_999))
  }

  lemma EntrySurvivesPolls(c: Cast)
    ensures Leads(Stale(c, c.at), AfterTheWrite(c), Stale(c, c.at + 29_999))
  {
    TimePasses(c, c.at, c.at + 10_000);
    TimePasses(c, c.at + 10_000, c.at + 20_000);
    TimePasses(c, c.at + 20_000, c.at + 29_999);
    LeadsOn(Stale(c, c.at + 10_000), Later(c.at + 20_000), Stale(c, c.at + 20_000), Later(c.at + 29_999),
            Stale(c, c.at + 29_999));
    LeadsOn(Stale(c, c.at), Later(c.at + 10_000), Stale(c, c.at + 10_000),
            Later(c.at + 20_000) + Later(c.at + 29_999), Stale(c, c.at + 29_999));
  }

  /** A replica with an empty cache that has polled the epoch once. */
  lemma FirstPoll(c: Cast)
    ensures Init(Idle(c, c.at, true, c.at - 1, map[], None))
    ensures Leads(Idle(c, c.at, true, c.at - 1, map[], None), Poll(),
                  Idle(c, c.at, true, c.at - 1, map[], Some(c.at - 1)))
  {
    PollChangesNothing(c, c.at, true, c.at - 1, map[], None);
  }

  /**
   * A key is accepted 29,999 ms after its revocation was written, by a replica that polls the epoch
   * before the write, after it, and at least every ten seconds: whatever the key and the time.
   */
  lemma PollsCanMissARevocation(c: Cast) returns (run: seq<System>)
    ensures var before := Poll() + Revocation(c);
            var steps := before + AfterTheWrite(c);
            && IsRun(run, steps)
            && run[|before|] == Stale(c, c.at) && Withdrawn(run[|before|].db, c.route, c.hash)
            && run[|steps|].clock == run[|before|].clock + POSITIVE_TTL_MS - 1
            && Enabled(run[|steps|], Hit(0, c.route, c.hash))
  {
    var start, seen := Idle(c, c.at, true, c.at - 1, map[], None), Idle(c, c.at, true, c.at - 1, map[], Some(c.at - 1));
    FirstPoll(c);
    RevocationLeavesEntry(c);
    LeadsOn(start, Poll(), seen, Revocation(c), Stale(c, c.at));
    EntrySurvivesPolls(c);
    var first := RunOfSteps(start, Poll() + Revocation(c), Stale(c, c.at));
    var second := RunOfSteps(Stale(c, c.at), AfterTheWrite(c), Stale(c, c.at + 29_999));
    run := JoinRuns(start, first, Poll() + Revocation(c), second, AfterTheWrite(c));
  }
}
