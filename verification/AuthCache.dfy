/** The sharded cache of authentication results: entries live for a fixed time, a full shard gives up its oldest
    entry, and the agents' secrets are looked up behind it. */
module AuthCache {
  import opened ByteText
  import opened Wrappers

  const SHARD_NUM: nat := 16
  const UINT32: nat := 0x1_0000_0000

  type Secret = Bytes

  datatype Entry = Entry(clientID: nat, expireTime: int)

  /** The flat view: the last set of a secret, as id and time. */
  datatype Binding = Binding(clientID: nat, at: int)

  type Shard = map<Secret, Entry>

  // ---------- Shards ----------

  function HashStep(hash: nat, b: byte): nat {
    (hash * 31 + b as nat) % UINT32
  }

  function Hash(key: Secret): (r: nat)
    ensures r < UINT32
  {
    if key == [] then 0 else HashStep(Hash(key[..|key| - 1]), key[|key| - 1])
  }

  function ShardOf(key: Secret): (r: nat)
    ensures r < SHARD_NUM
  {
    Hash(key) % SHARD_NUM
  }

  /** The key's bytes with alternating signs, the last one positive. */
  function AlternatingSum(key: Secret): int {
    if key == [] then 0 else key[|key| - 1] as int - AlternatingSum(key[..|key| - 1])
  }

  lemma HashStepModulo(hash: nat, b: byte, sum: int)
    requires hash % 16 == sum % 16
    ensures HashStep(hash, b) % 16 == (b as int - sum) % 16
  {
    var x := hash * 31 + b as nat;
    assert x == x / UINT32 * UINT32 + x % UINT32;
    var k := hash / 16 - sum / 16;
    assert hash == sum + 16 * k;
    assert HashStep(hash, b) == b as int - sum + 16 * (2 * sum + 31 * k - x / UINT32 * 0x1000_0000);
    SameModulo(HashStep(hash, b), b as int - sum, 2 * sum + 31 * k - x / UINT32 * 0x1000_0000);
  }

  lemma SameModulo(a: int, b: int, k: int)
    requires a == b + 16 * k
    ensures a % 16 == b % 16
  {
  }

  /** Wrapping at 32 bits does not matter for the shard: it is the alternating sum of the bytes modulo 16. */
  lemma {:induction false} ShardIsAlternatingSum(key: Secret)
    ensures ShardOf(key) == AlternatingSum(key) % SHARD_NUM
  {
    if key != [] {
      ShardIsAlternatingSum(key[..|key| - 1]);
      HashStepModulo(Hash(key[..|key| - 1]), key[|key| - 1], AlternatingSum(key[..|key| - 1]));
    }
  }

  method GetShard(key: Secret) returns (index: nat)
    ensures index == ShardOf(key)
  {
    var hash := 0;
    for i := 0 to |key|
      invariant hash == Hash(key[..i])
    {
      assert key[..i + 1][..i] == key[..i];
      hash := (hash * 31 + key[i] as nat) % UINT32;
    }
    assert key[..|key|] == key;
    index := hash % SHARD_NUM;
  }

  /** The entry that expires first. */
  method OldestKey(shard: Shard) returns (oldest: Option<Secret>)
    ensures oldest.None? <==> shard == map[]
    ensures oldest.Some? ==> oldest.value in shard
    ensures oldest.Some? ==> forall k :: k in shard ==> shard[oldest.value].expireTime <= shard[k].expireTime
  {
    oldest := None;
    var rest := shard.Keys;
    while rest != {}
      invariant rest <= shard.Keys
      invariant oldest.None? ==> rest == shard.Keys
      invariant oldest.Some? ==> oldest.value in shard
      invariant oldest.Some? ==>
                  forall k :: k in shard && k !in rest ==> shard[oldest.value].expireTime <= shard[k].expireTime
      decreases |rest|
    {
      var k :| k in rest;
      if oldest.None? || shard[k].expireTime < shard[oldest.value].expireTime {
        oldest := Some(k);
      }
      rest := rest - {k};
    }
  }

  // ---------- The flat view ----------

  /** The shards, and beside them the last set of every secret since its last invalidate or the last clear, the
      secrets that have had to make room since, and the latest time seen. */
  datatype View = View(shards: seq<Shard>, latest: map<Secret, Binding>, evicted: set<Secret>, clock: int)

  /** A shard holds a secret's last set, and holds it unless it expired or had to make room. */
  ghost predicate Refined(v: View, home: Secret -> nat, ttl: nat, k: Secret) {
    && home(k) < |v.shards|
    && (forall i :: 0 <= i < |v.shards| && k in v.shards[i] ==> i == home(k))
    && (k in v.shards[home(k)] ==>
          && k != [] && k in v.latest && k !in v.evicted
          && v.shards[home(k)][k] == Entry(v.latest[k].clientID, v.latest[k].at + ttl))
    && (k in v.latest && k !in v.evicted && k !in v.shards[home(k)] ==> v.latest[k].at + ttl < v.clock)
  }

  ghost predicate AllRefined(v: View, home: Secret -> nat, ttl: nat) {
    forall k :: Refined(v, home, ttl, k)
  }

  /** The flat TTL map's answer. */
  ghost function Flat(v: View, ttl: nat, k: Secret, now: int): Option<nat> {
    if k in v.latest && k !in v.evicted && now <= v.latest[k].at + ttl then Some(v.latest[k].clientID) else None
  }

  ghost function Later(v: View, now: int): View {
    v.(clock := now)
  }

  ghost function AfterSet(v: View, home: nat, shard: Shard, victims: set<Secret>, k: Secret, id: nat, ttl: nat,
                          now: int): View
    requires home < |v.shards|
  {
    View(v.shards[home := shard], v.latest[k := Binding(id, now)], v.evicted + victims - {k}, now)
  }

  ghost function AfterInvalidate(v: View, home: nat, k: Secret): View
    requires home < |v.shards|
  {
    View(v.shards[home := v.shards[home] - {k}], v.latest - {k}, v.evicted, v.clock)
  }

  lemma RefinedLater(v: View, home: Secret -> nat, ttl: nat, now: int)
    requires AllRefined(v, home, ttl) && v.clock <= now
    ensures AllRefined(Later(v, now), home, ttl)
  {
    forall k
      ensures Refined(Later(v, now), home, ttl, k)
    {
      assert Refined(v, home, ttl, k);
    }
  }

  lemma RefinedAfterSet(v: View, home: Secret -> nat, ttl: nat, shard: Shard, victims: set<Secret>, k: Secret, id: nat,
                        now: int)
    requires AllRefined(v, home, ttl) && v.clock <= now && k != [] && home(k) < |v.shards|
    requires shard == (v.shards[home(k)] - victims)[k := Entry(id, now + ttl)] && victims <= v.shards[home(k)].Keys
    ensures AllRefined(AfterSet(v, home(k), shard, victims, k, id, ttl, now), home, ttl)
  {
    var w := AfterSet(v, home(k), shard, victims, k, id, ttl, now);
    forall x
      ensures Refined(w, home, ttl, x)
    {
      assert Refined(v, home, ttl, x);
    }
  }

  lemma RefinedAfterInvalidate(v: View, home: Secret -> nat, ttl: nat, k: Secret)
    requires AllRefined(v, home, ttl) && home(k) < |v.shards|
    ensures AllRefined(AfterInvalidate(v, home(k), k), home, ttl)
  {
    var w := AfterInvalidate(v, home(k), k);
    forall x
      ensures Refined(w, home, ttl, x)
    {
      assert Refined(v, home, ttl, x);
    }
  }

  /** A shard without its expired entries. */
  function Unexpired(shard: Shard, now: int): Shard {
    map k | k in shard && !(now > shard[k].expireTime) :: shard[k]
  }

  lemma RefinedAfterCleanup(v: View, home: Secret -> nat, ttl: nat, now: int, shards: seq<Shard>)
    requires AllRefined(v, home, ttl) && v.clock <= now && |shards| == |v.shards|
    requires forall i :: 0 <= i < |shards| ==> shards[i] == Unexpired(v.shards[i], now)
    ensures AllRefined(v.(shards := shards, clock := now), home, ttl)
  {
    var w := v.(shards := shards, clock := now);
    forall x
      ensures Refined(w, home, ttl, x)
    {
      assert Refined(v, home, ttl, x);
    }
  }

  lemma RefinedWhenEmpty(shards: seq<Shard>, evicted: set<Secret>, clock: int, home: Secret -> nat, ttl: nat)
    requires forall i :: 0 <= i < |shards| ==> shards[i] == map[]
    requires forall k :: home(k) < |shards|
    ensures AllRefined(View(shards, map[], evicted, clock), home, ttl)
  {
    var w := View(shards, map[], evicted, clock);
    forall x
      ensures Refined(w, home, ttl, x)
    {
    }
  }

  ghost predicate WithinSize(shards: seq<Shard>, cap: nat) {
    |shards| == SHARD_NUM && forall i :: 0 <= i < SHARD_NUM ==> |shards[i]| <= cap
  }

  lemma WithinSizeAfter(shards: seq<Shard>, cap: nat, i: nat, shard: Shard)
    requires WithinSize(shards, cap) && i < |shards| && |shard| <= cap
    ensures WithinSize(shards[i := shard], cap)
  {
  }

  /** A shard's size after one entry was added, one having been removed first when it was full. */
  lemma SizeAfterSet(shard: Shard, cap: nat, victims: set<Secret>, k: Secret, e: Entry)
    requires |shard| <= cap && victims <= shard.Keys && (|shard| == cap ==> |victims| >= 1)
    ensures |(shard - victims)[k := e]| <= cap
  {
    assert shard.Keys == (shard - victims).Keys + victims;
    assert (shard - victims)[k := e].Keys == (shard - victims).Keys + {k};
  }

  lemma SizeOfPart(part: Shard, shard: Shard)
    requires part.Keys <= shard.Keys
    ensures |part| <= |shard|
  {
    assert shard.Keys == part.Keys + (shard.Keys - part.Keys);
  }

  /** A full shard gives up one entry, the one that expires first; otherwise nothing is given up. */
  ghost predicate MakesRoom(shard: Shard, cap: nat, victims: set<Secret>) {
    && victims <= shard.Keys && |victims| == (if |shard| >= cap then 1 else 0)
    && forall v, k :: v in victims && k in shard ==> shard[v].expireTime <= shard[k].expireTime
  }

  /** What makes room is the secret of the shard whose last set is the longest ago. */
  lemma VictimWasSetFirst(v: View, home: Secret -> nat, ttl: nat, i: nat, cap: nat, victims: set<Secret>)
    requires AllRefined(v, home, ttl) && i < |v.shards| && MakesRoom(v.shards[i], cap, victims)
    ensures forall x, k :: x in victims && k in v.shards[i] ==>
              x in v.latest && k in v.latest && v.latest[x].at <= v.latest[k].at
    ensures victims == {} <==> |v.shards[i]| < cap
  {
    forall x, k | x in victims && k in v.shards[i]
      ensures x in v.latest && k in v.latest && v.latest[x].at <= v.latest[k].at
    {
      assert Refined(v, home, ttl, x) && Refined(v, home, ttl, k);
    }
  }

  method Insert(shard: Shard, maxSizePerShard: nat, k: Secret, entry: Entry)
    returns (after: Shard, ghost victims: set<Secret>)
    requires |shard| <= maxSizePerShard && maxSizePerShard > 0
    ensures MakesRoom(shard, maxSizePerShard, victims)
    ensures after == (shard - victims)[k := entry] && |after| <= maxSizePerShard
  {
    after, victims := shard, {};
    if |shard| >= maxSizePerShard {
      var oldest := OldestKey(shard);
      assert oldest.Some?;
      after, victims := shard - {oldest.value}, {oldest.value};
    }
    SizeAfterSet(shard, maxSizePerShard, victims, k, entry);
    after := after[k := entry];
  }

  // ---------- The cache ----------

  class Cache {
    var shards: seq<Shard>
    const maxSize: nat
    const ttl: nat
    ghost var latest: map<Secret, Binding>
    ghost var evicted: set<Secret>
    ghost var clock: int

    /** The cap of one shard. */
    function PerShard(): (n: nat) {
      if maxSize / SHARD_NUM < 10 then 10 else maxSize / SHARD_NUM
    }

    ghost function Now(): View
      reads this
    {
      View(shards, latest, evicted, clock)
    }

    ghost predicate Valid()
      reads this
    {
      WithinSize(shards, PerShard()) && AllRefined(Now(), ShardOf, ttl)
    }

    /** No shard holds more than ten entries, or more than a sixteenth of the cache's size. */
    lemma ShardsAreBounded(i: nat)
      requires Valid() && i < |shards|
      ensures |shards| == 16 && (|shards[i]| <= 10 || 16 * |shards[i]| <= maxSize)
    {
    }

    constructor (maxSize: nat, ttl: nat, ghost now: int)
      ensures Valid() && this.maxSize == maxSize && this.ttl == ttl
      ensures latest == map[] && evicted == {} && clock == now
    {
      this.maxSize, this.ttl := maxSize, ttl;
      shards := seq(SHARD_NUM, _ => map[]);
      latest, evicted, clock := map[], {}, now;
      new;
      RefinedWhenEmpty(shards, evicted, clock, ShardOf, ttl);
    }

    /** A hit is the id of the secret's last set, made at most ttl ago and not invalidated or cleared since; a miss
        means that there is none, or that it had to make room. */
    method Get(clientSecret: Secret, now: int) returns (clientID: Option<nat>)
      requires Valid() && clock <= now
      modifies this`clock
      ensures Valid() && clock == now
      ensures clientID == Flat(Now(), ttl, clientSecret, now)
    {
      var i := GetShard(clientSecret);
      assert Refined(Now(), ShardOf, ttl, clientSecret);
      RefinedLater(Now(), ShardOf, ttl, now);
      var shard := shards[i];
      if clientSecret !in shard {
        clientID := None;
      } else if now > shard[clientSecret].expireTime {
        clientID := None;
      } else {
        clientID := Some(shard[clientSecret].clientID);
      }
      clock := now;
    }

    /** Only a full shard evicts, and what it gives up is what it would have forgotten first. */
    method Set(clientSecret: Secret, clientID: nat, now: int) returns (ghost victims: set<Secret>)
      requires Valid() && clock <= now && clientSecret != []
      modifies this
      ensures Valid() && clock == now
      ensures latest == old(latest)[clientSecret := Binding(clientID, now)]
      ensures evicted == old(evicted) + victims - {clientSecret}
      ensures MakesRoom(old(shards[ShardOf(clientSecret)]), PerShard(), victims)
    {
      var i := GetShard(clientSecret);
      var shard;
      shard, victims := Insert(shards[i], PerShard(), clientSecret, Entry(clientID, now + ttl));
      ghost var next := AfterSet(Now(), i, shard, victims, clientSecret, clientID, ttl, now);
      assert AllRefined(next, ShardOf, ttl) by {
        RefinedAfterSet(Now(), ShardOf, ttl, shard, victims, clientSecret, clientID, now);
      }
      WithinSizeAfter(shards, PerShard(), i, shard);
      shards := shards[i := shard];
      latest, evicted, clock := next.latest, next.evicted, now;
      assert Now() == next;
    }

    method Invalidate(clientSecret: Secret)
      requires Valid()
      modifies this
      ensures Valid() && clock == old(clock)
      ensures latest == old(latest) - {clientSecret} && evicted == old(evicted)
    {
      var i := GetShard(clientSecret);
      RefinedAfterInvalidate(Now(), ShardOf, ttl, clientSecret);
      SizeOfPart(shards[i] - {clientSecret}, shards[i]);
      shards := shards[i := shards[i] - {clientSecret}];
      latest := latest - {clientSecret};
    }

    method Clear()
      requires Valid()
      modifies this
      ensures Valid() && clock == old(clock) && latest == map[]
    {
      for i := 0 to |shards|
        invariant |shards| == SHARD_NUM && clock == old(clock)
        invariant forall j :: 0 <= j < i ==> shards[j] == map[]
      {
        shards := shards[i := map[]];
      }
      latest := map[];
      RefinedWhenEmpty(shards, evicted, clock, ShardOf, ttl);
    }

    /** One round of cleanupExpired: the answers stay the same. */
    method CleanupExpired(now: int)
      requires Valid() && clock <= now
      modifies this
      ensures Valid() && clock == now && latest == old(latest) && evicted == old(evicted)
      ensures forall k, i :: 0 <= i < |shards| && k in shards[i] ==> now <= shards[i][k].expireTime
    {
      ghost var before := Now();
      for i := 0 to |shards|
        invariant |shards| == SHARD_NUM && Now() == before.(shards := shards)
        invariant forall j :: 0 <= j < i ==> shards[j] == Unexpired(before.shards[j], now)
        invariant forall j :: i <= j < SHARD_NUM ==> shards[j] == before.shards[j]
      {
        shards := shards[i := Unexpired(shards[i], now)];
      }
      forall j | 0 <= j < SHARD_NUM
        ensures |shards[j]| <= PerShard()
      {
        SizeOfPart(shards[j], before.shards[j]);
      }
      RefinedAfterCleanup(before, ShardOf, ttl, now, shards);
      clock := now;
    }
  }

  // ---------- Checking agents ----------

  /** SecretToID and the keys of ServerList. */
  datatype Registry = Registry(secretToID: map<Secret, nat>, servers: set<nat>)

  datatype Verdict = Accepted(clientID: nat) | Unauthenticated

  /** The server that a secret belongs to, if it is still listed. */
  function Owner(registry: Registry, secret: Secret): Option<nat> {
    if secret in registry.secretToID && registry.secretToID[secret] in registry.servers
    then Some(registry.secretToID[secret]) else None
  }

  /** Removing a server, or its secret, from the registry ends the ownership of the secret and of no other. */
  lemma RemovalEndsOwnership(registry: Registry, id: nat, secret: Secret, other: Secret)
    ensures Owner(Registry(registry.secretToID, registry.servers - {id}), secret) != Some(id)
    ensures Owner(Registry(registry.secretToID - {secret}, registry.servers), secret) == None
    ensures other != secret ==>
              Owner(Registry(registry.secretToID - {secret}, registry.servers), other) == Owner(registry, other)
    ensures id in registry.servers ==>
              Owner(Registry(registry.secretToID[secret := id], registry.servers), secret) == Some(id)
  {
  }

  /** history tells what the registry held at every time. */
  class AuthService {
    const cache: Cache
    ghost const history: int -> Registry

    ghost predicate Valid()
      reads cache
    {
      cache.Valid() && forall k :: k in cache.latest ==> Witnessed(k)
    }

    /** A cached binding held in the registry when it was cached. */
    ghost predicate Witnessed(k: Secret)
      reads cache
      requires k in cache.latest
    {
      && cache.latest[k].at <= cache.clock
      && Owner(history(cache.latest[k].at), k) == Some(cache.latest[k].clientID)
    }

    constructor (maxSize: nat, ttl: nat, ghost history: int -> Registry, ghost now: int)
      ensures Valid() && fresh(cache) && cache.ttl == ttl && cache.maxSize == maxSize && cache.clock == now
      ensures this.history == history && cache.latest == map[]
    {
      cache := new Cache(maxSize, ttl, now);
      this.history := history;
    }

    /** An agent is accepted under an id only if its secret belonged to that listed server at some time within ttl, and
        an agent whose secret belongs to a listed server now is never refused. A secret without an owner is accepted
        exactly while its last set is at most ttl old and it has not made room. The registry is read at time now. */
    method Check(metadata: Option<map<string, seq<Secret>>>, registry: Registry, now: int) returns (r: Verdict)
      requires Valid() && cache.clock <= now && registry == history(now)
      requires metadata.Some? && "client_secret" in metadata.value ==> |metadata.value["client_secret"]| > 0
      modifies cache
      ensures Valid() && cache.clock <= now
      ensures r.Unauthenticated? <==>
                (SecretOf(metadata) == [] ||
                  (Flat(old(cache.Now()), cache.ttl, SecretOf(metadata), now).None?
                    && Owner(registry, SecretOf(metadata)).None?))
      ensures r.Accepted? ==> exists t :: now - cache.ttl <= t <= now
                                && Owner(history(t), SecretOf(metadata)) == Some(r.clientID)
      ensures SecretOf(metadata) != [] && Owner(registry, SecretOf(metadata)).Some? ==> r.Accepted?
      ensures SecretOf(metadata) != [] && Owner(registry, SecretOf(metadata)).None? ==>
                (r.Accepted? <==>
                   && SecretOf(metadata) in old(cache.latest) && SecretOf(metadata) !in old(cache.evicted)
                   && now <= old(cache.latest)[SecretOf(metadata)].at + cache.ttl)
      ensures r.Accepted? ==> Flat(cache.Now(), cache.ttl, SecretOf(metadata), now) == Some(r.clientID)
      ensures var hit := Flat(old(cache.Now()), cache.ttl, SecretOf(metadata), now);
              if r.Accepted? && hit.None?
              then cache.latest == old(cache.latest)[SecretOf(metadata) := Binding(r.clientID, now)]
              else cache.latest == old(cache.latest) && cache.evicted == old(cache.evicted)
                   && (r.Accepted? ==> hit == Some(r.clientID))
    {
      if metadata.None? {
        return Unauthenticated;
      }
      var clientSecret: Secret := [];
      if "client_secret" in metadata.value {
        clientSecret := metadata.value["client_secret"][0];
      }
      if clientSecret == [] {
        return Unauthenticated;
      }
      var cached := cache.Get(clientSecret, now);
      if cached.Some? {
        assert Witnessed(clientSecret);
        return Accepted(cached.value);
      }
      if clientSecret !in registry.secretToID || registry.secretToID[clientSecret] !in registry.servers {
        return Unauthenticated;
      }
      var clientID := registry.secretToID[clientSecret];
      assert Owner(history(now), clientSecret) == Some(clientID);
      ghost var victims := cache.Set(clientSecret, clientID, now);
      return Accepted(clientID);
    }
  }

  /** An agent is accepted for the first time, its server is removed, and the agent comes back: it is accepted again if
      and only if no more than the time to live has passed. */
  method CheckAfterRemoval(service: AuthService, metadata: Option<map<string, seq<Secret>>>, listed: Registry, now: int,
                           removed: Registry, later: int) returns (first: Verdict, second: Verdict)
    requires service.Valid() && service.cache.clock <= now <= later
    requires listed == service.history(now) && removed == service.history(later)
    requires SecretOf(metadata) != [] && Flat(service.cache.Now(), service.cache.ttl, SecretOf(metadata), now).None?
    requires Owner(listed, SecretOf(metadata)).Some? && Owner(removed, SecretOf(metadata)).None?
    modifies service.cache
    ensures first == Accepted(Owner(listed, SecretOf(metadata)).value)
    ensures second == if later <= now + service.cache.ttl then first else Unauthenticated
  {
    first := service.Check(metadata, listed, now);
    second := service.Check(metadata, removed, later);
  }

  ghost function SecretOf(metadata: Option<map<string, seq<Secret>>>): Secret {
    if metadata.Some? && "client_secret" in metadata.value && |metadata.value["client_secret"]| > 0
    then metadata.value["client_secret"][0] else []
  }
}
