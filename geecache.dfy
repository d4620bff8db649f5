/**
 * The cache group of geecache.go: a named, byte-bounded local cache in front
 * of a user-supplied getter, optionally backed by peers, and the global
 * registry of groups by name. Concurrency is left out: the loader's
 * one-call-per-key guarantee is a direct call here.
 */
module GeeCache {
  import opened Types
  import Lru

  /** The error `Group.Get` returns for the empty key. */
  const KeyRequired := "key is required"

  /** `Getter`: loads the value of a key from the data source. */
  type Getter = string -> Result<Bytes>

  /** The request a group sends to a peer: which group and which key. */
  datatype Request = Request(group: string, key: string)

  /** `PeerGetter`: a handle on one peer, named by the base URL of its HTTP endpoint. */
  datatype PeerGetter = HttpGetter(baseURL: string)

  /** A call a group makes to a collaborator: its getter, or a peer's fetch. */
  datatype Call = GetterCall(key: string) | PeerCall(peer: PeerGetter, request: Request)

  /** `PeerPicker.PickPeer`: the peer that owns a key, or none when the key is owned here. */
  type PeerPicker = string -> Option<PeerGetter>

  /** `PeerGetter.Get`: one network round trip to a peer. */
  type Transport = (PeerGetter, Request) -> Result<Bytes>

  class Group {
    const name: string
    const getter: Getter
    const cacheBytes: int
    const mainCache: Lru.Cache
    var peers: Option<PeerPicker>
    /** The calls made to the getter and to peers, in order. */
    ghost var calls: seq<Call>

    /** The local cache is a well-formed LRU cache bounded by cacheBytes, with no eviction callback. */
    ghost predicate Valid()
      reads this, mainCache
    {
      mainCache.Valid() && mainCache.maxBytes == cacheBytes && !mainCache.hasOnEvicted
    }

    constructor (name: string, cacheBytes: int, getter: Getter)
      requires cacheBytes >= 0
      ensures Valid() && fresh(mainCache)
      ensures this.name == name && this.cacheBytes == cacheBytes && this.getter == getter
      ensures peers.None? && calls == [] && mainCache.ll == [] && mainCache.cache == map[]
    {
      this.name := name;
      this.getter := getter;
      this.cacheBytes := cacheBytes;
      mainCache := new Lru.Cache(cacheBytes, false);
      peers := None;
      calls := [];
    }

    /** getFromPeer: ask a peer for this group's value of the key. */
    function GetFromPeer(transport: Transport, peer: PeerGetter, key: string): Result<Bytes>
    {
      transport(peer, Request(name, key))
    }

    /** The peer load consults: none unless peers are registered and the picker picks one. */
    function PickedPeer(key: string): Option<PeerGetter>
      reads this
    {
      if peers.Some? then peers.value(key) else None
    }

    /** Whether load is answered by a peer: one was picked and answered without error. */
    predicate FromPeer(transport: Transport, key: string)
      reads this
    {
      PickedPeer(key).Some? && GetFromPeer(transport, PickedPeer(key).value, key).Ok?
    }

    /** What load returns: the peer's answer when there is one, otherwise the getter's. */
    function LoadResult(transport: Transport, key: string): (r: Result<Bytes>)
      reads this
      ensures FromPeer(transport, key) ==> r == GetFromPeer(transport, PickedPeer(key).value, key)
      ensures !FromPeer(transport, key) ==> r == getter(key)
    {
      if FromPeer(transport, key) then GetFromPeer(transport, PickedPeer(key).value, key) else getter(key)
    }

    /** Whether load stores its result locally: only a value that came from the getter. */
    predicate Populates(transport: Transport, key: string)
      reads this
    {
      !FromPeer(transport, key) && getter(key).Ok?
    }

    /** The calls load makes: the picked peer's fetch, if any, then the getter unless the peer answered. */
    ghost function LoadCalls(transport: Transport, key: string): seq<Call>
      reads this
    {
      (if PickedPeer(key).Some? then [PeerCall(PickedPeer(key).value, Request(name, key))] else []) +
      (if FromPeer(transport, key) then [] else [GetterCall(key)])
    }

    /**
     * load asks at most one peer, and calls the getter at most once: exactly
     * when no peer answered, and always after the peer.
     */
    lemma LoadCallsOnce(transport: Transport, key: string)
      ensures var c := LoadCalls(transport, key);
        1 <= |c| <= 2 &&
        (c[0].PeerCall? <==> PickedPeer(key).Some?) &&
        (GetterCall(key) in c <==> !FromPeer(transport, key)) &&
        (|c| == 2 ==> c[0].PeerCall? && c[1] == GetterCall(key)) &&
        (forall i | 0 <= i < |c| && c[i].PeerCall? :: c[i].request == Request(name, key))
    {
    }

    /** An error from load is always the getter's: a failing peer is never reported. */
    lemma LoadErrorIsGetters(transport: Transport, key: string)
      ensures LoadResult(transport, key).Err? ==> !FromPeer(transport, key) && LoadResult(transport, key) == getter(key)
    {
    }

    /** Load caches exactly when its value did not come from a peer. */
    lemma PopulatesIffLocalSuccess(transport: Transport, key: string)
      ensures Populates(transport, key) <==> LoadResult(transport, key).Ok? && !FromPeer(transport, key)
    {
    }

    /** Without registered peers, or without a picked peer, load is the getter. */
    lemma NoPeerMeansGetter(transport: Transport, key: string)
      ensures PickedPeer(key).None? ==> LoadResult(transport, key) == getter(key)
      ensures peers.None? ==> PickedPeer(key).None?
    {
    }

    /** populateCache: add the value to the local cache under the key. */
    method PopulateCache(key: string, value: Bytes)
      requires Valid()
      modifies mainCache
      ensures Valid()
      ensures mainCache.ll == Lru.Trim(Lru.Upsert(old(mainCache.ll), key, value), cacheBytes)
      ensures cacheBytes == 0 || |key| + |value| <= cacheBytes ==> key in mainCache.cache && mainCache.cache[key] == value
    {
      mainCache.Add(key, value);
    }

    /** getLocally: call the getter; cache and return its value, or return its error. */
    method GetLocally(key: string) returns (r: Result<Bytes>)
      requires Valid()
      modifies this, mainCache
      ensures Valid() && peers == old(peers)
      ensures calls == old(calls) + [GetterCall(key)]
      ensures r == getter(key)
      ensures r.Ok? ==> mainCache.ll == Lru.Trim(Lru.Upsert(old(mainCache.ll), key, r.value), cacheBytes)
      ensures r.Ok? && (cacheBytes == 0 || |key| + |r.value| <= cacheBytes) ==>
        key in mainCache.cache && mainCache.cache[key] == r.value
      ensures r.Err? ==> mainCache.ll == old(mainCache.ll) && mainCache.cache == old(mainCache.cache)
    {
      calls := calls + [GetterCall(key)];
      r := getter(key);
      if r.Ok? {
        PopulateCache(key, r.value);
      }
    }

    /**
     * load: try the picked peer first; on no peer or a failing peer fall
     * back to the getter. A peer's answer is not cached.
     */
    method Load(transport: Transport, key: string) returns (r: Result<Bytes>)
      requires Valid()
      modifies this, mainCache
      ensures Valid() && peers == old(peers)
      ensures calls == old(calls) + LoadCalls(transport, key)
      ensures r == LoadResult(transport, key)
      ensures Populates(transport, key) ==> mainCache.ll == Lru.Trim(Lru.Upsert(old(mainCache.ll), key, r.value), cacheBytes)
      ensures !Populates(transport, key) ==> mainCache.ll == old(mainCache.ll) && mainCache.cache == old(mainCache.cache)
    {
      if peers.Some? {
        var picked := peers.value(key);
        if picked.Some? {
          calls := calls + [PeerCall(picked.value, Request(name, key))];
          var fromPeer := GetFromPeer(transport, picked.value, key);
          if fromPeer.Ok? {
            return fromPeer;
          }
        }
      }
      r := GetLocally(key);
    }

    /**
     * Group.Get: the empty key is an error; a local hit is returned (and
     * moved to the back of the LRU list); a miss is loaded.
     */
    method Get(transport: Transport, key: string) returns (r: Result<Bytes>)
      requires Valid()
      modifies this, mainCache
      ensures Valid() && peers == old(peers)
      ensures key == "" || key in old(mainCache.cache) ==> calls == old(calls)
      ensures key != "" && key !in old(mainCache.cache) ==> calls == old(calls) + LoadCalls(transport, key)
      ensures key == "" ==> r == Err(KeyRequired) && mainCache.ll == old(mainCache.ll)
      ensures key != "" && key in old(mainCache.cache) ==>
        r == Ok(old(mainCache.cache)[key]) && 0 <= Lru.Find(old(mainCache.ll), key) &&
        mainCache.ll == Lru.MoveToBack(old(mainCache.ll), Lru.Find(old(mainCache.ll), key))
      ensures key != "" && key !in old(mainCache.cache) ==> r == LoadResult(transport, key)
      ensures key != "" && key !in old(mainCache.cache) && Populates(transport, key) ==>
        mainCache.ll == Lru.Trim(Lru.Upsert(old(mainCache.ll), key, r.value), cacheBytes)
      ensures (key == "" || (key !in old(mainCache.cache) && !Populates(transport, key))) ==>
        mainCache.ll == old(mainCache.ll) && mainCache.cache == old(mainCache.cache)
    {
      if key == "" {
        return Err(KeyRequired);
      }
      var v, ok := mainCache.Get(key);
      if ok {
        return Ok(v);
      }
      r := Load(transport, key);
    }

    /** RegisterPeers: succeeds once; a second call fails and changes nothing. */
    method RegisterPeers(p: PeerPicker) returns (ok: bool)
      modifies this
      ensures ok <==> old(peers).None?
      ensures ok ==> peers == Some(p)
      ensures !ok ==> peers == old(peers)
      ensures calls == old(calls)
    {
      if peers.Some? {
        return false;
      }
      peers := Some(p);
      ok := true;
    }
  }

  /** The package-level `groups` map from name to group. */
  class Registry {
    var groups: map<string, Group>

    constructor ()
      ensures groups == map[]
    {
      groups := map[];
    }

    /** GetGroup: the group registered under the name, or null. */
    function GetGroup(name: string): (g: Group?)
      reads this
      ensures g != null <==> name in groups
      ensures g != null ==> g == groups[name]
    {
      if name in groups then groups[name] else null
    }

    /**
     * NewGroup: a missing getter is fatal (null here, nothing registered);
     * otherwise a fresh group replaces any group of the same name.
     */
    method NewGroup(name: string, cacheBytes: int, getter: Option<Getter>) returns (g: Group?)
      requires cacheBytes >= 0
      modifies this
      ensures getter.None? ==> g == null && groups == old(groups)
      ensures getter.Some? ==> g != null && fresh(g) && fresh(g.mainCache) && g.Valid()
      ensures getter.Some? ==> g.name == name && g.getter == getter.value && g.cacheBytes == cacheBytes && g.peers.None? && g.calls == []
      ensures getter.Some? ==> g.mainCache.ll == [] && g.mainCache.cache == map[]
      ensures getter.Some? ==> groups == old(groups)[name := g] && GetGroup(name) == g
    {
      if getter.None? {
        return null;
      }
      g := new Group(name, cacheBytes, getter.value);
      groups := groups[name := g];
    }
  }
}
