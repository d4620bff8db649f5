/**
 * The HTTP peer pool of http.go, without the network: the consistent-hash
 * ring of peers, one getter per peer, picking the peer that owns a key, and
 * the routing and status decisions of the request handler.
 */
module HttpPool {
  import opened Types
  import ConsistentHash
  import opened GeeCache

  const DefaultBasePath := "/_geecache/"
  const DefaultReplicas := 50

  /** `strings.Index(s, "/")`: the position of the first slash, or -1. */
  function FirstSlash(s: string): (i: int)
    ensures -1 <= i < |s|
    ensures i == -1 <==> '/' !in s
    ensures i >= 0 ==> s[i] == '/' && '/' !in s[..i]
  {
    if s == [] then -1
    else if s[0] == '/' then 0
    else
      var j := FirstSlash(s[1..]);
      assert forall c | c in s[1..] :: c in s;
      if j == -1 then
        assert s == [s[0]] + s[1..];
        -1
      else
        assert s[..j + 1] == [s[0]] + s[1..][..j];
        j + 1
  }

  /** `strings.SplitN(s, "/", 2)`: the whole string, or the parts before and after the first slash. */
  function SplitFirst(s: string): (parts: seq<string>)
    ensures |parts| == 1 || |parts| == 2
    ensures |parts| == 1 <==> '/' !in s
    ensures |parts| == 1 ==> parts[0] == s
    ensures |parts| == 2 ==> parts[0] + "/" + parts[1] == s && '/' !in parts[0]
  {
    var i := FirstSlash(s);
    if i == -1 then [s]
    else
      assert s == s[..i] + "/" + s[i + 1..];
      [s[..i], s[i + 1..]]
  }

  /** What the handler makes of a request path. */
  datatype Route =
    | Unexpected              // not under the base path: the handler panics
    | BadRequest              // no slash after the group name
    | Serve(group: string, key: string)

  /** The routing half of ServeHTTP: prefix check, then split the rest at its first slash. */
  function RoutePath(basePath: string, path: string): (r: Route)
    ensures r.Unexpected? <==> !(basePath <= path)
    ensures r.BadRequest? <==> basePath <= path && '/' !in path[|basePath|..]
    ensures r.Serve? ==> path == basePath + r.group + "/" + r.key && '/' !in r.group
  {
    if !(basePath <= path) then Unexpected
    else
      var parts := SplitFirst(path[|basePath|..]);
      if |parts| != 2 then BadRequest
      else
        assert path == basePath + path[|basePath|..];
        Serve(parts[0], parts[1])
  }

  /** The first slash of `a + "/" + b` is the one after a, when a has none. */
  lemma {:induction false} FirstSlashAfter(a: string, b: string)
    requires '/' !in a
    ensures FirstSlash(a + "/" + b) == |a|
  {
    var s := a + "/" + b;
    if a != [] {
      assert s[0] == a[0] && a[0] in a;
      assert s[1..] == a[1..] + "/" + b;
      assert forall c | c in a[1..] :: c in a;
      FirstSlashAfter(a[1..], b);
    }
  }

  /** Any group name without a slash and any key route back from the path they spell. */
  lemma RouteRoundTrip(basePath: string, group: string, key: string)
    requires '/' !in group
    ensures RoutePath(basePath, basePath + group + "/" + key) == Serve(group, key)
  {
    var path := basePath + group + "/" + key;
    var rest := group + "/" + key;
    assert path == basePath + rest && path[|basePath|..] == rest;
    FirstSlashAfter(group, key);
    assert rest[..|group|] == group && rest[|group| + 1..] == key;
  }

  /** The response the handler writes. */
  datatype Reply =
    | Panic(message: string)
    | Failure(status: int, text: string)
    | Success(value: Bytes)

  /** The reply for the outcome of `Group.Get`: the value, or its error with status 500. */
  function ReplyFor(r: Result<Bytes>): (reply: Reply)
    ensures r.Ok? <==> reply.Success?
    ensures r.Ok? ==> reply.value == r.value
    ensures r.Err? ==> reply == Failure(500, r.message)
  {
    match r
    case Ok(v) => Success(v)
    case Err(m) => Failure(500, m)
  }

  /** The getter of a peer: its address followed by the base path. */
  function GetterFor(peer: string, basePath: string): PeerGetter
  {
    HttpGetter(peer + basePath)
  }

  /** Adding the same suffix to two different peers gives two different getters. */
  lemma GetterForInjective(p: string, q: string, basePath: string)
    ensures GetterFor(p, basePath) == GetterFor(q, basePath) ==> p == q
  {
    if GetterFor(p, basePath) == GetterFor(q, basePath) {
      assert (p + basePath)[..|p|] == p;
      assert (q + basePath)[..|q|] == q;
    }
  }

  /** The peer pick on a snapshot of the pool's fields: the ring owner, unless empty or self. */
  function PickFrom(self: string, ring: seq<int>, owners: map<int, string>, hash: ConsistentHash.Hash,
                    getters: map<string, PeerGetter>, key: string): Option<PeerGetter>
    requires ConsistentHash.Sorted(ring)
  {
    var peer := ConsistentHash.Owner(ring, owners, hash(key));
    if peer != "" && peer != self && peer in getters then Some(getters[peer]) else None
  }

  /** The getters map Set builds: one getter per peer, later duplicates overwriting earlier ones. */
  function Getters(peerList: seq<string>, basePath: string): map<string, PeerGetter>
  {
    if peerList == [] then map[]
    else Getters(peerList[..|peerList| - 1], basePath)[peerList[|peerList| - 1] := GetterFor(peerList[|peerList| - 1], basePath)]
  }

  /** Set's getters cover exactly the listed peers, each addressed at peer + basePath. */
  lemma {:induction false} GettersFacts(peerList: seq<string>, basePath: string)
    ensures Getters(peerList, basePath).Keys == set p | p in peerList
    ensures forall p | p in Getters(peerList, basePath) :: Getters(peerList, basePath)[p] == GetterFor(p, basePath)
  {
    if peerList != [] {
      var init := peerList[..|peerList| - 1];
      GettersFacts(init, basePath);
      assert peerList == init + [peerList[|peerList| - 1]];
    }
  }

  /** The ring Set builds: consistenthash.New(50, nil), then Add over the peers. */
  method NewRing(peerList: seq<string>, checksum: ConsistentHash.Hash) returns (ring: ConsistentHash.Map)
    ensures fresh(ring) && ring.Valid()
    ensures ring.replicas == DefaultReplicas && ring.hash == checksum
    ensures ring.Nodes == set p | p in peerList
    ensures ring.keys == ConsistentHash.SortInts(ConsistentHash.VirtualHashes(checksum, DefaultReplicas, peerList))
    ensures ring.hashMap == ConsistentHash.Place(map[], checksum, DefaultReplicas, peerList)
  {
    ring := new ConsistentHash.Map(DefaultReplicas, None, checksum);
    ring.Add(peerList);
    assert [] + ConsistentHash.VirtualHashes(checksum, DefaultReplicas, peerList) ==
      ConsistentHash.VirtualHashes(checksum, DefaultReplicas, peerList);
  }

  /** The loop of Set that creates one getter per peer. */
  method NewGetters(peerList: seq<string>, basePath: string) returns (getters: map<string, PeerGetter>)
    ensures getters == Getters(peerList, basePath)
  {
    getters := map[];
    var i := 0;
    while i < |peerList|
      invariant 0 <= i <= |peerList|
      invariant getters == Getters(peerList[..i], basePath)
    {
      assert peerList[..i + 1][..i] == peerList[..i];
      getters := getters[peerList[i] := GetterFor(peerList[i], basePath)];
      i := i + 1;
    }
    assert peerList[..|peerList|] == peerList;
  }

  /** The group a request path is served by: the registered group its route names, or null. */
  function Target(registry: Registry, basePath: string, path: string): (g: Group?)
    reads registry
    ensures g != null <==> RoutePath(basePath, path).Serve? && RoutePath(basePath, path).group in registry.groups
    ensures g != null ==> g == registry.groups[RoutePath(basePath, path).group]
  {
    var route := RoutePath(basePath, path);
    if route.Serve? then registry.GetGroup(route.group) else null
  }

  /**
   * What serving a key from a group did: the empty key is a 500; a hit
   * answers the cached value and moves it to the back of the LRU list
   * without calling the getter or a peer; a miss answers the load result
   * (an error as a 500) after load's calls, and caches only the getter's
   * value.
   */
  twostate predicate Answered(g: Group, transport: Transport, key: string, reply: Reply)
    reads g, g.mainCache
  {
    var hit := key != "" && key in old(g.mainCache.cache);
    g.Valid() && g.peers == old(g.peers) &&
    (key == "" ==> reply == Failure(500, KeyRequired)) &&
    (hit ==> (reply == Success(old(g.mainCache.cache)[key]) && 0 <= Lru.Find(old(g.mainCache.ll), key) &&
              g.mainCache.ll == Lru.MoveToBack(old(g.mainCache.ll), Lru.Find(old(g.mainCache.ll), key)))) &&
    (key == "" || hit ==> g.calls == old(g.calls)) &&
    (key != "" && !hit ==> (reply == ReplyFor(g.LoadResult(transport, key)) &&
                            g.calls == old(g.calls) + g.LoadCalls(transport, key))) &&
    (key != "" && !hit && g.Populates(transport, key) ==>
      g.mainCache.ll == Lru.Trim(Lru.Upsert(old(g.mainCache.ll), key, g.getter(key).value), g.cacheBytes)) &&
    (key == "" || (!hit && !g.Populates(transport, key)) ==>
      g.mainCache.ll == old(g.mainCache.ll) && g.mainCache.cache == old(g.mainCache.cache))
  }

  /** The found-group branch of ServeHTTP: Group.Get, and its outcome as a reply. */
  method Answer(g: Group, transport: Transport, key: string) returns (reply: Reply)
    requires g.Valid()
    modifies g, g.mainCache
    ensures Answered(g, transport, key, reply)
  {
    var view := g.Get(transport, key);
    reply := ReplyFor(view);
  }

  class HTTPPool {
    const self: string
    const basePath: string
    /** crc32.ChecksumIEEE, the hash the ring uses when built with none. */
    const checksum: ConsistentHash.Hash
    var peers: ConsistentHash.Map?
    var httpGetters: map<string, PeerGetter>

    /** After Set: a ring over exactly the peers that have getters, each addressed at peer + basePath. */
    ghost predicate Valid()
      reads this, peers
    {
      peers != null && peers.Valid() &&
      httpGetters.Keys == peers.Nodes &&
      (forall p | p in httpGetters :: httpGetters[p] == GetterFor(p, basePath))
    }

    /** NewHTTPPool: no ring and no getters yet. */
    constructor (self: string, checksum: ConsistentHash.Hash)
      ensures this.self == self && basePath == DefaultBasePath && this.checksum == checksum
      ensures peers == null && httpGetters == map[]
    {
      this.self := self;
      basePath := DefaultBasePath;
      this.checksum := checksum;
      peers := null;
      httpGetters := map[];
    }

    /** Set: replace the ring by a fresh one of 50 replicas over the peers, and the getters by one per peer. */
    method Set(peerList: seq<string>)
      modifies this
      ensures Valid() && fresh(peers)
      ensures peers.replicas == DefaultReplicas && peers.hash == checksum
      ensures peers.Nodes == set p | p in peerList
      ensures peers.keys == ConsistentHash.SortInts(ConsistentHash.VirtualHashes(checksum, DefaultReplicas, peerList))
      ensures peers.hashMap == ConsistentHash.Place(map[], checksum, DefaultReplicas, peerList)
      ensures httpGetters.Keys == set p | p in peerList
    {
      var ring := NewRing(peerList, checksum);
      var getters := NewGetters(peerList, basePath);
      GettersFacts(peerList, basePath);
      peers := ring;
      httpGetters := getters;
    }

    /**
     * PickPeer: the getter of the key's owner on the ring, unless the ring
     * is empty or the owner is this peer.
     */
    function PickPeer(key: string): (r: Option<PeerGetter>)
      reads this, peers
      requires Valid()
      ensures r.Some? <==> peers.Get(key) != "" && peers.Get(key) != self
      ensures r.Some? ==> r.value == GetterFor(peers.Get(key), basePath)
      ensures r.Some? ==> r.value != GetterFor(self, basePath)
    {
      var peer := peers.Get(key);
      assert peers.keys != [] ==> peer in httpGetters;
      assert peers.keys == [] ==> peer == "";
      GetterForInjective(peer, self, basePath);
      PickFrom(self, peers.keys, peers.hashMap, peers.hash, httpGetters, key)
    }

    /** The pool as the PeerPicker a group registers: PickPeer on the current ring and getters. */
    function Picker(): (pick: PeerPicker)
      reads this, peers
      requires Valid()
      ensures forall key :: pick(key) == PickPeer(key)
    {
      var self, ring, owners, hash, getters := self, peers.keys, peers.hashMap, peers.hash, httpGetters;
      (key: string) => PickFrom(self, ring, owners, hash, getters, key)
    }

    /** A pool whose ring holds only itself serves every key locally. */
    lemma OnlySelfServesLocally(key: string)
      requires Valid() && peers.Nodes <= {self}
      ensures PickPeer(key).None?
    {
    }

    /**
     * ServeHTTP without the network: route the path, look the group up in
     * the registry, and answer from `Group.Get`. Every registered group stays
     * well formed, and only the served group's cache and call log change.
     */
    method ServeHTTP(registry: Registry, transport: Transport, path: string) returns (reply: Reply)
      requires forall name | name in registry.groups :: registry.groups[name].Valid()
      modifies set name | name in registry.groups :: registry.groups[name]
      modifies set name | name in registry.groups :: registry.groups[name].mainCache
      ensures forall name | name in registry.groups :: registry.groups[name].Valid()
      ensures forall name | name in registry.groups && registry.groups[name] != Target(registry, basePath, path) ::
        var h := registry.groups[name];
        h.calls == old(h.calls) && h.peers == old(h.peers) &&
        (Target(registry, basePath, path) == null || h.mainCache != Target(registry, basePath, path).mainCache ==>
          h.mainCache.ll == old(h.mainCache.ll) && h.mainCache.cache == old(h.mainCache.cache))
      ensures RoutePath(basePath, path).Unexpected? ==> reply == Panic("HTTPPool serving unexpected path: " + path)
      ensures RoutePath(basePath, path).BadRequest? ==> reply == Failure(400, "bad request")
      ensures RoutePath(basePath, path).Serve? && RoutePath(basePath, path).group !in registry.groups ==>
        reply == Failure(404, "no such group: " + RoutePath(basePath, path).group)
      ensures Target(registry, basePath, path) != null ==>
        Answered(Target(registry, basePath, path), transport, RoutePath(basePath, path).key, reply)
    {
      var route := RoutePath(basePath, path);
      match route
      case Unexpected =>
        reply := Panic("HTTPPool serving unexpected path: " + path);
      case BadRequest =>
        reply := Failure(400, "bad request");
      case Serve(groupName, key) =>
        var group := registry.GetGroup(groupName);
        if group == null {
          reply := Failure(404, "no such group: " + groupName);
        } else {
          reply := Answer(group, transport, key);
          forall name | name in registry.groups
            ensures registry.groups[name].Valid()
          {
            var h := registry.groups[name];
            assert old(h.Valid());
          }
        }
    }
  }
}
