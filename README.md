# GeeCache in Dafny

A verified model of the coordination core of GeeCache, a small distributed
cache written in Go. The model has four parts, one Dafny module per Go file,
plus a shared `Types` module (bytes, `Option`, `Result`):

- `Lru` (`lru.dfy`) models `geecache/lru/lru.go`, the byte-bounded recency
  cache. `Lru.Cache` is a class. Its doubly linked list is the field
  `ll: seq<Entry>`: index 0 is the list's front, where `Add` pushes, and the
  last index is the back, where `RemoveOldest` evicts. The key-to-element
  map is `cache: map<string, Bytes>`, and `nbytes` is the byte counter. The
  class keeps one invariant:
  - `nbytes` is the sum of `len(key) + len(value)` over the list;
  - the keys are distinct;
  - the map is exactly the list's entries.

  After every public call the bound also holds. A registered `OnEvicted`
  callback is recorded as the log `evictions` of the pairs passed to it.
  As in the source, a hit in `Get` moves the entry to the *back* of the
  list. That is the end `RemoveOldest` takes from, so a read entry is the
  next one evicted. The model keeps this behaviour and proves it.
- `ConsistentHash` (`consistenthash.dfy`) models
  `geecache/consistenthash/consisitenthash.go`, the consistent-hash ring.
  `Map.Add` is imperative: two nested loops append the virtual positions
  `hash(Itoa(i) + node)` and record their node, then the positions are
  sorted. `Map.Get` is a function that binary-searches and wraps around.
  Its result is proved equal to an independent description of the owner,
  `Serves`: the node of the first position at or after the key's hash, or
  of the smallest position when there is none. The hash function is a
  parameter.
- `GeeCache` (`geecache.dfy`) models `geecache/geecache.go`. It covers the
  `Group` state machine over an LRU-backed main cache:
  - the empty key is an error;
  - a local hit is returned;
  - on a miss, a picked peer's answer is returned and not cached;
  - otherwise the getter runs, its value is cached and its error is passed on.

  It also covers the rule that peers are registered only once, and the
  name-to-group `Registry`. The getter and the peer fetch are function
  parameters. Each group keeps a ghost log `calls` of the calls it makes to
  them, so the contracts say which collaborators a request reaches: none on
  an empty key or a hit, and on a miss at most one peer and at most one getter
  call.
- `HttpPool` (`http.dfy`) models the non-network part of
  `geecache/http.go`:
  - `NewHTTPPool`;
  - `Set`, which builds a fresh ring of 50 replicas and one getter per
    peer, at `peer + "/_geecache/"`;
  - `PickPeer`, which declines the empty owner and `self`;
  - the routing and status decisions of `ServeHTTP`: panic, 400, 404, 500
    or the value.

The code leaves two behaviours open to a reader, and the model follows the
code on both:

- One might expect the ring's positions to be distinct; the code does not
  make them so. The decimal index is only a prefix, so two
  virtual-node names can coincide (`NamesCanCollide`). With 13 replicas,
  `Add("2x", "x")` places two virtual nodes at the same position for every
  hash function (`RingCanRepeat`). `sort.Ints` keeps both copies, and in
  `hashMap` the later node wins (`PlaceLastWriter`).
- `RegisterPeers` called twice, `NewGroup` with a nil getter, and a request
  path outside the base path all panic. The model makes these visible
  outcomes instead, and leaves the state unchanged:
  - `RegisterPeers` returns `false`;
  - `NewGroup` returns `null` and registers nothing;
  - `ServeHTTP` returns `Reply.Panic` with the panic message.

## Model

| member | source | states |
|---|---|---|
| Lru.UpsertNew | geecache/lru/lru.go:73-77 | Adding a new key puts it at the front, adds len(key)+len(value) to the byte total, and adds one entry and exactly that key |
| Lru.UpsertExisting | geecache/lru/lru.go:66-72 | Adding an existing key puts it at the front with the new value, keeps the length and key set, and changes the byte total by the value-size delta |
| Lru.UpsertNoDup | geecache/lru/lru.go:65-78 | Insert-or-update keeps the keys of the list distinct |
| Lru.UpsertAgrees | geecache/lru/lru.go:66-77 | Insert-or-update keeps the map, the list and the byte counter in agreement |
| Lru.MoveToBackExposes | geecache/lru/lru.go:39-46 | After a hit the read entry is the back one (next to be evicted), the rest keep their order, and keys and byte total are unchanged |
| Lru.KeyCount | geecache/lru/lru.go:84-86 | With distinct keys, the number of keys equals the number of list entries |
| Lru.IndexOfIndexes | geecache/lru/lru.go:8-13 | A list with distinct keys determines a map holding exactly its entries |
| Lru.IndexesUnique | geecache/lru/lru.go:8-13 | A map that agrees with such a list is unique |
| Lru.DropLastAgrees | geecache/lru/lru.go:52-57 | Removing the back entry from the list and its key from the map keeps them in agreement and subtracts its size |
| Lru.TrimWithinBound | geecache/lru/lru.go:79-81 | After the eviction loop the total is within maxBytes when maxBytes != 0; with maxBytes == 0 nothing is evicted |
| Lru.TrimShape | geecache/lru/lru.go:79-81 | Eviction keeps a prefix of the list and removes the rest from the back, back entry first |
| Lru.TrimMinimal | geecache/lru/lru.go:79-81 | Eviction stops as soon as the bound holds: keeping the last evicted entry would still be over it |
| Lru.TrimKeepsFront | geecache/lru/lru.go:79-81 | A front entry that fits the bound on its own survives eviction |
| Lru.AddedEntryStays | geecache/lru/lru.go:65-82 | After insert-or-update and eviction, the added entry is at the front when it fits the bound |
| Lru.Cache.constructor | geecache/lru/lru.go:25-34 | New: empty list and map, zero bytes, the given bound and callback |
| Lru.Cache.Get | geecache/lru/lru.go:36-49 | A hit iff the key is cached: returns its value and moves the entry to the back (the last position); a miss returns nothing and changes nothing |
| Lru.Cache.RemoveOldest | geecache/lru/lru.go:51-63 | An empty cache is unchanged; otherwise exactly the back entry leaves list and map, its size leaves nbytes, and it is passed to OnEvicted if set |
| Lru.Cache.Insert | geecache/lru/lru.go:66-78 | The list becomes the insert-or-update of the old one, the map gets key := value, nbytes grows by the size delta, and the invariant holds |
| Lru.Cache.Evict | geecache/lru/lru.go:79-81 | The loop leaves the trimmed list within the bound and logs the evicted entries, in eviction order, to OnEvicted |
| Lru.Cache.Add | geecache/lru/lru.go:65-82 | The new list is the trimmed insert-or-update, evictions are reported in order, the invariant and bound hold, and an entry that fits is cached with its value |
| Lru.Cache.Len | geecache/lru/lru.go:84-86 | The number of entries equals the list length and the map size |
| ConsistentHash.Itoa | geecache/consistenthash/consisitenthash.go:42 | strconv.Itoa: at least one decimal digit, with no leading zero |
| ConsistentHash.AtoiItoa | geecache/consistenthash/consisitenthash.go:42 | Reading the decimal notation back gives the number |
| ConsistentHash.ItoaInjective | geecache/consistenthash/consisitenthash.go:42 | Distinct replica indexes have distinct decimal prefixes |
| ConsistentHash.NamesCanCollide | geecache/consistenthash/consisitenthash.go:42 | Two (index, node) pairs can still spell the same virtual-node name |
| ConsistentHash.RingCanRepeat | geecache/consistenthash/consisitenthash.go:40-47 | For every hash function, adding "2x" and "x" with 13 replicas places two virtual nodes at one position |
| ConsistentHash.InsertSorted | geecache/consistenthash/consisitenthash.go:47 | Inserting into a sorted list gives a sorted permutation one longer |
| ConsistentHash.SortInts | geecache/consistenthash/consisitenthash.go:47 | sort.Ints: the result is sorted and a permutation of the input |
| ConsistentHash.SearchIn | geecache/consistenthash/consisitenthash.go:58-62 | The binary search keeps every index before it below h and every index from it at least h |
| ConsistentHash.Search | geecache/consistenthash/consisitenthash.go:58-62 | sort.Search: the least index whose key is >= h, or len(keys) |
| ConsistentHash.ServesUnique | geecache/consistenthash/consisitenthash.go:51-65 | At most one position serves a hash |
| ConsistentHash.ServesSubset | geecache/consistenthash/consisitenthash.go:51-65 | A position serving h on a ring still serves it on a sub-ring holding it |
| ConsistentHash.Wrap | geecache/consistenthash/consisitenthash.go:64 | The modulo maps the one-past-the-end index to 0 and leaves every other index |
| ConsistentHash.SlotServes | geecache/consistenthash/consisitenthash.go:56-64 | The slot Get reads is the first position at or after the hash, or the smallest position when every position is below the hash |
| ConsistentHash.Owner | geecache/consistenthash/consisitenthash.go:51-65 | "" on an empty ring; otherwise the node recorded for the serving position |
| ConsistentHash.RowAt | geecache/consistenthash/consisitenthash.go:41-42 | Virtual node i of a node is at hash(Itoa(i) + node) |
| ConsistentHash.VirtualHashesLength | geecache/consistenthash/consisitenthash.go:40-46 | Adding nodes appends exactly replicas * len(nodes) positions |
| ConsistentHash.ExtendAllIsConcat | geecache/consistenthash/consisitenthash.go:40-46 | The nested loops append the rows of the nodes in order |
| ConsistentHash.PlaceRowFacts | geecache/consistenthash/consisitenthash.go:41-45 | Writing one node's row records exactly its positions under that node and leaves the others |
| ConsistentHash.PlaceFacts | geecache/consistenthash/consisitenthash.go:40-46 | Writing all nodes records exactly the new positions, each under one of the nodes, and leaves unwritten positions |
| ConsistentHash.PlaceLastWriter | geecache/consistenthash/consisitenthash.go:44 | On a position several nodes share, the last node written keeps it |
| ConsistentHash.AddMovesOnlyToNewNodes | geecache/consistenthash/consisitenthash.go:36-65 | After Add, every hash keeps its owner unless its new owner is one of the added nodes |
| ConsistentHash.AddKeepsKeys | geecache/consistenthash/consisitenthash.go:43-47 | After Add, the sorted positions are exactly the positions the map records |
| ConsistentHash.AddKeepsNames | geecache/consistenthash/consisitenthash.go:44 | After Add, every recorded node is an old node or an added one |
| ConsistentHash.AddKeepsRing | geecache/consistenthash/consisitenthash.go:36-48 | Add keeps the ring well formed: sorted, positions = map keys, names within the added nodes |
| ConsistentHash.ElementsIn | geecache/consistenthash/consisitenthash.go:16-17 | The ring's position set holds exactly the positions of the list |
| ConsistentHash.Map.constructor | geecache/consistenthash/consisitenthash.go:21-33 | New: the given replicas; the given hash, or the default checksum when none is given; an empty ring |
| ConsistentHash.Map.AddReplicas | geecache/consistenthash/consisitenthash.go:41-45 | The inner loop appends one node's replicas positions and records them under the node |
| ConsistentHash.Map.AddAll | geecache/consistenthash/consisitenthash.go:40-46 | The outer loop appends every node's positions in order and records them, later writes winning |
| ConsistentHash.Map.Add | geecache/consistenthash/consisitenthash.go:36-48 | keys becomes the sorted old keys plus the new positions (old positions kept, replicas * len(nodes) more), the map records them, the node set grows, and the ring stays well formed |
| ConsistentHash.Map.Get | geecache/consistenthash/consisitenthash.go:51-65 | "" on an empty ring; otherwise an added node, namely the one recorded for the position serving the key's hash |
| GeeCache.Group.constructor | geecache/geecache.go:45-50 | A new group: given name, getter and byte bound; empty main cache; no peers; no calls made |
| GeeCache.Group.LoadCallsOnce | geecache/geecache.go:88-99 | load asks at most one peer (the picked one, for this group and key) and calls the getter at most once: exactly when no peer answered, and after the peer |
| GeeCache.Group.LoadErrorIsGetters | geecache/geecache.go:88-104 | An error from load is always the getter's; a failing peer is never reported |
| GeeCache.Group.PopulatesIffLocalSuccess | geecache/geecache.go:88-121 | load caches exactly when the value came from the getter, not a peer |
| GeeCache.Group.NoPeerMeansGetter | geecache/geecache.go:89-98 | Without registered peers, or without a picked peer, load is the getter |
| GeeCache.Group.PopulateCache | geecache/geecache.go:124-126 | The main cache gets the key-value pair (insert-or-update then evict); a value that fits is cached |
| GeeCache.Group.GetLocally | geecache/geecache.go:108-121 | Calls the getter once and returns its result; on success the value is cached, on error the cache is unchanged |
| GeeCache.Group.Load | geecache/geecache.go:83-105 | Makes exactly load's calls (the picked peer, then the getter unless the peer answered); returns the peer's value or else the getter's result; caches exactly the getter's value, else the cache is unchanged. getFromPeer (geecache.go:137-149) is folded in as `GetFromPeer`: the peer is asked for Request(name, key) (LoadCallsOnce) and its answer, value or error, is what load passes on or falls back from (LoadResult, LoadErrorIsGetters) |
| GeeCache.Group.Get | geecache/geecache.go:66-80 | Empty key: error, no calls, cache unchanged; hit: the cached value with no getter or peer call, entry moved to the back; miss: the load result after load's calls, cached only when it came from the getter |
| GeeCache.Group.RegisterPeers | geecache/geecache.go:129-134 | Succeeds iff no peers were registered, then stores them; a second call fails and changes nothing; no getter or peer is called |
| GeeCache.Registry.constructor | geecache/geecache.go:33-36 | The registry starts empty |
| GeeCache.Registry.NewGroup | geecache/geecache.go:38-53 | A missing getter registers nothing; otherwise a fresh group, with an empty main cache (no entries), no peers and no calls, replaces any group of that name and GetGroup returns it |
| HttpPool.FirstSlash | geecache/http.go:61 | The first slash's position, or -1 iff there is no slash |
| HttpPool.SplitFirst | geecache/http.go:61 | SplitN(s, "/", 2): one part iff no slash; otherwise the parts rejoin to s and the first has no slash |
| HttpPool.RoutePath | geecache/http.go:55-69 | Unexpected iff the path lacks the base path; bad request iff no slash follows it; otherwise group and key spell the path, and the group has no slash |
| HttpPool.FirstSlashAfter | geecache/http.go:61 | In a + "/" + b with no slash in a, the first slash is the one after a |
| HttpPool.RouteRoundTrip | geecache/http.go:55-69 | Any slash-free group and any key route back from the path they spell |
| HttpPool.GetterForInjective | geecache/http.go:141 | Distinct peers get distinct getter URLs |
| HttpPool.GettersFacts | geecache/http.go:139-142 | Set's getter map covers exactly the peers, each at peer + basePath |
| HttpPool.NewGetters | geecache/http.go:139-142 | The loop builds exactly that getter map |
| HttpPool.Answer | geecache/http.go:78-83 | Serving a key from a found group: 500 with KeyRequired for the empty key, the cached value on a hit with no calls, otherwise load's outcome with an error as 500 and the getter's value cached; the group stays well formed |
| HttpPool.NewRing | geecache/http.go:137-138 | A fresh well-formed ring with 50 replicas and the default hash over exactly the peers, holding their sorted virtual positions |
| HttpPool.HTTPPool.constructor | geecache/http.go:32-37 | NewHTTPPool: the given self, basePath "/_geecache/", no ring |
| HttpPool.HTTPPool.Set | geecache/http.go:134-143 | A fresh ring of 50 replicas over exactly the peers, with the default hash, and one getter per peer at peer + basePath |
| HttpPool.HTTPPool.PickPeer | geecache/http.go:146-154 | A getter iff the ring owner is non-empty and not self; it is the owner's getter, never self's |
| HttpPool.HTTPPool.Picker | geecache/http.go:146-156 | The pool as a peer picker agrees with PickPeer on every key |
| HttpPool.HTTPPool.OnlySelfServesLocally | geecache/http.go:149-153 | A ring of only this peer never picks a remote peer |
| HttpPool.HTTPPool.ServeHTTP | geecache/http.go:53-83 | Panic outside the base path, 400 without a group/key split, 404 for an unknown group; otherwise the group's Get as Answer states it. Every registered group stays well formed, and every other group keeps its call log and, unless it shares the served cache, its cache |

## Left out

- Concurrency is not modelled: goroutines, `sync.Mutex` and `sync.RWMutex`, and the request coalescing of `geecache/singleflight/singleflight.go`. `load` calls its closure directly, once.
- Network I/O and wire encoding are not modelled: `httpGetter.Get`, `http.Get`, `ioutil.ReadAll`, response headers and body, `proto.Marshal`/`Unmarshal`, `url.QueryEscape`. A peer fetch is the parameter `Transport`, a function of the getter and the (group, key) request.
- The `proto.Marshal` error branch of `ServeHTTP` (http.go:85-89) is not modelled: a value read from a group is answered as `Reply.Success`.
- Lru.Size: an entry is charged one byte per character of its key and value. Go's `len(key)` counts the key's UTF-8 bytes, so for a non-ASCII key the model's `nbytes`, and with it the eviction decisions, differ from the program's.
- Lru.Cache.constructor: `OnEvicted` is fixed when the cache is built (`hasOnEvicted` is a constant). Go exports the field, and a caller may reassign it later; the model does not capture that.
- CRC-32 is not modelled: the default hash is the parameter `checksum` of the ring and the pool. A hash reads the characters of a string as its bytes, so multibyte UTF-8 is not modelled.
- Logging and debug printing (`log.Printf`, `fmt.Printf`, `HTTPPool.Log`) are left out; they have no effect on state.
- `cache.go` and `byteview.go` are not part of this model. The main cache is an `Lru.Cache` built when the group is, with no eviction callback. A `ByteView` is its bytes, and `cloneBytes` is the identity on values.
- `lru.Value` is not generic: values are byte sequences, whose `Len` is their length.
- Lru.Cache.constructor: requires `maxBytes >= 0`. With a negative bound, Go's eviction loop never ends once the list is empty.
- GeeCache.Group.constructor and GeeCache.Registry.NewGroup: require `cacheBytes >= 0`, for the same reason.
- Integer widths are not modelled: `nbytes` and `maxBytes` are unbounded rather than `int64`, and the ring's positions are `int`.
- HttpPool.HTTPPool.PickPeer: requires `Set` to have run. Before that, the Go code dereferences a nil ring.
- HttpPool.HTTPPool.Picker: a registered `PeerPicker` is a snapshot of the pool's ring and getters. A later `Set` is not seen through it.
- HttpPool.HTTPPool.ServeHTTP: the group registry is a parameter, not a package variable. The method requires every registered group to be well formed.
- Panics (`RegisterPeers` twice, `NewGroup` without a getter, a path outside the base path) are results: `false`, `null`, `Reply.Panic`.
- Loops are split into helper methods: `Lru.Cache.Add` into `Insert` and `Evict`, `ConsistentHash.Map.Add` into `AddReplicas` and `AddAll`, `HTTPPool.Set` into `NewRing` and `NewGetters`, and the found-group branch of `ServeHTTP` into `Answer`.
