/**
 * The consistent-hash ring of geecache/consistenthash: every real node is
 * placed on a 32-bit circle as `replicas` virtual nodes, and a key belongs
 * to the node of the first virtual node at or after the key's hash,
 * wrapping round to the smallest one.
 */
module ConsistentHash {
  import opened Types

  /** Values of a Go `uint32`. */
  type uint32 = x: int | 0 <= x < 0x1_0000_0000

  /**
   * `Hash` maps the bytes of a string to a 32-bit value; a string's bytes
   * are its characters here.
   */
  type Hash = string -> uint32

  // ---------------------------------------------------------------------
  // strconv.Itoa on the replica index
  // ---------------------------------------------------------------------

  predicate IsDigit(c: char)
  {
    48 <= c as int <= 57
  }

  function Digit(d: nat): (c: char)
    requires d < 10
    ensures IsDigit(c)
  {
    (48 + d) as char
  }

  /** Decimal notation of a non-negative integer, as strconv.Itoa writes it. */
  function Itoa(n: nat): (s: string)
    ensures 1 <= |s|
    ensures forall c | c in s :: IsDigit(c)
    ensures |s| > 1 ==> s[0] != '0'
    decreases n
  {
    if n < 10 then [Digit(n)] else Itoa(n / 10) + [Digit(n % 10)]
  }

  /** The value of a string of decimal digits. */
  function Atoi(s: string): nat
    requires forall c | c in s :: IsDigit(c)
  {
    if s == [] then 0
    else
      assert forall c | c in s[..|s| - 1] :: c in s;
      assert s[|s| - 1] in s && IsDigit(s[|s| - 1]);
      10 * Atoi(s[..|s| - 1]) + (s[|s| - 1] as int - 48)
  }

  /** Reading back the decimal notation gives the number. */
  lemma {:induction false} AtoiItoa(n: nat)
    ensures Atoi(Itoa(n)) == n
  {
    if n >= 10 {
      AtoiItoa(n / 10);
      var s := Itoa(n);
      assert s[..|s| - 1] == Itoa(n / 10);
    }
  }

  /** Distinct replica indexes have distinct decimal notations. */
  lemma ItoaInjective(a: nat, b: nat)
    ensures Itoa(a) == Itoa(b) ==> a == b
  {
    AtoiItoa(a);
    AtoiItoa(b);
  }

  /**
   * Only the prefix is decimal: two (index, node) pairs can still spell the
   * same string, so two virtual nodes can share a hash whatever the hash.
   */
  lemma NamesCanCollide()
    ensures Itoa(1) + "2x" == Itoa(12) + "x"
  {
  }

  // ---------------------------------------------------------------------
  // sort.Ints and sort.Search
  // ---------------------------------------------------------------------

  predicate Sorted(s: seq<int>)
  {
    forall i, j | 0 <= i < j < |s| :: s[i] <= s[j]
  }

  function InsertSorted(x: int, s: seq<int>): (r: seq<int>)
    requires Sorted(s)
    ensures Sorted(r)
    ensures multiset(r) == multiset(s) + multiset{x}
    ensures |r| == |s| + 1
    ensures r[0] == if s == [] || x <= s[0] then x else s[0]
  {
    if s == [] || x <= s[0] then [x] + s
    else
      assert s == [s[0]] + s[1..];
      [s[0]] + InsertSorted(x, s[1..])
  }

  /** sort.Ints: the same integers in non-decreasing order. */
  function SortInts(s: seq<int>): (r: seq<int>)
    ensures Sorted(r)
    ensures multiset(r) == multiset(s)
    ensures |r| == |s|
  {
    if s == [] then []
    else
      assert s == s[..|s| - 1] + [s[|s| - 1]];
      InsertSorted(s[|s| - 1], SortInts(s[..|s| - 1]))
  }

  /** The loop of sort.Search, searching [lo, hi) for the first index whose key reaches h. */
  function SearchIn(keys: seq<int>, h: int, lo: nat, hi: nat): (idx: nat)
    requires Sorted(keys) && lo <= hi <= |keys|
    requires forall j | 0 <= j < lo :: keys[j] < h
    requires forall j | hi <= j < |keys| :: keys[j] >= h
    ensures lo <= idx <= hi
    ensures forall j | 0 <= j < idx :: keys[j] < h
    ensures forall j | idx <= j < |keys| :: keys[j] >= h
    decreases hi - lo
  {
    if lo == hi then lo
    else
      var mid := (lo + hi) / 2;
      if keys[mid] >= h then SearchIn(keys, h, lo, mid) else SearchIn(keys, h, mid + 1, hi)
  }

  /**
   * `sort.Search(len(keys), func(i) { keys[i] >= h })`: the least index
   * whose key is at least h, or len(keys) when there is none.
   */
  function Search(keys: seq<int>, h: int): (idx: nat)
    requires Sorted(keys)
    ensures idx <= |keys|
    ensures forall j | 0 <= j < idx :: keys[j] < h
    ensures forall j | idx <= j < |keys| :: keys[j] >= h
  {
    SearchIn(keys, h, 0, |keys|)
  }

  // ---------------------------------------------------------------------
  // The ring lookup, stated independently of the search
  // ---------------------------------------------------------------------

  /**
   * The virtual node that serves hash h: the smallest position at or after
   * h, or, when every position is before h, the smallest position of all.
   */
  ghost predicate Serves(keys: seq<int>, h: int, v: int)
  {
    v in keys &&
    ((h <= v && forall w | w in keys && h <= w :: v <= w) ||
     ((forall w | w in keys :: w < h) && forall w | w in keys :: v <= w))
  }

  /** At most one virtual node serves a hash. */
  lemma ServesUnique(keys: seq<int>, h: int, v: int, w: int)
    requires Serves(keys, h, v) && Serves(keys, h, w)
    ensures v == w
  {
  }

  /** A virtual node that serves h on a ring still serves it on any sub-ring holding it. */
  lemma ServesSubset(big: seq<int>, small: seq<int>, h: int, v: int)
    requires Serves(big, h, v) && v in small
    requires forall w | w in small :: w in big
    ensures Serves(small, h, v)
  {
  }

  /** The node a Go map lookup gives: the stored name, or "" when absent. */
  function At(hashMap: map<int, string>, v: int): string
  {
    if v in hashMap then hashMap[v] else ""
  }

  /** The modulo in Get wraps exactly the one-past-the-end index round to 0. */
  lemma Wrap(idx: nat, n: nat)
    requires 0 < n && idx <= n
    ensures idx % n == if idx == n then 0 else idx
  {
  }

  /** On a non-empty sorted ring, the slot Get reads, `keys[Search % len(keys)]`, serves h. */
  lemma SlotServes(keys: seq<int>, h: int)
    requires Sorted(keys) && keys != []
    ensures Serves(keys, h, keys[Search(keys, h) % |keys|])
  {
    var idx := Search(keys, h);
    Wrap(idx, |keys|);
    if idx == |keys| {
      var v := keys[0];
      assert forall w | w in keys :: w < h && v <= w by {
        forall w | w in keys ensures w < h && v <= w {
          var j :| 0 <= j < |keys| && keys[j] == w;
          assert j == 0 || Sorted(keys);
        }
      }
    } else {
      var v := keys[idx];
      assert forall w | w in keys && h <= w :: v <= w by {
        forall w | w in keys && h <= w ensures v <= w {
          var j :| 0 <= j < |keys| && keys[j] == w;
          assert idx <= j;
          assert j == idx || keys[idx] <= keys[j];
        }
      }
    }
  }

  /**
   * The body of `Map.Get` on the ring's fields: "" on an empty ring,
   * otherwise the node of `keys[Search % len(keys)]`.
   */
  function Owner(keys: seq<int>, hashMap: map<int, string>, h: int): (node: string)
    requires Sorted(keys)
    ensures keys == [] ==> node == ""
    ensures forall v | Serves(keys, h, v) :: node == At(hashMap, v)
  {
    if |keys| == 0 then ""
    else
      var v := keys[Search(keys, h) % |keys|];
      SlotServes(keys, h);
      assert forall w | Serves(keys, h, w) :: w == v by {
        forall w | Serves(keys, h, w) ensures w == v {
          ServesUnique(keys, h, v, w);
        }
      }
      At(hashMap, v)
  }

  // ---------------------------------------------------------------------
  // Virtual nodes
  // ---------------------------------------------------------------------

  /** Number of virtual nodes per real node: the replica loop runs max(replicas, 0) times. */
  function Count(replicas: int): (n: nat)
    ensures replicas > 0 ==> n == replicas
    ensures replicas <= 0 ==> n == 0
  {
    if replicas > 0 then replicas else 0
  }

  /** Positions of the first n virtual nodes of a node, in loop order. */
  function Row(hash: Hash, node: string, n: nat): (r: seq<int>)
    ensures |r| == n
  {
    if n == 0 then [] else Row(hash, node, n - 1) + [hash(Itoa(n - 1) + node)]
  }

  /** Virtual node i of a node sits at the hash of the decimal index followed by the node name. */
  lemma {:induction false} RowAt(hash: Hash, node: string, n: nat, i: nat)
    requires i < n
    ensures Row(hash, node, n)[i] == hash(Itoa(i) + node)
  {
    if i < n - 1 {
      RowAt(hash, node, n - 1, i);
    }
  }

  /** Positions appended by adding the given nodes with k replicas each, in loop order. */
  function VirtualHashes(hash: Hash, k: nat, nodes: seq<string>): seq<int>
  {
    if nodes == [] then []
    else VirtualHashes(hash, k, nodes[..|nodes| - 1]) + Row(hash, nodes[|nodes| - 1], k)
  }

  /** Adding nodes appends exactly k positions per node. */
  lemma {:induction false} VirtualHashesLength(hash: Hash, k: nat, nodes: seq<string>)
    ensures |VirtualHashes(hash, k, nodes)| == k * |nodes|
  {
    if nodes != [] {
      VirtualHashesLength(hash, k, nodes[..|nodes| - 1]);
      assert k * |nodes| == k * (|nodes| - 1) + k;
    }
  }

  /**
   * Add does not keep positions distinct, whatever the hash: with 13
   * replicas, node "2x" (index 1) and node "x" (index 12) both place a
   * virtual node at the hash of "12x".
   */
  lemma RingCanRepeat(hash: Hash)
    ensures var vh := VirtualHashes(hash, 13, ["2x", "x"]);
      |vh| == 26 && vh[1] == vh[25]
  {
    var nodes := ["2x", "x"];
    assert nodes[..1] == ["2x"] && ["2x"][..0] == [];
    RowAt(hash, "2x", 13, 1);
    RowAt(hash, "x", 13, 12);
    NamesCanCollide();
  }

  /** `base` followed by the first n virtual positions of a node, as the replica loop appends them. */
  function Extend(base: seq<int>, hash: Hash, node: string, n: nat): seq<int>
  {
    if n == 0 then base else Extend(base, hash, node, n - 1) + [hash(Itoa(n - 1) + node)]
  }

  /** `base` followed by the virtual positions of all the nodes, as the node loop appends them. */
  function ExtendAll(base: seq<int>, hash: Hash, k: nat, nodes: seq<string>): seq<int>
  {
    if nodes == [] then base
    else Extend(ExtendAll(base, hash, k, nodes[..|nodes| - 1]), hash, nodes[|nodes| - 1], k)
  }

  lemma {:induction false} ExtendIsConcat(base: seq<int>, hash: Hash, node: string, n: nat)
    ensures Extend(base, hash, node, n) == base + Row(hash, node, n)
  {
    if n > 0 {
      ExtendIsConcat(base, hash, node, n - 1);
    }
  }

  lemma {:induction false} ExtendAllIsConcat(base: seq<int>, hash: Hash, k: nat, nodes: seq<string>)
    ensures ExtendAll(base, hash, k, nodes) == base + VirtualHashes(hash, k, nodes)
  {
    if nodes != [] {
      var init := nodes[..|nodes| - 1];
      ExtendAllIsConcat(base, hash, k, init);
      ExtendIsConcat(ExtendAll(base, hash, k, init), hash, nodes[|nodes| - 1], k);
    }
  }

  /** hashMap after the first n virtual nodes of one node were written. */
  function PlaceRow(m: map<int, string>, hash: Hash, node: string, n: nat): map<int, string>
  {
    if n == 0 then m else PlaceRow(m, hash, node, n - 1)[hash(Itoa(n - 1) + node) := node]
  }

  /** hashMap after all the nodes were written: on a shared position the later write wins. */
  function Place(m: map<int, string>, hash: Hash, k: nat, nodes: seq<string>): map<int, string>
  {
    if nodes == [] then m
    else PlaceRow(Place(m, hash, k, nodes[..|nodes| - 1]), hash, nodes[|nodes| - 1], k)
  }

  /** Writing a row adds exactly its positions, each naming the node; other positions keep theirs. */
  lemma {:induction false} PlaceRowFacts(m: map<int, string>, hash: Hash, node: string, n: nat)
    ensures PlaceRow(m, hash, node, n).Keys == m.Keys + set v | v in Row(hash, node, n)
    ensures forall v | v in Row(hash, node, n) :: PlaceRow(m, hash, node, n)[v] == node
    ensures forall v | v in m && v !in Row(hash, node, n) :: PlaceRow(m, hash, node, n)[v] == m[v]
  {
    if n > 0 {
      PlaceRowFacts(m, hash, node, n - 1);
      var r := Row(hash, node, n);
      assert r == Row(hash, node, n - 1) + [hash(Itoa(n - 1) + node)];
    }
  }

  /**
   * Writing all the nodes adds exactly the virtual positions, each naming one
   * of the nodes; the positions not written keep their old node.
   */
  lemma {:induction false} PlaceFacts(m: map<int, string>, hash: Hash, k: nat, nodes: seq<string>)
    ensures Place(m, hash, k, nodes).Keys == m.Keys + set v | v in VirtualHashes(hash, k, nodes)
    ensures forall v | v in VirtualHashes(hash, k, nodes) :: Place(m, hash, k, nodes)[v] in nodes
    ensures forall v | v in m && v !in VirtualHashes(hash, k, nodes) :: Place(m, hash, k, nodes)[v] == m[v]
  {
    if nodes != [] {
      var init := nodes[..|nodes| - 1];
      var last := nodes[|nodes| - 1];
      PlaceFacts(m, hash, k, init);
      PlaceRowFacts(Place(m, hash, k, init), hash, last, k);
      var p := Place(m, hash, k, nodes);
      var vh := VirtualHashes(hash, k, nodes);
      assert vh == VirtualHashes(hash, k, init) + Row(hash, last, k);
      forall v | v in vh ensures p[v] in nodes {
        if v !in Row(hash, last, k) {
          var x := Place(m, hash, k, init)[v];
          assert x in init;
          var j :| 0 <= j < |init| && init[j] == x;
          assert nodes[j] == x;
        }
      }
    }
  }

  /**
   * On a position several nodes share, the node that wrote it last keeps it:
   * the last node in the list whose row contains the position.
   */
  lemma {:induction false} PlaceLastWriter(m: map<int, string>, hash: Hash, k: nat, nodes: seq<string>, j: nat, v: int)
    requires j < |nodes| && v in Row(hash, nodes[j], k)
    requires forall l | j < l < |nodes| :: v !in Row(hash, nodes[l], k)
    ensures v in Place(m, hash, k, nodes) && Place(m, hash, k, nodes)[v] == nodes[j]
  {
    var init := nodes[..|nodes| - 1];
    var last := nodes[|nodes| - 1];
    PlaceRowFacts(Place(m, hash, k, init), hash, last, k);
    if j < |nodes| - 1 {
      assert init[j] == nodes[j];
      forall l | j < l < |init| ensures v !in Row(hash, init[l], k) {
        assert init[l] == nodes[l];
      }
      PlaceLastWriter(m, hash, k, init, j, v);
    }
  }

  /**
   * Adding nodes moves a hash only onto one of the added nodes: on a
   * non-empty ring, every hash keeps its owner unless the new owner is new.
   */
  lemma {:induction false} AddMovesOnlyToNewNodes(keys: seq<int>, m: map<int, string>, hash: Hash, k: nat, nodes: seq<string>, h: int)
    requires Sorted(keys) && keys != []
    requires forall v :: v in keys <==> v in m
    ensures
      var keys' := SortInts(keys + VirtualHashes(hash, k, nodes));
      var owner' := Owner(keys', Place(m, hash, k, nodes), h);
      owner' == Owner(keys, m, h) || owner' in nodes
  {
    var vh := VirtualHashes(hash, k, nodes);
    var keys' := SortInts(keys + vh);
    var m' := Place(m, hash, k, nodes);
    PlaceFacts(m, hash, k, nodes);
    assert keys' != [] by {
      assert keys[0] in multiset(keys + vh);
    }
    SlotServes(keys', h);
    var v := keys'[Search(keys', h) % |keys'|];
    assert v in multiset(keys + vh);
    if v in vh {
      assert Owner(keys', m', h) == At(m', v) == m'[v];
    } else {
      assert v in keys;
      forall w | w in keys ensures w in keys' {
        assert w in multiset(keys + vh);
      }
      ServesSubset(keys', keys, h, v);
      assert Owner(keys, m, h) == m[v] == m'[v];
    }
  }

  /** The set of positions on a ring. */
  function Elements(s: seq<int>): set<int>
  {
    if s == [] then {} else Elements(s[..|s| - 1]) + {s[|s| - 1]}
  }

  lemma {:induction false} ElementsIn(s: seq<int>)
    ensures forall v :: v in Elements(s) <==> v in s
  {
    if s != [] {
      ElementsIn(s[..|s| - 1]);
      assert s == s[..|s| - 1] + [s[|s| - 1]];
    }
  }

  /**
   * A well-formed ring: positions sorted, exactly the positions the map
   * knows, and every position naming a node of the set.
   */
  ghost predicate Ring(keys: seq<int>, hashMap: map<int, string>, nodes: set<string>)
  {
    Sorted(keys) && hashMap.Keys == Elements(keys) && hashMap.Values <= nodes
  }

  /** After adding, the sorted positions are exactly the positions the new map knows. */
  lemma AddKeepsKeys(keys: seq<int>, hashMap: map<int, string>, hash: Hash, k: nat, nodes: seq<string>)
    requires hashMap.Keys == Elements(keys)
    ensures Place(hashMap, hash, k, nodes).Keys == Elements(SortInts(keys + VirtualHashes(hash, k, nodes)))
  {
    var vh := VirtualHashes(hash, k, nodes);
    var keys' := SortInts(keys + vh);
    var m' := Place(hashMap, hash, k, nodes);
    PlaceFacts(hashMap, hash, k, nodes);
    ElementsIn(keys);
    ElementsIn(keys');
    forall v ensures v in m'.Keys <==> v in Elements(keys') {
      assert v in keys' <==> v in multiset(keys + vh);
      assert v in multiset(keys + vh) <==> v in keys || v in vh;
    }
  }

  /** After adding, every position names an old node or one of the added ones. */
  lemma AddKeepsNames(hashMap: map<int, string>, names: set<string>, hash: Hash, k: nat, nodes: seq<string>)
    requires hashMap.Values <= names
    ensures Place(hashMap, hash, k, nodes).Values <= names + set n | n in nodes
  {
    var m' := Place(hashMap, hash, k, nodes);
    PlaceFacts(hashMap, hash, k, nodes);
    forall v | v in m' ensures m'[v] in names + set n | n in nodes {
      if v !in VirtualHashes(hash, k, nodes) {
        assert hashMap[v] in hashMap.Values;
      }
    }
  }

  /** Appending and recording the virtual nodes of more nodes, then sorting, keeps the ring well formed. */
  lemma AddKeepsRing(keys: seq<int>, hashMap: map<int, string>, names: set<string>, hash: Hash, k: nat, nodes: seq<string>)
    requires Ring(keys, hashMap, names)
    ensures Ring(SortInts(keys + VirtualHashes(hash, k, nodes)), Place(hashMap, hash, k, nodes), names + set n | n in nodes)
  {
    AddKeepsKeys(keys, hashMap, hash, k, nodes);
    AddKeepsNames(hashMap, names, hash, k, nodes);
  }

  /** The consistent-hash ring; `Nodes` is the set of every node name ever added. */
  class Map {
    const hash: Hash
    const replicas: int
    var keys: seq<int>
    var hashMap: map<int, string>
    ghost var Nodes: set<string>

    /** keys is sorted, names exactly the positions hashMap knows, and every position names an added node. */
    ghost predicate Valid()
      reads this
    {
      Ring(keys, hashMap, Nodes)
    }

    /** consistenthash.New: a missing hash function means the default checksum. */
    constructor (replicas: int, fn: Option<Hash>, checksum: Hash)
      ensures Valid()
      ensures this.replicas == replicas
      ensures fn.Some? ==> hash == fn.value
      ensures fn.None? ==> hash == checksum
      ensures keys == [] && hashMap == map[] && Nodes == {}
    {
      this.replicas := replicas;
      if fn.Some? {
        hash := fn.value;
      } else {
        hash := checksum;
      }
      keys := [];
      hashMap := map[];
      Nodes := {};
    }

    /** The inner loop of Add: append and record the virtual nodes of one node. */
    method AddReplicas(node: string)
      modifies this
      ensures keys == Extend(old(keys), hash, node, Count(replicas))
      ensures hashMap == PlaceRow(old(hashMap), hash, node, Count(replicas))
      ensures Nodes == old(Nodes)
    {
      var i := 0;
      while i < replicas
        invariant 0 <= i <= Count(replicas)
        invariant keys == Extend(old(keys), hash, node, i)
        invariant hashMap == PlaceRow(old(hashMap), hash, node, i)
        invariant Nodes == old(Nodes)
      {
        var h := hash(Itoa(i) + node);
        keys := keys + [h];
        hashMap := hashMap[h := node];
        i := i + 1;
      }
    }

    /** The node loop of Add: append and record the virtual nodes of every node, unsorted. */
    method AddAll(nodes: seq<string>)
      modifies this
      ensures keys == old(keys) + VirtualHashes(hash, Count(replicas), nodes)
      ensures hashMap == Place(old(hashMap), hash, Count(replicas), nodes)
      ensures Nodes == old(Nodes)
    {
      var j := 0;
      while j < |nodes|
        invariant 0 <= j <= |nodes|
        invariant keys == ExtendAll(old(keys), hash, Count(replicas), nodes[..j])
        invariant hashMap == Place(old(hashMap), hash, Count(replicas), nodes[..j])
        invariant Nodes == old(Nodes)
      {
        assert nodes[..j + 1][..j] == nodes[..j];
        AddReplicas(nodes[j]);
        j := j + 1;
      }
      assert nodes[..|nodes|] == nodes;
      ExtendAllIsConcat(old(keys), hash, Count(replicas), nodes);
    }

    /**
     * Add `replicas` virtual nodes per node: append each position, record
     * its node, then sort all positions.
     */
    method Add(nodes: seq<string>)
      requires Valid()
      modifies this
      ensures Valid()
      ensures Nodes == old(Nodes) + set n | n in nodes
      ensures keys == SortInts(old(keys) + VirtualHashes(hash, Count(replicas), nodes))
      ensures multiset(keys) == multiset(old(keys)) + multiset(VirtualHashes(hash, Count(replicas), nodes))
      ensures |keys| == |old(keys)| + Count(replicas) * |nodes|
      ensures hashMap == Place(old(hashMap), hash, Count(replicas), nodes)
    {
      ghost var k := Count(replicas);
      ghost var vh := VirtualHashes(hash, k, nodes);
      ghost var names := Nodes + set n | n in nodes;
      assert Ring(SortInts(keys + vh), Place(hashMap, hash, k, nodes), names) && |vh| == k * |nodes| by {
        AddKeepsRing(keys, hashMap, Nodes, hash, k, nodes);
        VirtualHashesLength(hash, k, nodes);
      }
      AddAll(nodes);
      Nodes := names;
      keys := SortInts(keys);
    }

    /** Map.Get: the node owning the key's hash; "" on an empty ring. */
    function Get(key: string): (node: string)
      reads this
      requires Valid()
      ensures keys == [] ==> node == ""
      ensures keys != [] ==> node in Nodes
      ensures forall v | Serves(keys, hash(key), v) :: v in hashMap && node == hashMap[v]
    {
      ElementsIn(keys);
      if keys != [] then
        SlotServes(keys, hash(key));
        var v := keys[Search(keys, hash(key)) % |keys|];
        assert hashMap[v] in hashMap.Values;
        Owner(keys, hashMap, hash(key))
      else
        Owner(keys, hashMap, hash(key))
    }
  }
}
