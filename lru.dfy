/**
 * The byte-bounded recency cache of geecache/lru/lru.go.
 *
 * The doubly linked list `ll` is a sequence whose index 0 is the list's
 * front (where `Add` puts entries) and whose last index is the list's back
 * (where `RemoveOldest` evicts). The Go map from key to list element is a
 * map from key to the value held by that element.
 */
module Lru {
  import opened Types

  /** A list element: a key and the value stored under it. */
  datatype Entry = Entry(key: string, value: Bytes)

  /** The bytes an entry is charged: len(key) + value.Len(). */
  function Size(e: Entry): nat
  {
    |e.key| + |e.value|
  }

  /** The sum of the entry sizes of a list. */
  function TotalSize(s: seq<Entry>): nat
  {
    if s == [] then 0 else TotalSize(s[..|s| - 1]) + Size(s[|s| - 1])
  }

  lemma {:induction false} TotalSizeAppend(a: seq<Entry>, b: seq<Entry>)
    ensures TotalSize(a + b) == TotalSize(a) + TotalSize(b)
    decreases |b|
  {
    if b == [] {
      assert a + b == a;
    } else {
      var b' := b[..|b| - 1];
      assert (a + b)[..|a + b| - 1] == a + b';
      TotalSizeAppend(a, b');
    }
  }

  /** No key occurs twice in the list. */
  predicate NoDupKeys(s: seq<Entry>)
  {
    forall i, j :: 0 <= i < j < |s| ==> s[i].key != s[j].key
  }

  function KeysOf(s: seq<Entry>): set<string>
  {
    set e | e in s :: e.key
  }

  /** The map `cache` indexes exactly the entries of the list. */
  predicate Indexes(cache: map<string, Bytes>, s: seq<Entry>)
  {
    (forall e :: e in s ==> e.key in cache && cache[e.key] == e.value) &&
    (forall k :: k in cache ==> k in KeysOf(s))
  }

  /** The map from key to value that a list of entries with distinct keys describes. */
  function IndexOf(s: seq<Entry>): map<string, Bytes>
  {
    if s == [] then map[] else IndexOf(s[..|s| - 1])[s[|s| - 1].key := s[|s| - 1].value]
  }

  /** Position of the first entry with the given key, or -1 when there is none. */
  function Find(s: seq<Entry>, key: string): (i: int)
    ensures -1 <= i < |s|
    ensures i >= 0 ==> s[i].key == key && forall j :: 0 <= j < i ==> s[j].key != key
    ensures i == -1 <==> key !in KeysOf(s)
  {
    if s == [] then -1
    else if s[0].key == key then 0
    else
      var i := Find(s[1..], key);
      assert forall e :: e in s && e != s[0] ==> e in s[1..];
      if i == -1 then -1 else i + 1
  }

  /** The list without position i. */
  function Without(s: seq<Entry>, i: nat): seq<Entry>
    requires i < |s|
  {
    s[..i] + s[i + 1..]
  }

  /** `list.MoveToBack`: the element at position i goes to the eviction end. */
  function MoveToBack(s: seq<Entry>, i: nat): seq<Entry>
    requires i < |s|
  {
    Without(s, i) + [s[i]]
  }

  /**
   * The list after the first half of `Add`: an existing key is moved to the
   * front and given the new value; a new key is pushed on the front.
   */
  function Upsert(s: seq<Entry>, key: string, value: Bytes): seq<Entry>
  {
    var i := Find(s, key);
    if i >= 0 then [Entry(key, value)] + Without(s, i) else [Entry(key, value)] + s
  }

  /** The guard of `Add`'s eviction loop, on a list whose sizes add up to nbytes. */
  predicate Over(s: seq<Entry>, maxBytes: int)
  {
    maxBytes != 0 && maxBytes < TotalSize(s)
  }

  /** What `Add`'s eviction loop leaves: the list with back entries dropped while over the bound. */
  function Trim(s: seq<Entry>, maxBytes: int): seq<Entry>
    requires maxBytes >= 0
    decreases |s|
  {
    if Over(s, maxBytes) then
      assert s != [];
      Trim(s[..|s| - 1], maxBytes)
    else s
  }

  /** The entries `Add`'s eviction loop removes, in the order it removes them. */
  function Evicted(s: seq<Entry>, maxBytes: int): seq<Entry>
    requires maxBytes >= 0
    decreases |s|
  {
    if Over(s, maxBytes) then
      assert s != [];
      [s[|s| - 1]] + Evicted(s[..|s| - 1], maxBytes)
    else []
  }

  // ---------------------------------------------------------------------
  // Properties of the list operations
  // ---------------------------------------------------------------------

  lemma {:induction false} TotalSizePrepend(e: Entry, s: seq<Entry>)
    ensures TotalSize([e] + s) == Size(e) + TotalSize(s)
  {
    TotalSizeAppend([e], s);
    assert [e][..0] == [];
  }

  lemma {:induction false} TotalSizeWithout(s: seq<Entry>, i: nat)
    requires i < |s|
    ensures TotalSize(Without(s, i)) == TotalSize(s) - Size(s[i])
  {
    assert s == s[..i] + [s[i]] + s[i + 1..];
    TotalSizeAppend(s[..i] + [s[i]], s[i + 1..]);
    TotalSizeAppend(s[..i], [s[i]]);
    TotalSizeAppend(s[..i], s[i + 1..]);
    assert [s[i]][..0] == [];
  }

  /** Distinct keys: the key set has exactly one key per entry. */
  lemma {:induction false} KeyCount(s: seq<Entry>)
    requires NoDupKeys(s)
    ensures |KeysOf(s)| == |s|
  {
    if s != [] {
      var t := s[1..];
      assert NoDupKeys(t);
      KeyCount(t);
      forall e | e in t ensures e.key != s[0].key {
        var j :| 0 <= j < |t| && t[j] == e;
        assert s[j + 1] == e;
      }
      KeysOfCons(s);
    }
  }

  lemma KeysOfCons(s: seq<Entry>)
    requires s != []
    ensures KeysOf(s) == {s[0].key} + KeysOf(s[1..])
  {
    forall k | k in KeysOf(s) ensures k in {s[0].key} + KeysOf(s[1..]) {
      var e :| e in s && e.key == k;
      if e != s[0] {
        var j :| 0 <= j < |s| && s[j] == e;
        assert s[1..][j - 1] == e;
      }
    }
    forall k | k in KeysOf(s[1..]) ensures k in KeysOf(s) {
      var e :| e in s[1..] && e.key == k;
      assert e in s;
    }
    assert s[0] in s;
  }

  lemma WithoutElements(s: seq<Entry>, i: nat)
    requires i < |s|
    ensures forall e :: e in Without(s, i) ==> e in s
    ensures forall e :: e in s ==> e in Without(s, i) || e == s[i]
  {
    assert s == s[..i] + [s[i]] + s[i + 1..];
  }

  lemma {:induction false} WithoutNoDup(s: seq<Entry>, i: nat)
    requires i < |s| && NoDupKeys(s)
    ensures NoDupKeys(Without(s, i))
    ensures KeysOf(Without(s, i)) == KeysOf(s) - {s[i].key}
  {
    var w := Without(s, i);
    assert |w| == |s| - 1;
    assert forall j :: 0 <= j < |w| ==> w[j] == if j < i then s[j] else s[j + 1];
    WithoutElements(s, i);
    forall k | k in KeysOf(s) - {s[i].key} ensures k in KeysOf(w) {
      var e :| e in s && e.key == k;
    }
    forall k | k in KeysOf(w) ensures k in KeysOf(s) - {s[i].key} {
      var e :| e in w && e.key == k;
      var j :| 0 <= j < |w| && w[j] == e;
    }
  }

  /**
   * `Get` exposes the entry it reads: after `MoveToBack` the read entry is
   * the back one, the next to be evicted, and the other entries keep their
   * relative order.
   */
  lemma {:induction false} MoveToBackExposes(s: seq<Entry>, i: nat)
    requires i < |s| && NoDupKeys(s)
    ensures var m := MoveToBack(s, i);
      |m| == |s| && m[|m| - 1] == s[i] && m[..|m| - 1] == Without(s, i) &&
      NoDupKeys(m) && KeysOf(m) == KeysOf(s) && TotalSize(m) == TotalSize(s) &&
      (forall e :: e in m <==> e in s)
  {
    WithoutElements(s, i);
    var m := MoveToBack(s, i);
    WithoutNoDup(s, i);
    assert m[..|m| - 1] == Without(s, i);
    TotalSizeWithout(s, i);
    assert NoDupKeys(m) by {
      forall a, b | 0 <= a < b < |m| ensures m[a].key != m[b].key {
        if b == |m| - 1 {
          assert m[a] in Without(s, i);
        }
      }
    }
  }

  /** Adding a new key: pushed on the front, its full size is added, one more entry. */
  lemma {:induction false} UpsertNew(s: seq<Entry>, key: string, value: Bytes)
    requires key !in KeysOf(s)
    ensures Upsert(s, key, value) == [Entry(key, value)] + s
    ensures |Upsert(s, key, value)| == |s| + 1
    ensures TotalSize(Upsert(s, key, value)) == TotalSize(s) + |key| + |value|
    ensures KeysOf(Upsert(s, key, value)) == KeysOf(s) + {key}
  {
    TotalSizePrepend(Entry(key, value), s);
    var u := [Entry(key, value)] + s;
    forall k | k in KeysOf(u) ensures k in KeysOf(s) + {key} {
      var e :| e in u && e.key == k;
    }
  }

  /**
   * Updating an existing key: the key set and length stay, the entry is at
   * the front with the new value, and the size changes by the value delta.
   */
  lemma {:induction false} UpsertExisting(s: seq<Entry>, key: string, value: Bytes)
    requires key in KeysOf(s) && NoDupKeys(s)
    ensures var i := Find(s, key);
      0 <= i &&
      Upsert(s, key, value)[0] == Entry(key, value) &&
      |Upsert(s, key, value)| == |s| &&
      KeysOf(Upsert(s, key, value)) == KeysOf(s) &&
      TotalSize(Upsert(s, key, value)) == TotalSize(s) + |value| - |s[i].value|
  {
    var i := Find(s, key);
    var u := Upsert(s, key, value);
    TotalSizePrepend(Entry(key, value), Without(s, i));
    TotalSizeWithout(s, i);
    WithoutNoDup(s, i);
    forall k | k in KeysOf(u) ensures k in KeysOf(s) {
      var e :| e in u && e.key == k;
      if e != u[0] { assert e in Without(s, i); }
    }
    forall k | k in KeysOf(s) ensures k in KeysOf(u) {
      if k != key {
        assert k in KeysOf(Without(s, i));
        var e :| e in Without(s, i) && e.key == k;
        assert e in u;
      } else {
        assert u[0] in u;
      }
    }
  }

  lemma {:induction false} UpsertNoDup(s: seq<Entry>, key: string, value: Bytes)
    requires NoDupKeys(s)
    ensures NoDupKeys(Upsert(s, key, value))
  {
    var i := Find(s, key);
    var u := Upsert(s, key, value);
    var rest := if i >= 0 then Without(s, i) else s;
    assert u == [Entry(key, value)] + rest;
    if i >= 0 { WithoutNoDup(s, i); }
    assert key !in KeysOf(rest);
    forall a, b | 0 <= a < b < |u| ensures u[a].key != u[b].key {
      if a == 0 {
        assert u[b] in rest;
      } else {
        assert u[a] == rest[a - 1] && u[b] == rest[b - 1];
      }
    }
  }

  // ---------------------------------------------------------------------
  // Properties of eviction
  // ---------------------------------------------------------------------

  /** After eviction the bound holds; with maxBytes == 0 nothing is evicted. */
  lemma {:induction false} TrimWithinBound(s: seq<Entry>, maxBytes: int)
    requires maxBytes >= 0
    ensures maxBytes != 0 ==> TotalSize(Trim(s, maxBytes)) <= maxBytes
    ensures maxBytes == 0 ==> Trim(s, maxBytes) == s && Evicted(s, maxBytes) == []
    decreases |s|
  {
    if Over(s, maxBytes) {
      TrimWithinBound(s[..|s| - 1], maxBytes);
    }
  }

  /**
   * Eviction takes entries from the back only: what stays is a prefix of the
   * list, and the evicted entries are the rest, back entry first.
   */
  lemma {:induction false} TrimShape(s: seq<Entry>, maxBytes: int)
    requires maxBytes >= 0
    ensures var t := Trim(s, maxBytes);
      var ev := Evicted(s, maxBytes);
      |t| <= |s| && t == s[..|t|] && |ev| == |s| - |t| &&
      forall j :: 0 <= j < |ev| ==> ev[j] == s[|s| - 1 - j]
    decreases |s|
  {
    if Over(s, maxBytes) {
      var s' := s[..|s| - 1];
      TrimShape(s', maxBytes);
      var ev := Evicted(s, maxBytes);
      var ev' := Evicted(s', maxBytes);
      assert ev == [s[|s| - 1]] + ev';
      forall j | 0 <= j < |ev| ensures ev[j] == s[|s| - 1 - j] {
        if j > 0 { assert ev[j] == ev'[j - 1]; }
      }
    }
  }

  /**
   * Eviction stops as soon as the bound holds: when something was evicted,
   * keeping the last evicted entry as well would still be over the bound.
   */
  lemma {:induction false} TrimMinimal(s: seq<Entry>, maxBytes: int)
    requires maxBytes >= 0
    ensures var t := Trim(s, maxBytes);
      |t| < |s| ==> Over(s[..|t| + 1], maxBytes)
    decreases |s|
  {
    if Over(s, maxBytes) {
      var s' := s[..|s| - 1];
      TrimMinimal(s', maxBytes);
      TrimShape(s', maxBytes);
      var t := Trim(s', maxBytes);
      if |t| < |s'| {
        assert s'[..|t| + 1] == s[..|t| + 1];
      } else {
        assert t == s';
        assert s[..|t| + 1] == s;
      }
    }
  }

  /** An entry that fits the bound on its own survives eviction when it is at the front. */
  lemma {:induction false} TrimKeepsFront(s: seq<Entry>, maxBytes: int)
    requires maxBytes >= 0 && s != []
    requires maxBytes == 0 || Size(s[0]) <= maxBytes
    ensures Trim(s, maxBytes) != [] && Trim(s, maxBytes)[0] == s[0]
    decreases |s|
  {
    assert |s| == 1 ==> TotalSize(s) == Size(s[0]) by {
      if |s| == 1 { assert s[..0] == []; }
    }
    if Over(s, maxBytes) {
      TrimKeepsFront(s[..|s| - 1], maxBytes);
    }
  }

  /** A freshly added entry is found in the cache after `Add`, unless it alone exceeds the bound. */
  lemma AddedEntryStays(s: seq<Entry>, key: string, value: Bytes, maxBytes: int)
    requires maxBytes >= 0
    requires maxBytes == 0 || |key| + |value| <= maxBytes
    ensures var t := Trim(Upsert(s, key, value), maxBytes);
      t != [] && t[0] == Entry(key, value)
  {
    var i := Find(s, key);
    assert Upsert(s, key, value)[0] == Entry(key, value);
    TrimKeepsFront(Upsert(s, key, value), maxBytes);
  }

  /** One turn of `Add`'s eviction loop: drop the back entry and carry on. */
  lemma EvictStep(s: seq<Entry>, maxBytes: int)
    requires maxBytes >= 0 && Over(s, maxBytes)
    ensures s != []
    ensures Trim(s, maxBytes) == Trim(s[..|s| - 1], maxBytes)
    ensures Evicted(s, maxBytes) == [s[|s| - 1]] + Evicted(s[..|s| - 1], maxBytes)
  {
  }

  lemma AppendShift(log: seq<Entry>, x: Entry, rest: seq<Entry>)
    ensures (log + [x]) + rest == log + ([x] + rest)
  {
  }

  /** The eviction loop stops once the list is within the bound. */
  lemma EvictStop(s: seq<Entry>, maxBytes: int)
    requires maxBytes >= 0 && !Over(s, maxBytes)
    ensures Trim(s, maxBytes) == s && Evicted(s, maxBytes) == []
  {
  }

  /** Eviction keeps distinct keys and drops exactly the evicted keys. */
  lemma PrefixNoDup(s: seq<Entry>, n: nat)
    requires n <= |s| && NoDupKeys(s)
    ensures NoDupKeys(s[..n])
  {
  }

  /** With distinct keys, IndexOf indexes exactly the entries of the list. */
  lemma {:induction false} IndexOfIndexes(s: seq<Entry>)
    requires NoDupKeys(s)
    ensures Indexes(IndexOf(s), s)
  {
    if s != [] {
      var p := s[..|s| - 1];
      var l := s[|s| - 1];
      PrefixNoDup(s, |s| - 1);
      IndexOfIndexes(p);
      assert s == p + [l];
      var m := IndexOf(s);
      forall e | e in s ensures e.key in m && m[e.key] == e.value {
        if e != l {
          var j :| 0 <= j < |s| && s[j] == e;
          assert j < |s| - 1 && p[j] == e;
        }
      }
      forall k | k in m ensures k in KeysOf(s) {
        if k == l.key {
          assert l in s;
        } else {
          var e :| e in p && e.key == k;
          assert e in s;
        }
      }
    }
  }

  /** A map that indexes a list with distinct keys is that list's IndexOf. */
  lemma IndexesUnique(cache: map<string, Bytes>, s: seq<Entry>)
    requires Indexes(cache, s) && NoDupKeys(s)
    ensures cache == IndexOf(s)
  {
    IndexOfIndexes(s);
    var m := IndexOf(s);
    forall k | k in cache ensures k in m && m[k] == cache[k] {
      var e :| e in s && e.key == k;
    }
    forall k | k in m ensures k in cache {
      var e :| e in s && e.key == k;
    }
  }

  lemma IndexesSameEntries(cache: map<string, Bytes>, s: seq<Entry>, t: seq<Entry>)
    requires Indexes(cache, s)
    requires forall e :: e in t <==> e in s
    ensures Indexes(cache, t)
  {
    forall k | k in cache ensures k in KeysOf(t) {
      var e :| e in s && e.key == k;
    }
  }

  lemma {:induction false} UpsertAgreesExisting(cache: map<string, Bytes>, s: seq<Entry>, key: string, value: Bytes)
    requires Indexes(cache, s) && NoDupKeys(s) && key in cache
    ensures Indexes(cache[key := value], Upsert(s, key, value))
  {
    var i := Find(s, key);
    assert key in KeysOf(s);
    var w := Without(s, i);
    assert Upsert(s, key, value) == [Entry(key, value)] + w;
    WithoutElements(s, i);
    WithoutNoDup(s, i);
    forall e | e in w ensures e.key != key {
      assert e.key in KeysOf(w);
    }
    PrependAgrees(cache, w, key, value);
  }

  /** Pushing a new entry for `key` on a list that does not hold it. */
  lemma PrependAgrees(cache: map<string, Bytes>, w: seq<Entry>, key: string, value: Bytes)
    requires forall e :: e in w ==> e.key in cache && cache[e.key] == e.value && e.key != key
    requires forall k :: k in cache && k != key ==> k in KeysOf(w)
    ensures Indexes(cache[key := value], [Entry(key, value)] + w)
  {
    var u := [Entry(key, value)] + w;
    var c := cache[key := value];
    forall e | e in u ensures e.key in c && c[e.key] == e.value {
      if e != u[0] { assert e in w; }
    }
    forall k | k in c ensures k in KeysOf(u) {
      if k == key {
        assert u[0] in u;
      } else {
        var e :| e in w && e.key == k;
        assert e in u;
      }
    }
  }

  lemma {:induction false} UpsertAgreesNew(cache: map<string, Bytes>, s: seq<Entry>, key: string, value: Bytes)
    requires Indexes(cache, s) && key !in cache
    ensures Indexes(cache[key := value], Upsert(s, key, value))
  {
    assert key !in KeysOf(s);
    assert Upsert(s, key, value) == [Entry(key, value)] + s;
    PrependAgrees(cache, s, key, value);
  }

  /** Removing the back entry of the list and its key from the map keeps them in agreement. */
  lemma DropLastAgrees(cache: map<string, Bytes>, s: seq<Entry>)
    requires Indexes(cache, s) && NoDupKeys(s) && s != []
    ensures Indexes(cache - {s[|s| - 1].key}, s[..|s| - 1])
    ensures NoDupKeys(s[..|s| - 1])
    ensures TotalSize(s[..|s| - 1]) == TotalSize(s) - Size(s[|s| - 1])
  {
    DropLastKey(cache, s);
    PrefixNoDup(s, |s| - 1);
  }

  lemma DropLastKey(cache: map<string, Bytes>, s: seq<Entry>)
    requires Indexes(cache, s) && NoDupKeys(s) && s != []
    ensures Indexes(cache - {s[|s| - 1].key}, s[..|s| - 1])
  {
    var last := s[|s| - 1];
    var rest := s[..|s| - 1];
    assert s == rest + [last];
    forall j | 0 <= j < |rest| ensures rest[j].key != last.key {
      assert rest[j] == s[j];
    }
    DropLastIndexes(cache, rest, last);
  }

  lemma DropLastIndexes(cache: map<string, Bytes>, rest: seq<Entry>, last: Entry)
    requires Indexes(cache, rest + [last])
    requires forall j :: 0 <= j < |rest| ==> rest[j].key != last.key
    ensures Indexes(cache - {last.key}, rest)
  {
    var s := rest + [last];
    var c := cache - {last.key};
    forall e | e in rest ensures e.key in c && c[e.key] == e.value {
      assert e in s;
    }
    forall k | k in c ensures k in KeysOf(rest) {
      var e :| e in s && e.key == k;
      assert e in rest;
    }
  }

  /** The first half of `Add` keeps the map, the list and the byte count in agreement. */
  lemma UpsertAgrees(cache: map<string, Bytes>, s: seq<Entry>, key: string, value: Bytes)
    requires Indexes(cache, s) && NoDupKeys(s)
    ensures var u := Upsert(s, key, value);
      NoDupKeys(u) && Indexes(cache[key := value], u) &&
      TotalSize(u) == TotalSize(s) + (if key in cache then |value| - |cache[key]| else |key| + |value|)
  {
    UpsertNoDup(s, key, value);
    if key in cache {
      assert key in KeysOf(s);
      UpsertExisting(s, key, value);
      UpsertAgreesExisting(cache, s, key, value);
      var i := Find(s, key);
      assert s[i] in s;
    } else {
      assert key !in KeysOf(s);
      UpsertNew(s, key, value);
      UpsertAgreesNew(cache, s, key, value);
    }
  }

  // ---------------------------------------------------------------------
  // The cache object
  // ---------------------------------------------------------------------

  /** lru.Cache: the values are byte payloads (the only `Value` the cache is used with). */
  class Cache {
    /** 0 means no bound. */
    const maxBytes: int
    var nbytes: int
    var ll: seq<Entry>
    var cache: map<string, Bytes>
    /** Whether an `OnEvicted` callback was registered. */
    const hasOnEvicted: bool
    /** The (key, value) pairs passed to `OnEvicted`, in call order. */
    var evictions: seq<Entry>

    /** Byte accounting and map/list agreement; holds between any two steps. */
    ghost predicate Consistent()
      reads this
    {
      maxBytes >= 0 &&
      nbytes == TotalSize(ll) &&
      NoDupKeys(ll) &&
      cache == IndexOf(ll)
    }

    /** Consistent, and within the bound; holds between any two public calls. */
    ghost predicate Valid()
      reads this
    {
      Consistent() && !Over(ll, maxBytes)
    }

    /** lru.New */
    constructor (maxBytes: int, hasOnEvicted: bool)
      requires maxBytes >= 0
      ensures Valid()
      ensures this.maxBytes == maxBytes && this.hasOnEvicted == hasOnEvicted
      ensures ll == [] && cache == map[] && nbytes == 0 && evictions == []
    {
      this.maxBytes := maxBytes;
      this.hasOnEvicted := hasOnEvicted;
      nbytes := 0;
      ll := [];
      cache := map[];
      evictions := [];
    }

    /** Look a key up; a hit moves the entry to the BACK of the list, the end eviction takes from. */
    method Get(key: string) returns (value: Bytes, ok: bool)
      requires Valid()
      modifies this
      ensures Valid()
      ensures ok <==> key in old(cache)
      ensures ok ==> value == old(cache)[key]
      ensures ok ==> 0 <= Find(old(ll), key) && ll == MoveToBack(old(ll), Find(old(ll), key))
      ensures ok ==> ll[|ll| - 1] == Entry(key, value)
      ensures cache == old(cache) && nbytes == old(nbytes) && evictions == old(evictions)
      ensures !ok ==> value == [] && ll == old(ll)
    {
      if key in cache {
        var i := Find(ll, key);
        assert 0 <= i && NoDupKeys(MoveToBack(ll, i)) && TotalSize(MoveToBack(ll, i)) == nbytes &&
          cache == IndexOf(MoveToBack(ll, i)) && MoveToBack(ll, i)[|ll| - 1] == Entry(key, cache[key]) by {
          IndexOfIndexes(ll);
          MoveToBackExposes(ll, i);
          IndexesSameEntries(cache, ll, MoveToBack(ll, i));
          IndexesUnique(cache, MoveToBack(ll, i));
        }
        value, ok := cache[key], true;
        ll := MoveToBack(ll, i);
      } else {
        value, ok := [], false;
      }
    }

    /** Evict the back entry, if any, and report it to the callback. */
    method RemoveOldest()
      requires Consistent()
      modifies this
      ensures Consistent()
      ensures old(ll) == [] ==> ll == old(ll) && cache == old(cache) && nbytes == old(nbytes) && evictions == old(evictions)
      ensures old(ll) != [] ==>
        var last := old(ll)[|old(ll)| - 1];
        ll == old(ll)[..|old(ll)| - 1] &&
        cache == old(cache) - {last.key} &&
        nbytes == old(nbytes) - Size(last) &&
        evictions == old(evictions) + (if hasOnEvicted then [last] else [])
      ensures nbytes <= old(nbytes)
    {
      if ll != [] {
        var last := ll[|ll| - 1];
        IndexOfIndexes(ll);
        DropLastAgrees(cache, ll);
        IndexesUnique(cache - {last.key}, ll[..|ll| - 1]);
        ll := ll[..|ll| - 1];
        cache := cache - {last.key};
        nbytes := nbytes - Size(last);
        if hasOnEvicted {
          evictions := evictions + [last];
        }
      }
    }

    /**
     * The first half of `Add`: an existing key is moved to the front and its
     * value replaced, a new key is pushed on the front; nbytes follows.
     */
    method Insert(key: string, value: Bytes)
      requires Consistent()
      modifies this
      ensures Consistent()
      ensures ll == Upsert(old(ll), key, value)
      ensures nbytes == old(nbytes) + if key in old(cache) then |value| - |old(cache)[key]| else |key| + |value|
      ensures cache == old(cache)[key := value] && evictions == old(evictions)
    {
      var grown := if key in cache then |value| - |cache[key]| else |key| + |value|;
      ghost var u := Upsert(ll, key, value);
      assert (key in cache <==> Find(ll, key) >= 0) &&
        NoDupKeys(u) && cache[key := value] == IndexOf(u) && TotalSize(u) == nbytes + grown by {
        IndexOfIndexes(ll);
        UpsertAgrees(cache, ll, key, value);
        IndexesUnique(cache[key := value], u);
      }
      if key in cache {
        ll := [Entry(key, value)] + Without(ll, Find(ll, key));
      } else {
        ll := [Entry(key, value)] + ll;
      }
      cache := cache[key := value];
      nbytes := nbytes + grown;
    }

    /** The loop of `Add`: evict from the back until the bound holds. */
    method Evict()
      requires Consistent()
      modifies this
      ensures Valid()
      ensures ll == Trim(old(ll), maxBytes)
      ensures evictions == old(evictions) + (if hasOnEvicted then Evicted(old(ll), maxBytes) else [])
    {
      ghost var start := evictions;
      ghost var pending := Evicted(ll, maxBytes);
      while maxBytes != 0 && maxBytes < nbytes
        invariant Consistent()
        invariant Trim(ll, maxBytes) == Trim(old(ll), maxBytes)
        invariant pending == Evicted(ll, maxBytes)
        invariant hasOnEvicted ==> evictions + pending == start + Evicted(old(ll), maxBytes)
        invariant !hasOnEvicted ==> evictions == start
        decreases |ll|
      {
        EvictStep(ll, maxBytes);
        ghost var logged := evictions;
        ghost var last := ll[|ll| - 1];
        RemoveOldest();
        pending := Evicted(ll, maxBytes);
        if hasOnEvicted {
          AppendShift(logged, last, pending);
        }
      }
      TrimWithinBound(ll, maxBytes);
      EvictStop(ll, maxBytes);
    }

    /** Insert or update, then evict from the back until the bound holds. */
    method Add(key: string, value: Bytes)
      requires Valid()
      modifies this
      ensures Valid()
      ensures ll == Trim(Upsert(old(ll), key, value), maxBytes)
      ensures evictions == old(evictions) + (if hasOnEvicted then Evicted(Upsert(old(ll), key, value), maxBytes) else [])
      ensures maxBytes == 0 || |key| + |value| <= maxBytes ==> key in cache && cache[key] == value
    {
      Insert(key, value);
      Evict();
      if maxBytes == 0 || |key| + |value| <= maxBytes {
        assert key in cache && cache[key] == value by {
          AddedEntryStays(old(ll), key, value, maxBytes);
          IndexOfIndexes(ll);
          assert ll[0] in ll;
        }
      }
    }

    /** Number of entries. */
    function Len(): (n: nat)
      reads this
      requires Consistent()
      ensures n == |ll| && n == |cache|
    {
      KeyCount(ll);
      IndexOfIndexes(ll);
      assert cache.Keys == KeysOf(ll);
      |ll|
    }
  }
}
