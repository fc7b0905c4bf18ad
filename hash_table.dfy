/** A separately chained hash table: an array of linked-list buckets of
    key/value pairs, with insert-or-replace, removal, lookup and key listing. */
module HashTables {
  import opened Wrappers
  import opened LinkedLists

  /** One stored entry of a bucket. */
  datatype Pair<K, V> = Pair(key: K, value: V)

  /** Number of buckets of a table built without an explicit capacity. */
  const DefaultCapacity := 16

  /** The value of a 32-bit hash code read as a two's complement integer. */
  function Signed(h: bv32): int
  {
    if h < 0x8000_0000 then h as int else h as int - 0x1_0000_0000
  }

  /** The absolute value of a hash code taken modulo the number of buckets. */
  function BucketOf(h: bv32, n: nat): (i: nat)
    requires n > 0
    ensures i < n
  {
    var x := Signed(h);
    (if x < 0 then -x else x) % n
  }

  /** The keys of a bucket, in bucket order. */
  function KeysOf<K, V>(ps: seq<Pair<K, V>>): seq<K>
  {
    seq(|ps|, i requires 0 <= i < |ps| => ps[i].key)
  }

  /** The total number of pairs in a sequence of buckets. */
  function TotalSize<T>(bs: seq<seq<T>>): nat
  {
    if bs == [] then 0 else TotalSize(bs[..|bs| - 1]) + |bs[|bs| - 1]|
  }

  /** The keys of all buckets, bucket after bucket. */
  function AllKeys<K, V>(bs: seq<seq<Pair<K, V>>>): seq<K>
  {
    if bs == [] then [] else AllKeys(bs[..|bs| - 1]) + KeysOf(bs[|bs| - 1])
  }

  /** No two pairs of a bucket share a key. */
  ghost predicate UniqueKeys<K, V>(b: seq<Pair<K, V>>)
  {
    forall j, j' :: 0 <= j < j' < |b| ==> b[j].key != b[j'].key
  }

  /** The pairs of `bs` are placed for the map `m` under `hash`: no bucket
      holds a key twice, and every pair sits in the bucket its key hashes to
      and carries the key's value in `m`. With as many pairs as `m` has keys,
      this makes the buckets represent `m` exactly (lemma Coverage). */
  ghost predicate TableInv<K, V>(bs: seq<seq<Pair<K, V>>>, hash: K -> bv32, m: map<K, V>)
  {
    && |bs| > 0
    && (forall i :: 0 <= i < |bs| ==> UniqueKeys(bs[i]))
    && (forall i, p :: 0 <= i < |bs| && p in bs[i] ==>
          BucketOf(hash(p.key), |bs|) == i && p.key in m && m[p.key] == p.value)
  }

  /** Removing a pair from a bucket with unique keys leaves a bucket with
      unique keys, one pair shorter, holding exactly the old pairs of the
      other keys. */
  lemma BucketDelete<K, V>(b: seq<Pair<K, V>>, p: Pair<K, V>)
    requires UniqueKeys(b) && p in b
    ensures UniqueKeys(RemoveFirst(b, p))
    ensures |RemoveFirst(b, p)| == |b| - 1
    ensures forall q :: q in RemoveFirst(b, p) ==> q in b && q.key != p.key
    ensures forall q {:trigger q in b} :: q in b && q.key != p.key ==> q in RemoveFirst(b, p)
  {
    var i :| 0 <= i < |b| && b[i] == p;
    forall j | 0 <= j < i ensures b[j] != p {
      assert b[j].key != b[i].key;
    }
    RemoveFirstAt(b, p, i);
    CutUnique(b, i);
    CutMembers(b, i);
  }

  /** Cutting position `i` out of a bucket with unique keys keeps its keys
      unique. */
  lemma CutUnique<K, V>(b: seq<Pair<K, V>>, i: nat)
    requires UniqueKeys(b) && i < |b|
    ensures UniqueKeys(b[..i] + b[i + 1..])
  {
    var nb := b[..i] + b[i + 1..];
    forall j, j' | 0 <= j < j' < |nb| ensures nb[j].key != nb[j'].key {
      var sj := if j < i then j else j + 1;
      var sj' := if j' < i then j' else j' + 1;
      assert nb[j] == b[sj] && nb[j'] == b[sj'];
    }
  }

  /** Cutting position `i` out of a bucket with unique keys leaves exactly the
      pairs whose key differs from the key at `i`. */
  lemma CutMembers<K, V>(b: seq<Pair<K, V>>, i: nat)
    requires UniqueKeys(b) && i < |b|
    ensures forall q :: q in b[..i] + b[i + 1..] <==> q in b && q.key != b[i].key
  {
    var nb := b[..i] + b[i + 1..];
    forall q | q in nb ensures q in b && q.key != b[i].key {
      var j :| 0 <= j < |nb| && nb[j] == q;
      var sj := if j < i then j else j + 1;
      assert q == b[sj];
    }
    forall q | q in b && q.key != b[i].key ensures q in nb {
      var j :| 0 <= j < |b| && b[j] == q;
      assert nb[if j < i then j else j - 1] == q;
    }
  }

  /** Inserting a pair for an absent key into its bucket keeps the table
      invariant for the extended map. */
  lemma TableInsert<K, V>(bs: seq<seq<Pair<K, V>>>, hash: K -> bv32, m: map<K, V>, key: K, v: V)
    requires TableInv(bs, hash, m) && key !in m
    ensures var b := BucketOf(hash(key), |bs|);
      TableInv(bs[b := bs[b] + [Pair(key, v)]], hash, m[key := v])
  {
    var b := BucketOf(hash(key), |bs|);
    var nb := bs[b] + [Pair(key, v)];
    var bs' := bs[b := nb];
    forall j | 0 <= j < |bs[b]| ensures bs[b][j].key != key {
      assert bs[b][j] in bs[b];
    }
    assert UniqueKeys(nb) by {
      forall j, j' | 0 <= j < j' < |nb| ensures nb[j].key != nb[j'].key {
        if j' == |bs[b]| {
          assert nb[j] == bs[b][j];
        } else {
          assert nb[j] == bs[b][j] && nb[j'] == bs[b][j'];
        }
      }
    }
  }

  /** Removing the pair of a present key from its bucket keeps the table
      invariant for the map without that key, with one pair fewer. */
  lemma TableDelete<K, V>(bs: seq<seq<Pair<K, V>>>, hash: K -> bv32, m: map<K, V>, p: Pair<K, V>)
    requires TableInv(bs, hash, m) && p in bs[BucketOf(hash(p.key), |bs|)]
    ensures var b := BucketOf(hash(p.key), |bs|);
      TableInv(bs[b := RemoveFirst(bs[b], p)], hash, m - {p.key})
    ensures var b := BucketOf(hash(p.key), |bs|);
      |RemoveFirst(bs[b], p)| == |bs[b]| - 1
  {
    var b := BucketOf(hash(p.key), |bs|);
    var nb := RemoveFirst(bs[b], p);
    var bs', m' := bs[b := nb], m - {p.key};
    BucketDelete(bs[b], p);
    forall i, q: Pair<K, V> | 0 <= i < |bs'| && q in bs'[i]
      ensures BucketOf(hash(q.key), |bs'|) == i && q.key in m' && m'[q.key] == q.value
    {
      if i == b {
        assert q in nb;
      }
    }
  }

  /** What Add does to the buckets: the pair found for the key, if any, is
      removed from the key's bucket and the new pair appended to it. The
      result represents the updated map, with one pair more exactly when the
      key is new. */
  lemma TableAdd<K, V>(bs: seq<seq<Pair<K, V>>>, hash: K -> bv32, m: map<K, V>, key: K, v: V,
                       found: Option<Pair<K, V>>)
    requires TableInv(bs, hash, m)
    requires found.None? <==> key !in m
    requires found.Some? ==> found.value == Pair(key, m[key]) && found.value in bs[BucketOf(hash(key), |bs|)]
    ensures var b := BucketOf(hash(key), |bs|);
      var kept := if found.Some? then RemoveFirst(bs[b], found.value) else bs[b];
      && TableInv(bs[b := kept + [Pair(key, v)]], hash, m[key := v])
      && TotalSize(bs[b := kept + [Pair(key, v)]]) == TotalSize(bs) + (if found.Some? then 0 else 1)
  {
    var b := BucketOf(hash(key), |bs|);
    if found.Some? {
      var kept := RemoveFirst(bs[b], found.value);
      TableDelete(bs, hash, m, found.value);
      TableInsert(bs[b := kept], hash, m - {key}, key, v);
      assert (m - {key})[key := v] == m[key := v];
      assert bs[b := kept][b := kept + [Pair(key, v)]] == bs[b := kept + [Pair(key, v)]];
      TotalSizeUpdate(bs, b, kept + [Pair(key, v)]);
    } else {
      TableInsert(bs, hash, m, key, v);
      TotalSizeUpdate(bs, b, bs[b] + [Pair(key, v)]);
    }
  }

  /** What Remove does to the buckets: the pair found for the key, if any,
      is removed from the key's bucket, leaving one pair fewer; an absent key
      leaves everything as it is. */
  lemma TableRemove<K, V>(bs: seq<seq<Pair<K, V>>>, hash: K -> bv32, m: map<K, V>, key: K,
                          found: Option<Pair<K, V>>)
    requires TableInv(bs, hash, m)
    requires found.None? <==> key !in m
    requires found.Some? ==> found.value.key == key && found.value in bs[BucketOf(hash(key), |bs|)]
    ensures found.None? ==> m - {key} == m
    ensures found.Some? ==> var b := BucketOf(hash(key), |bs|);
      && TableInv(bs[b := RemoveFirst(bs[b], found.value)], hash, m - {key})
      && TotalSize(bs[b := RemoveFirst(bs[b], found.value)]) == TotalSize(bs) - 1
  {
    if found.Some? {
      var b := BucketOf(hash(key), |bs|);
      TableDelete(bs, hash, m, found.value);
      TotalSizeUpdate(bs, b, RemoveFirst(bs[b], found.value));
    }
  }

  /** Replacing one bucket changes the total size by the change of that bucket. */
  lemma {:induction false} TotalSizeUpdate<T>(bs: seq<seq<T>>, b: nat, nb: seq<T>)
    requires b < |bs|
    ensures TotalSize(bs[b := nb]) == TotalSize(bs) - |bs[b]| + |nb|
  {
    var n := |bs|;
    if b < n - 1 {
      TotalSizeUpdate(bs[..n - 1], b, nb);
      assert bs[b := nb][..n - 1] == bs[..n - 1][b := nb];
    } else {
      assert bs[b := nb][..n - 1] == bs[..n - 1];
    }
  }

  /** A prefix of the buckets holds no more pairs than all of them. */
  lemma {:induction false} TotalSizePrefix<T>(bs: seq<seq<T>>, i: nat)
    requires i <= |bs|
    ensures TotalSize(bs[..i]) <= TotalSize(bs)
  {
    if i < |bs| {
      TotalSizePrefix(bs[..|bs| - 1], i);
      assert bs[..|bs| - 1][..i] == bs[..i];
      assert bs[..|bs|] == bs;
    } else {
      assert bs[..i] == bs;
    }
  }

  /** The keys of one bucket are distinct, and each is a key of the map whose
      pair is in that bucket. */
  lemma BucketKeys<K, V>(bs: seq<seq<Pair<K, V>>>, hash: K -> bv32, m: map<K, V>, i: nat)
    requires TableInv(bs, hash, m) && i < |bs|
    ensures NoDup(KeysOf(bs[i]))
    ensures forall k :: k in KeysOf(bs[i]) ==>
      k in m && BucketOf(hash(k), |bs|) == i && Pair(k, m[k]) in bs[i]
  {
    var ks := KeysOf(bs[i]);
    forall a, c | 0 <= a < c < |ks| ensures ks[a] != ks[c] {
      assert ks[a] == bs[i][a].key && ks[c] == bs[i][c].key;
    }
    forall k | k in ks ensures k in m && BucketOf(hash(k), |bs|) == i && Pair(k, m[k]) in bs[i] {
      var j :| 0 <= j < |ks| && ks[j] == k;
      assert bs[i][j] in bs[i];
    }
  }

  /** A duplicate-free sequence has as many distinct elements as positions. */
  lemma {:induction false} NoDupCard<T>(s: seq<T>)
    requires NoDup(s)
    ensures |set x | x in s| == |s|
  {
    if s != [] {
      var t := s[..|s| - 1];
      assert NoDup(t) by {
        forall i, j | 0 <= i < j < |t| ensures t[i] != t[j] {
          assert t[i] == s[i] && t[j] == s[j];
        }
      }
      NoDupCard(t);
      assert s == t + [s[|s| - 1]];
      assert s[|s| - 1] !in t by {
        forall i | 0 <= i < |t| ensures t[i] != s[|s| - 1] {
          assert t[i] == s[i];
        }
      }
      assert (set x | x in s) == (set x | x in t) + {s[|s| - 1]};
    }
  }

  /** The keys listed from the first `i` buckets are distinct, one per pair,
      and each is a key of the map stored in the bucket it hashes to. */
  lemma {:induction false} AllKeysPrefix<K, V>(bs: seq<seq<Pair<K, V>>>, hash: K -> bv32, m: map<K, V>, i: nat)
    requires TableInv(bs, hash, m) && i <= |bs|
    ensures NoDup(AllKeys(bs[..i]))
    ensures |AllKeys(bs[..i])| == TotalSize(bs[..i])
    ensures forall k :: k in AllKeys(bs[..i]) ==>
      k in m && BucketOf(hash(k), |bs|) < i && Pair(k, m[k]) in bs[BucketOf(hash(k), |bs|)]
  {
    if i > 0 {
      AllKeysPrefix(bs, hash, m, i - 1);
      BucketKeys(bs, hash, m, i - 1);
      var pre := bs[..i];
      assert pre[..i - 1] == bs[..i - 1] && pre[i - 1] == bs[i - 1];
      var front, last := AllKeys(bs[..i - 1]), KeysOf(bs[i - 1]);
      assert AllKeys(pre) == front + last;
      NoDupAppend(front, last);
    }
  }

  /** Placed pairs as many as the map's keys cover the map: the listed keys
      are exactly the map's keys, and each key's pair is in its bucket. */
  lemma Coverage<K, V>(bs: seq<seq<Pair<K, V>>>, hash: K -> bv32, m: map<K, V>)
    requires TableInv(bs, hash, m) && |m| == TotalSize(bs)
    ensures forall k :: k in AllKeys(bs) <==> k in m
    ensures forall k :: k in m ==> Pair(k, m[k]) in bs[BucketOf(hash(k), |bs|)]
  {
    AllKeysPrefix(bs, hash, m, |bs|);
    assert bs[..|bs|] == bs;
    NoDupCard(AllKeys(bs));
    SameSizeSubset((set k | k in AllKeys(bs)), m.Keys);
  }

  /** A subset as large as its superset is the whole superset. */
  lemma SameSizeSubset<T>(a: set<T>, b: set<T>)
    requires a <= b && |a| == |b|
    ensures a == b
  {
    assert |b - a| == 0;
  }

  /** The table. Each bucket holds the contents of the bucket's linked list:
      the only list operations the table uses are appending a pair,
      removing the first occurrence of one and emptying the bucket, which
      are `LinkedList.Add`, `LinkedList.Remove` and `LinkedList.Clear` as
      their contracts state them. */
  class HashTable<K(==, 0), V(==)> {
    const buckets: array<seq<Pair<K, V>>>
    var count: int
    /** The keys' hash-code function (GetHashCode). */
    const hash: K -> bv32

    /** What the table stores. */
    ghost var Map: map<K, V>

    /** The representation invariant: the buckets represent Map, and count is
        both the number of keys and the number of stored pairs. */
    ghost predicate Valid()
      reads this, buckets
    {
      && buckets.Length > 0
      && TableInv(buckets[..], hash, Map)
      && count == |Map| == TotalSize(buckets[..])
    }

    /** An empty table with the default number of buckets. */
    constructor (hash: K -> bv32)
      ensures Valid() && fresh(buckets) && Map == map[]
      ensures buckets.Length == DefaultCapacity && this.hash == hash
    {
      this.hash := hash;
      buckets := new seq<Pair<K, V>>[DefaultCapacity](_ => []);
      count := 0;
      Map := map[];
      new;
      ZeroSize(buckets[..]);
    }

    /** An empty table with `capacity` buckets. */
    constructor WithCapacity(capacity: nat, hash: K -> bv32)
      requires capacity > 0
      ensures Valid() && fresh(buckets) && Map == map[]
      ensures buckets.Length == capacity && this.hash == hash
    {
      this.hash := hash;
      buckets := new seq<Pair<K, V>>[capacity](_ => []);
      count := 0;
      Map := map[];
      new;
      ZeroSize(buckets[..]);
    }

    /** Every bucket empty means no pair at all. */
    static lemma {:induction false} ZeroSize(bs: seq<seq<Pair<K, V>>>)
      requires forall i :: 0 <= i < |bs| ==> bs[i] == []
      ensures TotalSize(bs) == 0
    {
      if bs != [] {
        ZeroSize(bs[..|bs| - 1]);
      }
    }

    /** The number of stored keys. */
    function Count(): (n: int)
      reads this, buckets
      requires Valid()
      ensures n == |Map|
    {
      count
    }

    /** The bucket a key belongs to. */
    function GetBucketIndex(key: K): (i: nat)
      requires buckets.Length > 0
      ensures i < buckets.Length
    {
      BucketOf(hash(key), buckets.Length)
    }

    /** The pair of `key` in one bucket, if any: the loop over a snapshot of
        the bucket that Add, Remove, TryGetValue and ContainsKey each run. */
    static method Scan(bucket: seq<Pair<K, V>>, key: K) returns (r: Option<Pair<K, V>>)
      ensures r.None? <==> forall j :: 0 <= j < |bucket| ==> bucket[j].key != key
      ensures r.Some? ==> r.value in bucket && r.value.key == key
    {
      for i := 0 to |bucket|
        invariant forall j :: 0 <= j < i ==> bucket[j].key != key
      {
        var pair := bucket[i];
        if key == pair.key {
          return Some(pair);
        }
      }
      return None;
    }

    /** The stored pair of `key`, if any. */
    method FindPair(key: K) returns (r: Option<Pair<K, V>>)
      requires Valid()
      ensures r.None? <==> key !in Map
      ensures r.Some? ==> r.value == Pair(key, Map[key]) && r.value in buckets[GetBucketIndex(key)]
    {
      Coverage(buckets[..], hash, Map);
      r := Scan(buckets[GetBucketIndex(key)], key);
    }

    /** Inserts `key` with `value`, replacing the value of a present key. */
    method Add(key: K, value: V)
      requires Valid()
      modifies this, buckets
      ensures Valid()
      ensures Map == old(Map)[key := value]
      ensures count == if key in old(Map) then old(count) else old(count) + 1
    {
      var b := GetBucketIndex(key);
      var bucket := buckets[b];
      var found := FindPair(key);
      ghost var bs := buckets[..];
      TableAdd(bs, hash, Map, key, value, found);
      if found.Some? {
        bucket := RemoveFirst(bucket, found.value);
      } else {
        count := count + 1;
      }
      buckets[b] := bucket + [Pair(key, value)];
      assert buckets[..] == bs[b := bucket + [Pair(key, value)]];
      Map := Map[key := value];
    }

    /** Removes `key`, reporting whether it was present. */
    method Remove(key: K) returns (removed: bool)
      requires Valid()
      modifies this, buckets
      ensures Valid()
      ensures removed <==> key in old(Map)
      ensures Map == old(Map) - {key}
      ensures count == if removed then old(count) - 1 else old(count)
    {
      var b := GetBucketIndex(key);
      var bucket := buckets[b];
      var found := FindPair(key);
      TableRemove(buckets[..], hash, Map, key, found);
      if found.Some? {
        buckets[b] := RemoveFirst(bucket, found.value);
        count := count - 1;
      }
      Map := Map - {key};
      removed := found.Some?;
    }

    /** The value stored for `key`, if any. */
    method TryGetValue(key: K) returns (r: Option<V>)
      requires Valid()
      ensures r == if key in Map then Some(Map[key]) else None
    {
      var found := FindPair(key);
      if found.Some? {
        return Some(found.value.value);
      }
      return None;
    }

    /** Whether `key` is stored. */
    method ContainsKey(key: K) returns (b: bool)
      requires Valid()
      ensures b <==> key in Map
    {
      var found := FindPair(key);
      return found.Some?;
    }

    /** Empties every bucket. */
    method Clear()
      requires Valid()
      modifies this, buckets
      ensures Valid() && Map == map[]
    {
      for i := 0 to buckets.Length
        invariant forall j :: 0 <= j < i ==> buckets[j] == []
      {
        buckets[i] := [];
      }
      count := 0;
      Map := map[];
      ZeroSize(buckets[..]);
    }

    /** Lists every stored key once, bucket after bucket. */
    method GetKeys() returns (keys: array<K>)
      requires Valid()
      ensures fresh(keys) && keys.Length == |Map|
      ensures NoDup(keys[..]) && forall k :: k in keys[..] <==> k in Map
    {
      keys := new K[count];
      CopyKeys(buckets[..], keys);
      assert buckets[..][..buckets.Length] == buckets[..];
      AllKeysPrefix(buckets[..], hash, Map, buckets.Length);
      Coverage(buckets[..], hash, Map);
    }

    /** The loops of GetKeys: writes the keys of every bucket, bucket after
        bucket, into `keys`, which has room for exactly that many. */
    static method CopyKeys(bs: seq<seq<Pair<K, V>>>, keys: array<K>)
      requires keys.Length == TotalSize(bs)
      modifies keys
      ensures keys[..] == AllKeys(bs)
    {
      var index := 0;
      for i := 0 to |bs|
        invariant index == TotalSize(bs[..i]) <= keys.Length
        invariant keys[..index] == AllKeys(bs[..i])
      {
        var bucket := bs[i];
        TotalSizePrefix(bs, i + 1);
        assert bs[..i + 1][..i] == bs[..i];
        for j := 0 to |bucket|
          invariant index == TotalSize(bs[..i]) + j <= keys.Length
          invariant keys[..index] == AllKeys(bs[..i]) + KeysOf(bucket[..j])
        {
          keys[index] := bucket[j].key;
          index := index + 1;
          assert KeysOf(bucket[..j + 1]) == KeysOf(bucket[..j]) + [bucket[j].key];
        }
        assert bucket[..|bucket|] == bucket;
      }
      assert bs[..|bs|] == bs;
      assert keys[..] == keys[..index];
    }
  }
}
