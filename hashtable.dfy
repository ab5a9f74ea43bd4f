/** The chained hash table of macelf/hashtable.c. The bucket array is an
    array of 0xFFFF chains; each chain is the sequence of items reached from
    the bucket head through the `next` pointers, head first. Key matching is
    equality of keys, the only key-match callback in the repository being
    string equality. The nuke callback is recorded in a ghost log. */
module HashTables {
  import opened Bytes

  /** initial_table_size in hash_create. */
  const TableLen := 0xFFFF

  datatype Item<K, V> = Item(key: K, value: V)

  /** calc_hash: the hash masked with table_len - 1, that is 0xFFFE. The
      mask keeps bits 1 to 15 of the hash: its low 16 bits with bit 0
      cleared, written here in arithmetic. */
  function CalcHash(h: bv32): (r: nat)
    ensures r < TableLen
  {
    (h as nat % 0x1_0000) / 2 * 2
  }

  /** The mask clears bit 0, so only even buckets are ever used, the
      highest being 0xFFFE. */
  lemma CalcHashEven(h: bv32)
    ensures CalcHash(h) % 2 == 0 && CalcHash(h) <= TableLen - 1
  {
    var half := (h as nat % 0x1_0000) / 2;
    assert CalcHash(h) == 2 * half;
  }

  /** The index of the first item at or after `from` whose key is k. */
  function NextMatch<K(==), V>(chain: seq<Item<K, V>>, k: K, from: nat): (r: Option<nat>)
    requires from <= |chain|
    ensures r.Some? ==> from <= r.value < |chain| && chain[r.value].key == k
    ensures r.Some? ==> forall i :: from <= i < r.value ==> chain[i].key != k
    ensures r.None? <==> forall i :: from <= i < |chain| ==> chain[i].key != k
    decreases |chain| - from
  {
    if from == |chain| then None
    else if chain[from].key == k then Some(from)
    else NextMatch(chain, k, from + 1)
  }

  /** The value of the first item of the chain whose key is k. */
  function Lookup<K(==), V>(chain: seq<Item<K, V>>, k: K): Option<V>
  {
    match NextMatch(chain, k, 0)
    case Some(i) => Some(chain[i].value)
    case None => None
  }

  function MapGet<K(==), V>(m: map<K, V>, k: K): Option<V>
  {
    if k in m then Some(m[k]) else None
  }

  predicate DistinctKeys<K(==), V>(chain: seq<Item<K, V>>)
  {
    forall i, j :: 0 <= i < j < |chain| ==> chain[i].key != chain[j].key
  }

  /** In a chain without repeated keys, an item is the one found for its key. */
  lemma FoundAt<K, V>(chain: seq<Item<K, V>>, j: nat)
    requires DistinctKeys(chain) && j < |chain|
    ensures NextMatch(chain, chain[j].key, 0) == Some(j)
    ensures Lookup(chain, chain[j].key) == Some(chain[j].value)
  {
    var r := NextMatch(chain, chain[j].key, 0);
    assert r.Some?;
  }

  /** hash_find's relinking: item j is taken out and put at the head. */
  function MoveToFront<K, V>(chain: seq<Item<K, V>>, j: nat): (r: seq<Item<K, V>>)
    requires j < |chain|
  {
    [chain[j]] + chain[..j] + chain[j + 1..]
  }

  /** Moving an item to the head keeps the items, their keys distinct, what
      every key finds, and the relative order of the other items. */
  lemma MoveToFrontKeeps<K, V>(chain: seq<Item<K, V>>, j: nat)
    requires DistinctKeys(chain) && j < |chain|
    ensures var r := MoveToFront(chain, j);
            |r| == |chain| && r[0] == chain[j] && r[1..] == RemoveAt(chain, j)
            && multiset(r) == multiset(chain) && DistinctKeys(r)
            && forall k :: Lookup(r, k) == Lookup(chain, k)
  {
    var r := MoveToFront(chain, j);
    assert r[1..] == RemoveAt(chain, j);
    MoveToFrontItems(chain, j);
    MoveToFrontDistinct(chain, j);
    forall k
      ensures Lookup(r, k) == Lookup(chain, k)
    {
      MoveToFrontFinds(chain, j, k);
    }
  }

  lemma MoveToFrontItems<K, V>(chain: seq<Item<K, V>>, j: nat)
    requires j < |chain|
    ensures multiset(MoveToFront(chain, j)) == multiset(chain)
  {
    calc {
      multiset(MoveToFront(chain, j));
      multiset([chain[j]] + chain[..j]) + multiset(chain[j + 1..]);
      multiset(chain[..j]) + multiset{chain[j]} + multiset(chain[j + 1..]);
      { assert chain == chain[..j] + [chain[j]] + chain[j + 1..]; }
      multiset(chain);
    }
  }

  /** Item i of the moved chain is item Origin(j, i) of the old one. */
  lemma MoveToFrontOrigin<K, V>(chain: seq<Item<K, V>>, j: nat, i: nat)
    requires j < |chain| && i < |chain|
    ensures MoveToFront(chain, j)[i] == chain[Origin(j, i)] && Origin(j, i) < |chain|
  {
  }

  lemma MoveToFrontDistinct<K, V>(chain: seq<Item<K, V>>, j: nat)
    requires DistinctKeys(chain) && j < |chain|
    ensures DistinctKeys(MoveToFront(chain, j))
  {
    var r := MoveToFront(chain, j);
    forall i, i' | 0 <= i < i' < |r|
      ensures r[i].key != r[i'].key
    {
      MoveToFrontOrigin(chain, j, i);
      MoveToFrontOrigin(chain, j, i');
    }
  }

  lemma MoveToFrontFinds<K, V>(chain: seq<Item<K, V>>, j: nat, k: K)
    requires DistinctKeys(chain) && j < |chain|
    ensures Lookup(MoveToFront(chain, j), k) == Lookup(chain, k)
  {
    var r := MoveToFront(chain, j);
    MoveToFrontDistinct(chain, j);
    match NextMatch(chain, k, 0)
    case Some(i) =>
      var q := if i == j then 0 else if i < j then i + 1 else i;
      MoveToFrontOrigin(chain, j, q);
      FoundAt(r, q);
    case None =>
      forall q | 0 <= q < |r| ensures r[q].key != k {
        MoveToFrontOrigin(chain, j, q);
      }
  }

  /** Where item i of MoveToFront(chain, j) came from. */
  function Origin(j: nat, i: nat): nat
  {
    if i == 0 then j else if i <= j then i - 1 else i
  }

  /** hash_remove's unlinking of item j. */
  function RemoveAt<K, V>(chain: seq<Item<K, V>>, j: nat): (r: seq<Item<K, V>>)
    requires j < |chain|
  {
    chain[..j] + chain[j + 1..]
  }

  /** Unlinking item j keeps the keys distinct, makes its key find nothing and
      leaves what every other key finds. */
  lemma RemoveAtKeeps<K, V>(chain: seq<Item<K, V>>, j: nat)
    requires DistinctKeys(chain) && j < |chain|
    ensures var r := RemoveAt(chain, j);
            |r| == |chain| - 1 && DistinctKeys(r)
            && multiset(r) + multiset{chain[j]} == multiset(chain)
            && forall k :: Lookup(r, k) == if k == chain[j].key then None else Lookup(chain, k)
  {
    var r := RemoveAt(chain, j);
    assert chain == chain[..j] + [chain[j]] + chain[j + 1..];
    forall i, i' | 0 <= i < i' < |r|
      ensures r[i].key != r[i'].key
    {
      var p := if i < j then i else i + 1;
      var p' := if i' < j then i' else i' + 1;
      assert r[i] == chain[p] && r[i'] == chain[p'] && p < p';
    }
    forall k
      ensures Lookup(r, k) == if k == chain[j].key then None else Lookup(chain, k)
    {
      match NextMatch(r, k, 0)
      case Some(q) =>
        var p := if q < j then q else q + 1;
        assert r[q] == chain[p];
        FoundAt(chain, p);
      case None =>
        forall p | 0 <= p < |chain| && p != j
          ensures chain[p].key != k
        {
          assert r[if p < j then p else p - 1] == chain[p];
        }
    }
  }

  /** The chain hash_insert builds: the new item at the head. */
  lemma PrependFinds<K, V>(chain: seq<Item<K, V>>, k: K, v: V)
    requires DistinctKeys(chain) && Lookup(chain, k).None?
    ensures DistinctKeys([Item(k, v)] + chain)
    ensures forall k' :: Lookup([Item(k, v)] + chain, k') == if k' == k then Some(v) else Lookup(chain, k')
  {
    var r := [Item(k, v)] + chain;
    forall k' | k' != k
      ensures Lookup(r, k') == Lookup(chain, k')
    {
      match NextMatch(chain, k', 0)
      case Some(i) =>
        assert r[i + 1] == chain[i];
        FoundAt(r, i + 1);
      case None =>
    }
  }

  /** A position in the bucket array: item `index` of chain `bucket`. It plays
      the part of the HashItem pointer kept in `*iter`. */
  datatype Cursor = Cursor(bucket: nat, index: nat)

  /** Strict lexicographic order on positions. */
  predicate Before(b: nat, i: nat, b': nat, i': nat)
  {
    b < b' || (b == b' && i < i')
  }

  /** The chains one after the other, in bucket order. */
  function Flatten<K, V>(chains: seq<seq<Item<K, V>>>): seq<Item<K, V>>
  {
    if chains == [] then [] else Flatten(chains[..|chains| - 1]) + chains[|chains| - 1]
  }

  /** hash_find's effect on the key's chain: the first match moves to the head. */
  function FindChain<K(==), V>(chain: seq<Item<K, V>>, k: K): seq<Item<K, V>>
  {
    match NextMatch(chain, k, 0)
    case Some(j) => MoveToFront(chain, j)
    case None => chain
  }

  /** hash_remove's effect on the key's chain: the first match is unlinked. */
  function RemoveChain<K(==), V>(chain: seq<Item<K, V>>, k: K): seq<Item<K, V>>
  {
    match NextMatch(chain, k, 0)
    case Some(j) => RemoveAt(chain, j)
    case None => chain
  }

  /** The table invariant on the chains: 0xFFFF of them, every item in its
      key's bucket, no key twice in a chain, and each key finding in its bucket
      what the map m holds for it. */
  ghost predicate ChainsValid<K(!new), V>(chains: seq<seq<Item<K, V>>>, hash: K -> bv32, m: map<K, V>)
  {
    |chains| == TableLen && Placed(chains, hash) && ChainsDistinct(chains) && Finds(chains, hash, m)
  }

  /** Every item is in its key's bucket. */
  ghost predicate Placed<K, V>(chains: seq<seq<Item<K, V>>>, hash: K -> bv32)
  {
    forall b, i :: 0 <= b < |chains| && 0 <= i < |chains[b]| ==> CalcHash(hash(chains[b][i].key)) == b
  }

  /** No key occurs twice in a chain. */
  ghost predicate ChainsDistinct<K, V>(chains: seq<seq<Item<K, V>>>)
  {
    forall b :: 0 <= b < |chains| ==> DistinctKeys(chains[b])
  }

  /** Each key finds in its bucket what m holds for it. */
  ghost predicate Finds<K(!new), V>(chains: seq<seq<Item<K, V>>>, hash: K -> bv32, m: map<K, V>)
  {
    |chains| == TableLen && forall k :: TableLookup(chains, hash, k) == MapGet(m, k)
  }

  /** What a key finds in its bucket. */
  function TableLookup<K(==), V>(chains: seq<seq<Item<K, V>>>, hash: K -> bv32, k: K): Option<V>
    requires |chains| == TableLen
  {
    Lookup(chains[CalcHash(hash(k))], k)
  }

  /** Replacing the chain of bucket s by one that keeps the invariant for the
      keys of that bucket gives a valid table for the new map. */
  lemma ReplaceChain<K(!new), V>(chains: seq<seq<Item<K, V>>>, hash: K -> bv32, m: map<K, V>,
                           s: nat, c: seq<Item<K, V>>, m': map<K, V>)
    requires ChainsValid(chains, hash, m) && s < TableLen
    requires InBucket(c, hash, s) && DistinctKeys(c)
    requires forall k :: CalcHash(hash(k)) != s ==> MapGet(m', k) == MapGet(m, k)
    requires forall k :: CalcHash(hash(k)) == s ==> Lookup(c, k) == MapGet(m', k)
    ensures ChainsValid(chains[s := c], hash, m')
  {
  }

  /** Every item of the chain belongs in bucket s. */
  ghost predicate InBucket<K, V>(c: seq<Item<K, V>>, hash: K -> bv32, s: nat)
  {
    forall i :: 0 <= i < |c| ==> CalcHash(hash(c[i].key)) == s
  }

  /** A chain made of items of a chain of bucket s belongs in bucket s too. */
  lemma SubBucket<K, V>(c: seq<Item<K, V>>, c': seq<Item<K, V>>, hash: K -> bv32, s: nat)
    requires InBucket(c, hash, s) && multiset(c') <= multiset(c)
    ensures InBucket(c', hash, s)
  {
    forall i | 0 <= i < |c'|
      ensures CalcHash(hash(c'[i].key)) == s
    {
      assert c'[i] in multiset(c);
    }
  }

  /** hash_find's chain holds the same items, without repeated keys, and
      finds what the old chain found. */
  lemma FindChainProps<K, V>(c: seq<Item<K, V>>, k: K)
    requires DistinctKeys(c)
    ensures multiset(FindChain(c, k)) == multiset(c) && DistinctKeys(FindChain(c, k))
    ensures forall k' :: Lookup(FindChain(c, k), k') == Lookup(c, k')
  {
    if NextMatch(c, k, 0).Some? {
      MoveToFrontKeeps(c, NextMatch(c, k, 0).value);
    }
  }

  /** hash_remove's chain holds a subset of the items, without repeated keys,
      finds nothing for k and what the old chain found for every other key. */
  lemma RemoveChainProps<K, V>(c: seq<Item<K, V>>, k: K)
    requires DistinctKeys(c)
    ensures multiset(RemoveChain(c, k)) <= multiset(c) && DistinctKeys(RemoveChain(c, k))
    ensures forall k' :: Lookup(RemoveChain(c, k), k') == if k' == k then None else Lookup(c, k')
  {
    if NextMatch(c, k, 0).Some? {
      RemoveAtKeeps(c, NextMatch(c, k, 0).value);
    }
  }

  /** hash_find on a valid table keeps it valid with the same map. */
  lemma FindChainKeeps<K(!new), V>(chains: seq<seq<Item<K, V>>>, hash: K -> bv32, m: map<K, V>, k: K)
    requires ChainsValid(chains, hash, m)
    ensures var s := CalcHash(hash(k));
            ChainsValid(chains[s := FindChain(chains[s], k)], hash, m)
            && multiset(FindChain(chains[s], k)) == multiset(chains[s])
  {
    var s := CalcHash(hash(k));
    var c := chains[s];
    FindChainProps(c, k);
    SubBucket(c, FindChain(c, k), hash, s);
    forall k' | CalcHash(hash(k')) == s
      ensures Lookup(FindChain(c, k), k') == MapGet(m, k')
    {
      assert TableLookup(chains, hash, k') == MapGet(m, k');
    }
    ReplaceChain(chains, hash, m, s, FindChain(c, k), m);
  }

  /** hash_insert of an absent key: the new item at the head of its chain. */
  lemma PrependKeeps<K(!new), V>(chains: seq<seq<Item<K, V>>>, hash: K -> bv32, m: map<K, V>, k: K, v: V)
    requires ChainsValid(chains, hash, m) && k !in m
    ensures var s := CalcHash(hash(k));
            ChainsValid(chains[s := [Item(k, v)] + chains[s]], hash, m[k := v])
  {
    var s := CalcHash(hash(k));
    assert TableLookup(chains, hash, k) == MapGet(m, k);
    PrependFinds(chains[s], k, v);
    forall k' | CalcHash(hash(k')) == s
      ensures Lookup([Item(k, v)] + chains[s], k') == MapGet(m[k := v], k')
    {
      assert TableLookup(chains, hash, k') == MapGet(m, k');
    }
    ReplaceChain(chains, hash, m, s, [Item(k, v)] + chains[s], m[k := v]);
  }

  /** hash_remove on a valid table: the key's first item unlinked, the key
      gone from the map. */
  lemma RemoveChainKeeps<K(!new), V>(chains: seq<seq<Item<K, V>>>, hash: K -> bv32, m: map<K, V>, k: K)
    requires ChainsValid(chains, hash, m)
    ensures var s := CalcHash(hash(k));
            ChainsValid(chains[s := RemoveChain(chains[s], k)], hash, m - {k})
  {
    var s := CalcHash(hash(k));
    var c := chains[s];
    RemoveChainProps(c, k);
    SubBucket(c, RemoveChain(c, k), hash, s);
    forall k' | CalcHash(hash(k')) == s
      ensures Lookup(RemoveChain(c, k), k') == MapGet(m - {k}, k')
    {
      assert TableLookup(chains, hash, k') == MapGet(m, k');
    }
    ReplaceChain(chains, hash, m, s, RemoveChain(c, k), m - {k});
  }

  /** Each item of f lies in one of the first b buckets and carries the value
      the map holds for its key. */
  ghost predicate FromBuckets<K(!new), V>(f: seq<Item<K, V>>, hash: K -> bv32, m: map<K, V>, b: nat)
  {
    forall n :: 0 <= n < |f| ==> CalcHash(hash(f[n].key)) < b && MapGet(m, f[n].key) == Some(f[n].value)
  }

  /** The items of the first b buckets, one after the other, come from those
      buckets and carry the value the map holds for their key. */
  lemma {:induction false} FlattenItems<K(!new), V>(chains: seq<seq<Item<K, V>>>, hash: K -> bv32, m: map<K, V>, b: nat)
    requires ChainsValid(chains, hash, m) && b <= TableLen
    ensures FromBuckets(Flatten(chains[..b]), hash, m, b)
  {
    if b > 0 {
      FlattenItems(chains, hash, m, b - 1);
      var c := chains[b - 1];
      FlattenStep(chains, b);
      forall q | 0 <= q < |c|
        ensures CalcHash(hash(c[q].key)) == b - 1 && MapGet(m, c[q].key) == Some(c[q].value)
      {
        FoundAt(c, q);
        assert TableLookup(chains, hash, c[q].key) == MapGet(m, c[q].key);
      }
      FromBucketsAppend(Flatten(chains[..b - 1]), c, hash, m, b);
    }
  }

  lemma FromBucketsAppend<K(!new), V>(f: seq<Item<K, V>>, c: seq<Item<K, V>>, hash: K -> bv32, m: map<K, V>, b: nat)
    requires b > 0 && FromBuckets(f, hash, m, b - 1)
    requires forall q :: 0 <= q < |c| ==> CalcHash(hash(c[q].key)) == b - 1 && MapGet(m, c[q].key) == Some(c[q].value)
    ensures FromBuckets(f + c, hash, m, b)
  {
    assert forall n :: |f| <= n < |f + c| ==> (f + c)[n] == c[n - |f|];
  }

  lemma FlattenStep<K, V>(chains: seq<seq<Item<K, V>>>, b: nat)
    requires 0 < b <= |chains|
    ensures Flatten(chains[..b]) == Flatten(chains[..b - 1]) + chains[b - 1]
  {
    assert chains[..b][..b - 1] == chains[..b - 1];
  }

  /** The items of the first b buckets lie in those buckets. */
  lemma {:induction false} FlattenPlaced<K, V>(chains: seq<seq<Item<K, V>>>, hash: K -> bv32, b: nat)
    requires Placed(chains, hash) && b <= |chains|
    ensures forall n :: 0 <= n < |Flatten(chains[..b])| ==> CalcHash(hash(Flatten(chains[..b])[n].key)) < b
  {
    if b > 0 {
      FlattenPlaced(chains, hash, b - 1);
      var f0, c := Flatten(chains[..b - 1]), chains[b - 1];
      FlattenStep(chains, b);
      var f: seq<Item<K, V>> := f0 + c;
      forall n | 0 <= n < |f| ensures CalcHash(hash(f[n].key)) < b {
        if n >= |f0| {
          assert f[n] == c[n - |f0|];
        } else {
          assert f[n] == f0[n];
        }
      }
    }
  }

  /** No key occurs twice among the items of the first b buckets. */
  lemma {:induction false} FlattenDistinct<K, V>(chains: seq<seq<Item<K, V>>>, hash: K -> bv32, b: nat)
    requires Placed(chains, hash) && ChainsDistinct(chains) && b <= |chains|
    ensures DistinctKeys(Flatten(chains[..b]))
  {
    if b > 0 {
      FlattenDistinct(chains, hash, b - 1);
      FlattenPlaced(chains, hash, b - 1);
      var f0, c := Flatten(chains[..b - 1]), chains[b - 1];
      FlattenStep(chains, b);
      var f := f0 + c;
      forall n, n' | 0 <= n < n' < |f|
        ensures f[n].key != f[n'].key
      {
        if n' >= |f0| && n < |f0| {
          assert CalcHash(hash(f0[n].key)) < b - 1;
          assert f[n'] == c[n' - |f0|];
        } else if n >= |f0| {
          assert f[n] == c[n - |f0|] && f[n'] == c[n' - |f0|];
        }
      }
    }
  }

  /** Every key of the map whose bucket is among the first b is among their items. */
  lemma {:induction false} FlattenCovers<K(!new), V>(chains: seq<seq<Item<K, V>>>, hash: K -> bv32, m: map<K, V>, b: nat)
    requires Finds(chains, hash, m) && b <= TableLen
    ensures var f := Flatten(chains[..b]);
            forall k :: k in m && CalcHash(hash(k)) < b ==> exists n :: 0 <= n < |f| && f[n].key == k
  {
    if b > 0 {
      FlattenCovers(chains, hash, m, b - 1);
      var f0, c := Flatten(chains[..b - 1]), chains[b - 1];
      FlattenStep(chains, b);
      var f := f0 + c;
      forall k | k in m && CalcHash(hash(k)) < b
        ensures exists n :: 0 <= n < |f| && f[n].key == k
      {
        if CalcHash(hash(k)) == b - 1 {
          assert Lookup(c, k) == MapGet(m, k);
          var j := NextMatch(c, k, 0).value;
          assert f[|f0| + j] == c[j];
        } else {
          var n :| 0 <= n < |f0| && f0[n].key == k;
          assert f[n] == f0[n];
        }
      }
    }
  }

  /** hash_destroy nukes each stored item exactly once: the items of all
      buckets in order hold every key once, with its value. */
  lemma DestroyNukesEachOnce<K(!new), V>(chains: seq<seq<Item<K, V>>>, hash: K -> bv32, m: map<K, V>)
    requires ChainsValid(chains, hash, m)
    ensures var f := Flatten(chains);
            DistinctKeys(f)
            && (forall n :: 0 <= n < |f| ==> f[n].key in m && m[f[n].key] == f[n].value)
            && (forall k :: k in m ==> exists n :: 0 <= n < |f| && f[n].key == k)
  {
    FlattenItems(chains, hash, m, TableLen);
    FlattenDistinct(chains, hash, TableLen);
    FlattenCovers(chains, hash, m, TableLen);
    assert chains[..TableLen] == chains;
  }

  /** Whether position (b, i) comes after the cursor; every position comes
      after the NULL cursor. */
  predicate AfterCursor(iter: Option<Cursor>, b: nat, i: nat)
  {
    iter.None? || Before(iter.value.bucket, iter.value.index, b, i)
  }

  /** The chained hash table. The abstract contents are a map from keys to
      values; `nuked` records each call of the nuke callback. */
  class HashTable<K(==,!new), V> {
    const buckets: array<seq<Item<K, V>>>
    const hash: K -> bv32
    ghost var contents: map<K, V>
    ghost var nuked: seq<Item<K, V>>
    ghost var live: bool

    /** The bucket of a key. */
    function Slot(k: K): (r: nat)
      ensures r < TableLen
    {
      CalcHash(hash(k))
    }

    ghost predicate Valid()
      reads this, buckets
    {
      live && buckets.Length == TableLen && ChainsValid(buckets[..], hash, contents)
    }

    /** Whether c names an item of the table. */
    predicate IsItem(c: Cursor)
      reads buckets
    {
      c.bucket < buckets.Length && c.index < |buckets[c.bucket]|
    }

    /** hash_create with every allocation succeeding: 0xFFFF empty buckets. */
    constructor (hashFn: K -> bv32)
      ensures Valid() && fresh(buckets)
      ensures contents == map[] && nuked == [] && hash == hashFn
      ensures forall b :: 0 <= b < TableLen ==> buckets[b] == []
    {
      hash := hashFn;
      buckets := new seq<Item<K, V>>[TableLen](_ => []);
      contents := map[];
      nuked := [];
      live := true;
    }

    /** hash_create: NULL when either malloc fails (macelf/hashtable.c:143-168). */
    static method Create(hashFn: K -> bv32, tableAllocOk: bool, arrayAllocOk: bool)
      returns (t: HashTable?<K, V>)
      ensures t == null <==> !(tableAllocOk && arrayAllocOk)
      ensures t != null ==> fresh(t) && fresh(t.buckets) && t.Valid()
                            && t.contents == map[] && t.nuked == [] && t.hash == hashFn
                            && forall b :: 0 <= b < TableLen ==> t.buckets[b] == []
    {
      if !tableAllocOk || !arrayAllocOk {
        return null;
      }
      t := new HashTable(hashFn);
    }

    /** hash_find (macelf/hashtable.c:38-67): whether the key is present and
        its value; a match below the head is moved to the head of its chain. */
    method Find(key: K) returns (found: bool, value: Option<V>)
      requires Valid()
      modifies buckets
      ensures Valid()
      ensures found <==> key in contents
      ensures value == MapGet(contents, key)
      ensures buckets[..] == old(buckets[..])[Slot(key) := FindChain(old(buckets[Slot(key)]), key)]
    {
      FindChainKeeps(buckets[..], hash, contents, key);
      assert TableLookup(buckets[..], hash, key) == MapGet(contents, key);
      var s := Slot(key);
      var chain := buckets[s];
      var i := 0;
      while i < |chain|
        invariant 0 <= i <= |chain|
        invariant NextMatch(chain, key, 0) == NextMatch(chain, key, i)
      {
        if chain[i].key == key {
          value := Some(chain[i].value);
          if i > 0 {
            buckets[s] := MoveToFront(chain, i);
          } else {
            assert MoveToFront(chain, 0) == chain;
            assert buckets[..] == old(buckets[..])[s := chain];
          }
          return true, value;
        }
        i := i + 1;
      }
      assert buckets[..] == old(buckets[..])[s := chain];
      return false, None;
    }

    /** hash_iter (macelf/hashtable.c:69-93): the next item matching key after
        the cursor, starting at the head of the key's bucket for a NULL cursor
        and going on along the cursor's chain otherwise. */
    method Iter(key: K, iter: Option<Cursor>) returns (found: bool, value: Option<V>, next: Option<Cursor>)
      requires Valid()
      requires iter.Some? ==> IsItem(iter.value)
      ensures var b := if iter.None? then Slot(key) else iter.value.bucket;
              var from := if iter.None? then 0 else iter.value.index + 1;
              match NextMatch(buckets[b], key, from)
              case Some(j) => found && value == Some(buckets[b][j].value) && next == Some(Cursor(b, j))
              case None => !found && value.None? && next.None?
      ensures iter.None? ==> (found <==> key in contents) && value == MapGet(contents, key)
      ensures iter.Some? && buckets[iter.value.bucket][iter.value.index].key == key ==> !found
    {
      var b, j;
      if iter.None? {
        b, j := Slot(key), 0;
        assert TableLookup(buckets[..], hash, key) == MapGet(contents, key);
      } else {
        b, j := iter.value.bucket, iter.value.index + 1;
      }
      var chain := buckets[b];
      while j < |chain|
        invariant j <= |chain|
        invariant NextMatch(chain, key, if iter.None? then 0 else iter.value.index + 1) == NextMatch(chain, key, j)
      {
        if chain[j].key == key {
          return true, Some(chain[j].value), Some(Cursor(b, j));
        }
        j := j + 1;
      }
      return false, None, None;
    }

    /** hash_iter_keys (macelf/hashtable.c:95-121): the item after the cursor
        in bucket order, every item coming after the NULL cursor; when the
        cursor's chain ends, the walk goes on from the bucket after its key's. */
    method IterKeys(iter: Option<Cursor>) returns (found: bool, key: Option<K>, next: Option<Cursor>)
      requires Valid()
      requires iter.Some? ==> IsItem(iter.value)
      ensures found <==> next.Some?
      ensures found ==> IsItem(next.value) && key == Some(buckets[next.value.bucket][next.value.index].key)
                        && AfterCursor(iter, next.value.bucket, next.value.index)
      ensures found ==> forall b, i :: 0 <= b < TableLen && 0 <= i < |buckets[b]| && AfterCursor(iter, b, i) ==>
                          !Before(b, i, next.value.bucket, next.value.index)
      ensures !found ==> key.None? && forall b, i :: 0 <= b < TableLen && 0 <= i < |buckets[b]| ==> !AfterCursor(iter, b, i)
    {
      var item: Option<Cursor> := None;
      var idx := 0;
      if iter.Some? {
        var orig := iter.value;
        if orig.index + 1 < |buckets[orig.bucket]| {
          item := Some(Cursor(orig.bucket, orig.index + 1));
        } else {
          idx := Slot(buckets[orig.bucket][orig.index].key) + 1;
        }
      }
      while item.None? && idx < TableLen
        invariant 0 <= idx <= TableLen
        invariant item.None? ==> forall b, i :: 0 <= b < idx && 0 <= i < |buckets[b]| ==> !AfterCursor(iter, b, i)
        invariant item.None? && iter.Some? ==> iter.value.bucket < idx
        invariant item.Some? ==> IsItem(item.value) && AfterCursor(iter, item.value.bucket, item.value.index)
        invariant item.Some? ==> forall b, i :: 0 <= b < TableLen && 0 <= i < |buckets[b]| && AfterCursor(iter, b, i) ==>
                                   !Before(b, i, item.value.bucket, item.value.index)
        decreases TableLen - idx
      {
        if |buckets[idx]| > 0 {
          item := Some(Cursor(idx, 0));
        }
        idx := idx + 1;
      }
      if item.None? {
        return false, None, None;
      }
      return true, Some(buckets[item.value.bucket][item.value.index].key), item;
    }

    /** hash_insert (macelf/hashtable.c:123-141): 0 when the key is already
        present (hash_find has then moved it to the head), -1 when malloc
        fails, and otherwise 1 with the new item at the head of its chain. */
    method Insert(key: K, value: V, allocOk: bool) returns (r: int)
      requires Valid()
      modifies this, buckets
      ensures Valid() && nuked == old(nuked)
      ensures old(key in contents) ==>
                (r == 0 && contents == old(contents)
                 && buckets[..] == old(buckets[..])[Slot(key) := FindChain(old(buckets[Slot(key)]), key)])
      ensures key !in old(contents) && !allocOk ==>
                (r == -1 && contents == old(contents) && buckets[..] == old(buckets[..]))
      ensures key !in old(contents) && allocOk ==>
                (r == 1 && contents == old(contents)[key := value]
                 && buckets[..] == old(buckets[..])[Slot(key) := [Item(key, value)] + old(buckets[Slot(key)])])
    {
      var s := Slot(key);
      var present, _ := Find(key);
      if present {
        return 0;
      }
      assert FindChain(old(buckets[s]), key) == old(buckets[s]);
      assert buckets[..] == old(buckets[..]);
      if !allocOk {
        return -1;
      }
      PrependKeeps(buckets[..], hash, contents, key, value);
      buckets[s] := [Item(key, value)] + buckets[s];
      contents := contents[key := value];
      return 1;
    }

    /** hash_remove (macelf/hashtable.c:190-214): 1 after unlinking the first
        item matching key and nuking it once; 0, changing nothing, when the
        key is absent. */
    method Remove(key: K) returns (r: int)
      requires Valid()
      modifies this, buckets
      ensures Valid()
      ensures r == 1 <==> key in old(contents)
      ensures r == 0 || r == 1
      ensures contents == old(contents) - {key}
      ensures nuked == old(nuked) + (if key in old(contents) then [Item(key, old(contents)[key])] else [])
      ensures buckets[..] == old(buckets[..])[Slot(key) := RemoveChain(old(buckets[Slot(key)]), key)]
    {
      var s := Slot(key);
      RemoveChainKeeps(buckets[..], hash, contents, key);
      assert TableLookup(buckets[..], hash, key) == MapGet(contents, key);
      var chain := buckets[s];
      var i := 0;
      while i < |chain|
        invariant 0 <= i <= |chain|
        invariant NextMatch(chain, key, 0) == NextMatch(chain, key, i)
      {
        if chain[i].key == key {
          buckets[s] := RemoveAt(chain, i);
          nuked := nuked + [chain[i]];
          contents := contents - {key};
          return 1;
        }
        i := i + 1;
      }
      assert buckets[..] == old(buckets[..])[s := chain];
      contents := contents - {key};
      return 0;
    }

    /** hash_destroy (macelf/hashtable.c:170-188): every item nuked, bucket by
        bucket and along each chain, and the table freed. */
    method Destroy()
      requires Valid()
      modifies this
      ensures !live && nuked == old(nuked) + Flatten(buckets[..])
    {
      NukeBuckets(buckets[..]);
      live := false;
    }

    /** The outer loop of hash_destroy: nuke the chains bucket by bucket. */
    method NukeBuckets(chains: seq<seq<Item<K, V>>>)
      modifies this
      ensures nuked == old(nuked) + Flatten(chains)
      ensures contents == old(contents) && live == old(live)
    {
      var i := 0;
      while i < |chains|
        invariant 0 <= i <= |chains|
        invariant nuked == old(nuked) + Flatten(chains[..i])
        invariant contents == old(contents) && live == old(live)
      {
        NukeChain(chains[i]);
        FlattenStep(chains, i + 1);
        i := i + 1;
      }
      assert chains[..|chains|] == chains;
    }

    /** The inner loop of hash_destroy: nuke each item of a chain in order. */
    method NukeChain(chain: seq<Item<K, V>>)
      modifies this
      ensures nuked == old(nuked) + chain
      ensures contents == old(contents) && live == old(live)
    {
      var j := 0;
      while j < |chain|
        invariant 0 <= j <= |chain|
        invariant nuked == old(nuked) + chain[..j]
        invariant contents == old(contents) && live == old(live)
      {
        nuked := nuked + [chain[j]];
        j := j + 1;
      }
      assert chain[..|chain|] == chain;
    }
  }
}
