// tassocarray.h: TAssocArray, the chained hash table of the library, and its
// iterator TAssocArrayIter.  A table is an array of buckets; a bucket is a
// TArray of key/value pairs, written here as a sequence (the TArray
// operations it uses, += and shrinkRemove, are the ones proved in Arrays).
// hashKeyToInt is a parameter of the table: the library's string hash reads
// memory word by word and depends on the machine.
module AssocArray {
  import opened Outcomes

  /** TAssocArrayPair: a key and its value. */
  datatype Pair<K, V> = Pair(key: K, value: V)

  /** some_primes (tassocarray.h:39-41) without its 0 terminator. */
  const Primes: seq<nat> := [11, 31, 101, 307, 1009, 3001, 10007, 30011, 100003, 300007,
                             1000003, 3000017, 10000019, 30000001, 100000007, 300000007, 1000000007]

  /**
   * hashKeyToInt(key) % unsigned(size): the int hash code is converted to
   * unsigned before the remainder is taken (tassocarray.h:253, 301, 327).
   */
  function Slot(code: int, size: nat): (b: nat)
    requires size >= 1
    ensures b < size
  {
    (code % 0x1_0000_0000) % size
  }

  // ---------------------------------------------------------------- buckets

  /** No key occurs twice in es. */
  predicate KeysDistinct<K(==), V>(es: seq<Pair<K, V>>)
  {
    forall i, j :: 0 <= i < j < |es| ==> es[i].key != es[j].key
  }

  /**
   * TArray::find on a bucket, comparing pairs by key (TAssocArrayPair's
   * operator==): the least index holding key k, or -1.
   */
  function FindKey<K(==), V>(es: seq<Pair<K, V>>, k: K): (r: int)
    ensures -1 <= r < |es|
    ensures r >= 0 ==> es[r].key == k && forall j :: 0 <= j < r ==> es[j].key != k
    ensures r < 0 <==> forall j :: 0 <= j < |es| ==> es[j].key != k
  {
    if es == [] then -1
    else if es[0].key == k then 0
    else
      var r := FindKey(es[1..], k);
      if r < 0 then -1 else r + 1
  }

  /** The value of the first pair of es with key k. */
  function LookupIn<K(==), V>(es: seq<Pair<K, V>>, k: K): Option<V>
  {
    var i := FindKey(es, k);
    if i < 0 then None else Some(es[i].value)
  }

  /** Looking k up in a + b finds it in a, or else in b. */
  lemma LookupInAppend<K, V>(a: seq<Pair<K, V>>, b: seq<Pair<K, V>>, k: K)
    ensures LookupIn(a + b, k) == if LookupIn(a, k).Some? then LookupIn(a, k) else LookupIn(b, k)
  {
    var ia, ib := FindKey(a, k), FindKey(b, k);
    if ia >= 0 {
      assert (a + b)[ia] == a[ia];
    } else if ib >= 0 {
      assert (a + b)[|a| + ib] == b[ib];
    }
  }

  // ---------------------------------------------------------------- tables

  /** The pairs of all buckets, bucket by bucket: the order the iterator visits them in. */
  function Flatten<E>(t: seq<seq<E>>): (r: seq<E>)
  {
    if t == [] then [] else t[0] + Flatten(t[1..])
  }

  lemma {:induction false} FlattenAppend<E>(a: seq<seq<E>>, b: seq<seq<E>>)
    ensures Flatten(a + b) == Flatten(a) + Flatten(b)
  {
    if a != [] {
      assert (a + b)[1..] == a[1..] + b;
      FlattenAppend(a[1..], b);
    } else {
      assert a + b == b;
    }
  }

  /** Flatten(t[..h + 1]) adds bucket h to Flatten(t[..h]). */
  lemma FlattenStep<E>(t: seq<seq<E>>, h: nat)
    requires h < |t|
    ensures Flatten(t[..h + 1]) == Flatten(t[..h]) + t[h]
  {
    assert t[..h + 1] == t[..h] + [t[h]];
    FlattenAppend(t[..h], [t[h]]);
    assert Flatten([t[h]]) == t[h] + Flatten([t[h]][1..]);
  }

  /** Pair j of bucket h sits at position |Flatten(t[..h])| + j of Flatten(t). */
  lemma FlattenAt<E>(t: seq<seq<E>>, h: nat, j: nat)
    requires h < |t| && j < |t[h]|
    ensures |Flatten(t[..h])| + j < |Flatten(t)|
    ensures Flatten(t)[|Flatten(t[..h])| + j] == t[h][j]
  {
    assert t == t[..h + 1] + t[h + 1..];
    FlattenAppend(t[..h + 1], t[h + 1..]);
    FlattenStep(t, h);
  }

  /** Replacing bucket s replaces its stretch of Flatten(t). */
  lemma FlattenUpdate<E>(t: seq<seq<E>>, s: nat, x: seq<E>)
    requires s < |t|
    ensures Flatten(t) == Flatten(t[..s]) + t[s] + Flatten(t[s + 1..])
    ensures Flatten(t[s := x]) == Flatten(t[..s]) + x + Flatten(t[s + 1..])
  {
    var u := t[s := x];
    assert t == (t[..s] + [t[s]]) + t[s + 1..];
    assert u == (t[..s] + [x]) + t[s + 1..];
    FlattenAppend(t[..s] + [t[s]], t[s + 1..]);
    FlattenAppend(t[..s] + [x], t[s + 1..]);
    FlattenAppend(t[..s], [t[s]]);
    FlattenAppend(t[..s], [x]);
    assert Flatten([x]) == x + Flatten([x][1..]);
    assert Flatten([t[s]]) == t[s] + Flatten([t[s]][1..]);
  }

  /** A table of empty buckets holds no pair. */
  lemma {:induction false} FlattenAllEmpty<E>(t: seq<seq<E>>)
    requires forall b :: 0 <= b < |t| ==> t[b] == []
    ensures Flatten(t) == []
  {
    if t != [] {
      FlattenAllEmpty(t[1..]);
    }
  }

  /** Every pair of Flatten(t) comes from some bucket of t. */
  lemma {:induction false} FlattenFrom<E>(t: seq<seq<E>>, x: E)
    requires x in Flatten(t)
    ensures exists b, j :: 0 <= b < |t| && 0 <= j < |t[b]| && t[b][j] == x
  {
    if x in t[0] {
      var j :| 0 <= j < |t[0]| && t[0][j] == x;
      assert t[0][j] == x;
    } else {
      FlattenFrom(t[1..], x);
      var b, j :| 0 <= b < |t[1..]| && 0 <= j < |t[1..][b]| && t[1..][b][j] == x;
      assert t[b + 1][j] == x;
    }
  }

  /** Every pair of table t lies in the bucket its key hashes to (tassocarray.h:253, 301). */
  predicate Placed<K(==), V>(hash: K -> int, t: seq<seq<Pair<K, V>>>)
  {
    forall b, j :: 0 <= b < |t| && 0 <= j < |t[b]| ==> Slot(hash(t[b][j].key), |t|) == b
  }

  /** No bucket holds a key twice. */
  predicate BucketsDistinct<K(==), V>(t: seq<seq<Pair<K, V>>>)
  {
    forall b :: 0 <= b < |t| ==> KeysDistinct(t[b])
  }

  /** The table invariant: a listed number of buckets, every pair in its bucket, no key twice in a bucket. */
  predicate WellFormed<K(==), V>(hash: K -> int, t: seq<seq<Pair<K, V>>>)
  {
    |t| in Primes && Placed(hash, t) && BucketsDistinct(t)
  }

  /** A pair with key k and value v is stored somewhere in t. */
  ghost predicate Stored<K, V>(t: seq<seq<Pair<K, V>>>, k: K, v: V)
  {
    exists b, j :: 0 <= b < |t| && 0 <= j < |t[b]| && t[b][j] == Pair(k, v)
  }

  /** Some pair with key k is stored in t. */
  ghost predicate HasKey<K, V>(t: seq<seq<Pair<K, V>>>, k: K)
  {
    exists b, j :: 0 <= b < |t| && 0 <= j < |t[b]| && t[b][j].key == k
  }

  /** The lookup the table performs: find k in the bucket it hashes to. */
  function Lookup<K(==), V>(hash: K -> int, t: seq<seq<Pair<K, V>>>, k: K): Option<V>
    requires |t| >= 1
  {
    LookupIn(t[Slot(hash(k), |t|)], k)
  }

  /**
   * Looking into one bucket is enough: in a well-formed table, the lookup
   * finds v for k exactly when the pair (k, v) is stored, and finds nothing
   * exactly when no pair has key k (tassocarray.h:327-332, 349-352).
   */
  lemma LookupStored<K, V>(hash: K -> int, t: seq<seq<Pair<K, V>>>, k: K)
    requires WellFormed(hash, t)
    ensures Lookup(hash, t, k).None? <==> !HasKey(t, k)
    ensures forall v :: Lookup(hash, t, k) == Some(v) <==> Stored(t, k, v)
  {
    var s := Slot(hash(k), |t|);
    var i := FindKey(t[s], k);
    if i >= 0 {
      assert t[s][i] == Pair(k, t[s][i].value);
      forall v | Stored(t, k, v) ensures Lookup(hash, t, k) == Some(v) {
        var b, j :| 0 <= b < |t| && 0 <= j < |t[b]| && t[b][j] == Pair(k, v);
        assert b == s;
      }
    }
  }

  /** No key is stored twice anywhere in a well-formed table. */
  lemma NoDuplicateKeys<K, V>(hash: K -> int, t: seq<seq<Pair<K, V>>>, b1: nat, j1: nat, b2: nat, j2: nat)
    requires WellFormed(hash, t)
    requires b1 < |t| && j1 < |t[b1]| && b2 < |t| && j2 < |t[b2]|
    requires t[b1][j1].key == t[b2][j2].key
    ensures b1 == b2 && j1 == j2
  {
    assert b1 == Slot(hash(t[b1][j1].key), |t|);
    assert b2 == Slot(hash(t[b2][j2].key), |t|);
  }

  // ---------------------------------------------------------------- insertion

  /** table[hash] += pair (tassocarray.h:253-254, 261-262). */
  function Insert<K(==), V>(hash: K -> int, t: seq<seq<Pair<K, V>>>, k: K, v: V): seq<seq<Pair<K, V>>>
    requires |t| >= 1
  {
    var s := Slot(hash(k), |t|);
    t[s := t[s] + [Pair(k, v)]]
  }

  /** Inserting an absent key keeps the table well formed and adds one pair. */
  lemma InsertWellFormed<K, V>(hash: K -> int, t: seq<seq<Pair<K, V>>>, k: K, v: V)
    requires WellFormed(hash, t) && Lookup(hash, t, k).None?
    ensures WellFormed(hash, Insert(hash, t, k, v))
    ensures |Flatten(Insert(hash, t, k, v))| == |Flatten(t)| + 1
  {
    var s := Slot(hash(k), |t|);
    var u := Insert(hash, t, k, v);
    assert FindKey(t[s], k) < 0;
    assert KeysDistinct(u[s]) by {
      forall i, j | 0 <= i < j < |u[s]| ensures u[s][i].key != u[s][j].key {
        if j < |t[s]| { assert u[s][i] == t[s][i] && u[s][j] == t[s][j]; }
      }
    }
    FlattenUpdate(t, s, u[s]);
  }

  /** After inserting (k, v), k finds v and every other key finds what it found before. */
  lemma InsertLookup<K, V>(hash: K -> int, t: seq<seq<Pair<K, V>>>, k: K, v: V, k': K)
    requires |t| >= 1 && Lookup(hash, t, k).None?
    ensures Lookup(hash, Insert(hash, t, k, v), k') == if k' == k then Some(v) else Lookup(hash, t, k')
  {
    var s := Slot(hash(k), |t|);
    if Slot(hash(k'), |t|) == s {
      LookupInAppend(t[s], [Pair(k, v)], k');
      assert FindKey([Pair(k, v)], k') == if k' == k then 0 else -1;
    }
  }

  /**
   * In a well-formed table, the lookup agrees with a scan of all pairs in
   * iteration order: buckets before Slot(k) cannot hold k.
   */
  lemma {:induction false} FlattenLookup<K, V>(hash: K -> int, t: seq<seq<Pair<K, V>>>, k: K, m: nat)
    requires |t| >= 1 && Placed(hash, t) && m <= |t|
    ensures LookupIn(Flatten(t[..m]), k) == if Slot(hash(k), |t|) < m then Lookup(hash, t, k) else None
  {
    if m == 0 {
      assert t[..0] == [];
    } else {
      FlattenLookup(hash, t, k, m - 1);
      FlattenStep(t, m - 1);
      LookupInAppend(Flatten(t[..m - 1]), t[m - 1], k);
      if Slot(hash(k), |t|) != m - 1 {
        var c := t[m - 1];
        assert FindKey(c, k) < 0 by {
          forall j | 0 <= j < |c| ensures c[j].key != k {
            assert Slot(hash(c[j].key), |t|) == m - 1;
          }
        }
      }
    }
  }

  /** In a well-formed table no key occurs twice in iteration order either. */
  lemma {:induction false} FlattenDistinct<K, V>(hash: K -> int, t: seq<seq<Pair<K, V>>>, m: nat)
    requires |t| >= 1 && Placed(hash, t) && BucketsDistinct(t) && m <= |t|
    ensures KeysDistinct(Flatten(t[..m]))
  {
    if m == 0 {
      assert t[..0] == [];
    } else {
      FlattenDistinct(hash, t, m - 1);
      FlattenStep(t, m - 1);
      var a: seq<Pair<K, V>>, c: seq<Pair<K, V>> := Flatten(t[..m - 1]), t[m - 1];
      forall i, j | 0 <= i < j < |a + c| ensures (a + c)[i].key != (a + c)[j].key {
        if i < |a| <= j {
          FlattenFrom(t[..m - 1], a[i]);
          var b, jj :| 0 <= b < m - 1 && 0 <= jj < |t[..m - 1][b]| && t[..m - 1][b][jj] == a[i];
          assert Slot(hash(t[b][jj].key), |t|) == b;
          assert Slot(hash(c[j - |a|].key), |t|) == m - 1;
        }
      }
    }
  }

  // ---------------------------------------------------------------- optimizeSize

  /** new TArray<TAssocArrayPair<Key,T> >[n]: n empty buckets. */
  function EmptyTable<E>(n: nat): (t: seq<seq<E>>)
    ensures |t| == n && forall b :: 0 <= b < n ==> t[b] == []
  {
    seq(n, _ => [])
  }

  /**
   * The table optimizeSize builds (tassocarray.h:297-304): the pairs es,
   * in order, each appended to the bucket of an n-bucket table its key
   * hashes to.
   */
  function Distribute<K, V>(hash: K -> int, es: seq<Pair<K, V>>, n: nat): (t: seq<seq<Pair<K, V>>>)
    requires n >= 1
    ensures |t| == n
  {
    if es == [] then EmptyTable(n)
    else
      var d := Distribute(hash, es[..|es| - 1], n);
      var e := es[|es| - 1];
      var s := Slot(hash(e.key), n);
      d[s := d[s] + [e]]
  }

  /** Every pair of a distributed table comes from es. */
  lemma {:induction false} DistributeFrom<K, V>(hash: K -> int, es: seq<Pair<K, V>>, n: nat, b: nat, j: nat)
    requires n >= 1 && b < n && j < |Distribute(hash, es, n)[b]|
    ensures Distribute(hash, es, n)[b][j] in es
  {
    if es != [] {
      var p := es[..|es| - 1];
      var d := Distribute(hash, p, n);
      if j < |d[b]| {
        DistributeFrom(hash, p, n, b, j);
      }
    }
  }

  /** Distributing pairs with distinct keys gives a well-formed table of the same pairs. */
  lemma {:induction false} DistributeWellFormed<K, V>(hash: K -> int, es: seq<Pair<K, V>>, n: nat)
    requires n >= 1 && KeysDistinct(es)
    ensures Placed(hash, Distribute(hash, es, n)) && BucketsDistinct(Distribute(hash, es, n))
    ensures |Flatten(Distribute(hash, es, n))| == |es|
  {
    if es == [] {
      FlattenAllEmpty(EmptyTable<Pair<K, V>>(n));
    } else {
      var p, e := es[..|es| - 1], es[|es| - 1];
      var d := Distribute(hash, p, n);
      var s := Slot(hash(e.key), n);
      assert KeysDistinct(p);
      DistributeWellFormed(hash, p, n);
      FlattenUpdate(d, s, d[s] + [e]);
      forall i | 0 <= i < |d[s]| ensures d[s][i].key != e.key {
        DistributeFrom(hash, p, n, s, i);
      }
      AppendPlaced(hash, d, s, e);
      AppendDistinct(d, s, e);
    }
  }

  /** A pair appended to the bucket its key hashes to stays placed. */
  lemma AppendPlaced<K, V>(hash: K -> int, d: seq<seq<Pair<K, V>>>, s: nat, e: Pair<K, V>)
    requires Placed(hash, d) && s < |d| && s == Slot(hash(e.key), |d|)
    ensures Placed(hash, d[s := d[s] + [e]])
  {
  }

  /** A pair whose key its bucket lacks keeps the buckets free of duplicates. */
  lemma AppendDistinct<K, V>(d: seq<seq<Pair<K, V>>>, s: nat, e: Pair<K, V>)
    requires BucketsDistinct(d) && s < |d|
    requires forall i :: 0 <= i < |d[s]| ==> d[s][i].key != e.key
    ensures BucketsDistinct(d[s := d[s] + [e]])
  {
    assert KeysDistinct(d[s] + [e]);
  }

  /** Looking k up in a distributed table finds the first pair of es with key k. */
  lemma {:induction false} DistributeLookup<K, V>(hash: K -> int, es: seq<Pair<K, V>>, n: nat, k: K)
    requires n >= 1
    ensures Lookup(hash, Distribute(hash, es, n), k) == LookupIn(es, k)
  {
    if es != [] {
      var p, e := es[..|es| - 1], es[|es| - 1];
      var d := Distribute(hash, p, n);
      var s := Slot(hash(e.key), n);
      DistributeLookup(hash, p, n, k);
      assert es == p + [e];
      LookupInAppend(p, [e], k);
      if Slot(hash(k), n) == s {
        LookupInAppend(d[s], [e], k);
      }
    }
  }

  /**
   * optimizeSize keeps every pair: rehashing a well-formed table into n
   * listed-prime buckets gives a well-formed table with as many pairs
   * (tassocarray.h:290-308).
   */
  lemma RehashWellFormed<K, V>(hash: K -> int, t: seq<seq<Pair<K, V>>>, n: nat)
    requires WellFormed(hash, t) && n in Primes
    ensures WellFormed(hash, Distribute(hash, Flatten(t), n))
    ensures |Flatten(Distribute(hash, Flatten(t), n))| == |Flatten(t)|
  {
    assert t[..|t|] == t;
    FlattenDistinct(hash, t, |t|);
    DistributeWellFormed(hash, Flatten(t), n);
  }

  /** After rehashing, every key finds what it found before. */
  lemma RehashLookup<K, V>(hash: K -> int, t: seq<seq<Pair<K, V>>>, n: nat, k: K)
    requires WellFormed(hash, t) && n >= 1
    ensures Lookup(hash, Distribute(hash, Flatten(t), n), k) == Lookup(hash, t, k)
  {
    assert t[..|t|] == t;
    DistributeLookup(hash, Flatten(t), n, k);
    FlattenLookup(hash, t, k, |t|);
  }

  // ---------------------------------------------------------------- remove

  /**
   * table[hash].shrinkRemove(find(key)) for a present key (tassocarray.h:355-359):
   * the bucket's last pair moves into the freed place (tarray.h:222-225).
   */
  function Delete<K(==), V>(hash: K -> int, t: seq<seq<Pair<K, V>>>, k: K): seq<seq<Pair<K, V>>>
    requires |t| >= 1 && Lookup(hash, t, k).Some?
  {
    var s := Slot(hash(k), |t|);
    var i, m := FindKey(t[s], k), |t[s]| - 1;
    t[s := t[s][i := t[s][m]][..m]]
  }

  /** The bucket Delete leaves: pair i replaced by the last one, which is dropped. */
  lemma DeleteBucket<K, V>(hash: K -> int, t: seq<seq<Pair<K, V>>>, k: K)
    requires |t| >= 1 && Lookup(hash, t, k).Some?
    ensures var s := Slot(hash(k), |t|); var i := FindKey(t[s], k);
      var u := Delete(hash, t, k);
      0 <= i < |t[s]| && t[s][i].key == k && |u| == |t| && |u[s]| == |t[s]| - 1 &&
      (forall b :: 0 <= b < |t| && b != s ==> u[b] == t[b]) &&
      (forall j :: 0 <= j < |u[s]| ==> u[s][j] == if j == i then t[s][|t[s]| - 1] else t[s][j])
  {
  }

  /** Removing a present key keeps the table well formed and takes one pair away. */
  lemma DeleteWellFormed<K, V>(hash: K -> int, t: seq<seq<Pair<K, V>>>, k: K)
    requires WellFormed(hash, t) && Lookup(hash, t, k).Some?
    ensures WellFormed(hash, Delete(hash, t, k))
    ensures |Flatten(Delete(hash, t, k))| == |Flatten(t)| - 1
  {
    var s := Slot(hash(k), |t|);
    var b := t[s];
    var i, m := FindKey(b, k), |b| - 1;
    var u: seq<seq<Pair<K, V>>> := Delete(hash, t, k);
    DeleteBucket(hash, t, k);
    assert KeysDistinct(u[s]) by {
      forall j1, j2 | 0 <= j1 < j2 < m ensures u[s][j1].key != u[s][j2].key {
        if j1 == i { assert b[m].key != b[j2].key; }
        else if j2 == i { assert b[j1].key != b[m].key; }
        else { assert b[j1].key != b[j2].key; }
      }
    }
    FlattenUpdate(t, s, u[s]);
  }

  /** After removing k, k is not found. */
  lemma DeleteForgets<K, V>(hash: K -> int, t: seq<seq<Pair<K, V>>>, k: K)
    requires WellFormed(hash, t) && Lookup(hash, t, k).Some?
    ensures Lookup(hash, Delete(hash, t, k), k).None?
  {
    var s := Slot(hash(k), |t|);
    var b := t[s];
    var i, m := FindKey(b, k), |b| - 1;
    var u: seq<seq<Pair<K, V>>> := Delete(hash, t, k);
    DeleteBucket(hash, t, k);
    forall j | 0 <= j < |u[s]| ensures u[s][j].key != k {
      if j == i { assert b[m].key != b[i].key; } else { assert b[j].key != b[i].key; }
    }
  }

  /** shrinkRemove of pair i in a bucket of distinct keys changes no other key's lookup. */
  lemma ShrinkLookup<K, V>(b: seq<Pair<K, V>>, i: nat, k': K)
    requires KeysDistinct(b) && i < |b| && b[i].key != k'
    ensures LookupIn(b[i := b[|b| - 1]][..|b| - 1], k') == LookupIn(b, k')
  {
    var m := |b| - 1;
    var c := b[i := b[m]][..m];
    assert forall j :: 0 <= j < m ==> c[j] == if j == i then b[m] else b[j];
    var r, r' := FindKey(b, k'), FindKey(c, k');
    if r >= 0 && r < m {
      assert c[r] == b[r];
    } else if r == m {
      assert c[i] == b[m];
    }
  }

  /** Removing k changes the lookup of no other key. */
  lemma DeleteKeepsOthers<K, V>(hash: K -> int, t: seq<seq<Pair<K, V>>>, k: K, k': K)
    requires WellFormed(hash, t) && Lookup(hash, t, k).Some? && k' != k
    ensures Lookup(hash, Delete(hash, t, k), k') == Lookup(hash, t, k')
  {
    var s := Slot(hash(k), |t|);
    if Slot(hash(k'), |t|) == s {
      ShrinkLookup(t[s], FindKey(t[s], k), k');
    }
  }

  // ---------------------------------------------------------------- overwrite

  /** Writing x through the reference operator[] returns for a present key (tassocarray.h:331). */
  function Overwrite<K(==), V>(hash: K -> int, t: seq<seq<Pair<K, V>>>, k: K, x: V): seq<seq<Pair<K, V>>>
    requires |t| >= 1 && Lookup(hash, t, k).Some?
  {
    var s := Slot(hash(k), |t|);
    t[s := t[s][FindKey(t[s], k) := Pair(k, x)]]
  }

  /** Overwriting keeps the table well formed and its size, and changes only k's value. */
  lemma OverwriteKeeps<K, V>(hash: K -> int, t: seq<seq<Pair<K, V>>>, k: K, x: V, k': K)
    requires WellFormed(hash, t) && Lookup(hash, t, k).Some?
    ensures WellFormed(hash, Overwrite(hash, t, k, x))
    ensures |Flatten(Overwrite(hash, t, k, x))| == |Flatten(t)|
    ensures Lookup(hash, Overwrite(hash, t, k, x), k') == if k' == k then Some(x) else Lookup(hash, t, k')
  {
    var s := Slot(hash(k), |t|);
    var u: seq<seq<Pair<K, V>>> := Overwrite(hash, t, k, x);
    var i := FindKey(t[s], k);
    assert forall j :: 0 <= j < |t[s]| ==> u[s][j].key == t[s][j].key;
    FlattenUpdate(t, s, u[s]);
    if Slot(hash(k'), |t|) == s {
      var r := FindKey(t[s], k');
      if r >= 0 { assert u[s][r].key == k'; }
    }
  }

  // ---------------------------------------------------------------- the table

  /** The bucket count optimizeSize picks for num pairs is Primes[i]: the first listed prime >= num, or the largest. */
  predicate IsNewSize(num: int, i: nat)
  {
    i < |Primes| && (forall j :: 0 <= j < i ==> Primes[j] < num) && (num <= Primes[i] || i == |Primes| - 1)
  }

  /** The search loop of optimizeSize (tassocarray.h:293-295). */
  method SizeIndex(num: int) returns (i: nat)
    ensures IsNewSize(num, i)
  {
    i := 0;
    while i < |Primes| && num > Primes[i]
      invariant i <= |Primes|
      invariant forall j :: 0 <= j < i ==> Primes[j] < num
    {
      i := i + 1;
    }
    if i == |Primes| {
      i := i - 1;
    }
  }

  /** The inner loop of optimizeSize: the pairs of one old bucket appended, in order, to their new buckets. */
  method Scatter<K, V>(hash: K -> int, grown: array<seq<Pair<K, V>>>, bucket: seq<Pair<K, V>>, ghost es: seq<Pair<K, V>>)
    requires grown.Length >= 1 && grown[..] == Distribute(hash, es, grown.Length)
    modifies grown
    ensures grown[..] == Distribute(hash, es + bucket, grown.Length)
  {
    assert es + bucket[..0] == es;
    for j := 0 to |bucket|
      invariant grown[..] == Distribute(hash, es + bucket[..j], grown.Length)
    {
      var e := bucket[j];
      var s := Slot(hash(e.key), grown.Length);
      ghost var done := es + bucket[..j];
      assert (done + [e])[..|done|] == done;
      assert es + bucket[..j + 1] == done + [e];
      grown[s] := grown[s] + [e];
    }
    assert bucket[..|bucket|] == bucket;
  }

  /** The outer loop of optimizeSize (tassocarray.h:296-305): a new table of n buckets holding the pairs of t. */
  method Rehashed<K, V>(hash: K -> int, t: array<seq<Pair<K, V>>>, n: nat) returns (grown: array<seq<Pair<K, V>>>)
    requires n >= 1
    ensures fresh(grown) && grown[..] == Distribute(hash, Flatten(t[..]), n)
  {
    grown := new seq<Pair<K, V>>[n](_ => []);
    assert grown[..] == EmptyTable(n);
    assert t[..0] == [];
    for h := 0 to t.Length
      invariant grown[..] == Distribute(hash, Flatten(t[..h]), n)
    {
      Scatter(hash, grown, t[h], Flatten(t[..h]));
      FlattenStep(t[..], h);
      assert t[..h + 1] == t[..][..h + 1] && t[..h] == t[..][..h];
    }
    assert t[..t.Length] == t[..];
  }

  /**
   * TAssocArray<Key,T>.  hash stands for hashKeyToInt on Key and dflt for
   * the value T's default constructor makes; table.Length is size and num
   * is _num.
   */
  class AssocTable<K(==, !new), V> {
    const hash: K -> int
    const dflt: V
    var table: array<seq<Pair<K, V>>>
    var num: int

    /**
     * The table is well formed and num counts at least the stored pairs;
     * it counts exactly them until a remove (see Remove).
     */
    ghost predicate Valid()
      reads this, table
    {
      WellFormed(hash, table[..]) && |Flatten(table[..])| <= num
    }

    /** The stored pairs, bucket by bucket. */
    ghost function Entries(): seq<Pair<K, V>>
      reads this, table
    {
      Flatten(table[..])
    }

    /** What the table holds for k. */
    ghost function Find(k: K): Option<V>
      reads this, table
      requires Valid()
    {
      Lookup(hash, table[..], k)
    }

    /** An empty table of some_primes[0] = 11 buckets (tassocarray.h:311-314). */
    constructor (hash: K -> int, dflt: V)
      ensures Valid() && fresh(table) && Entries() == [] && num == 0 && table.Length == 11
      ensures this.hash == hash && this.dflt == dflt
    {
      this.hash := hash;
      this.dflt := dflt;
      table := new seq<Pair<K, V>>[11](_ => []);
      num := 0;
      new;
      FlattenAllEmpty(table[..]);
    }

    /** The copy constructor: a bucket by bucket copy (tassocarray.h:282-287). */
    constructor Copy(a: AssocTable<K, V>)
      requires a.Valid()
      ensures Valid() && fresh(table) && table[..] == a.table[..] && num == a.num
      ensures hash == a.hash && dflt == a.dflt
    {
      hash := a.hash;
      dflt := a.dflt;
      num := a.num;
      new;
      table := new seq<Pair<K, V>>[a.table.Length];
      for j := 0 to a.table.Length
        modifies table
        invariant table[..j] == a.table[..j]
      {
        table[j] := a.table[j];
      }
      assert table[..] == table[..a.table.Length];
    }

    /** operator=: a copy of a, or nothing at all for a self-assignment (tassocarray.h:270-279). */
    method Assign(a: AssocTable<K, V>)
      requires Valid() && a.Valid() && a.hash == hash
      modifies this
      ensures Valid() && table[..] == old(a.table[..]) && num == old(a.num)
      ensures a == this ==> table == old(table)
      ensures a != this ==> fresh(table)
    {
      if a == this {
        return;
      }
      var copy := new seq<Pair<K, V>>[a.table.Length];
      for j := 0 to a.table.Length
        modifies copy
        invariant copy[..j] == a.table[..j]
      {
        copy[j] := a.table[j];
      }
      assert copy[..] == copy[..a.table.Length];
      table := copy;
      num := a.num;
    }

    /** empty(): back to 11 empty buckets and no pairs (tassocarray.h:317-323). */
    method Empty()
      modifies this
      ensures Valid() && fresh(table) && Entries() == [] && num == 0 && table.Length == 11
    {
      table := new seq<Pair<K, V>>[11](_ => []);
      num := 0;
      FlattenAllEmpty(table[..]);
    }

    /** contains(): whether a pair with key k is stored (tassocarray.h:349-352). */
    function Contains(k: K): (r: bool)
      reads this, table
      requires Valid()
      ensures r <==> HasKey(table[..], k)
    {
      LookupStored(hash, table[..], k);
      FindKey(table[Slot(hash(k), table.Length)], k) >= 0
    }

    /**
     * The const operator[] and operator() (tassocarray.h:334-346): the
     * stored value, or IndexOutOfRange from the bucket's index check when
     * find answered -1.
     */
    function Read(k: K): (r: Result<V>)
      reads this, table
      requires Valid()
      ensures r.Ok? <==> HasKey(table[..], k)
      ensures r.Ok? ==> Stored(table[..], k, r.value)
      ensures r.Err? ==> r.error == IndexOutOfRange
    {
      LookupStored(hash, table[..], k);
      var s := Slot(hash(k), table.Length);
      var i := FindKey(table[s], k);
      if i < 0 then Err(IndexOutOfRange) else Ok(table[s][i].value)
    }

    /**
     * optimizeSize (tassocarray.h:290-308): rehash every pair, bucket by
     * bucket, into a new table of the size IsNewSize describes.
     */
    method OptimizeSize()
      requires Valid()
      modifies this
      ensures Valid() && fresh(table) && num == old(num)
      ensures exists i: nat :: IsNewSize(num, i) && table.Length == Primes[i]
      ensures |Entries()| == old(|Entries()|)
      ensures forall k :: Find(k) == old(Find(k))
    {
      var si := SizeIndex(num);
      var n := Primes[si];
      ghost var t := table[..];
      var grown := Rehashed(hash, table, n);
      table := grown;
      RehashWellFormed(hash, t, n);
      forall k ensures Lookup(hash, table[..], k) == Lookup(hash, t, k) {
        RehashLookup(hash, t, n, k);
      }
    }

    /**
     * The private add (tassocarray.h:251-265), called only for a key find
     * did not find: rehash first when num > 2 * size, then append the pair
     * to its bucket and count it.
     */
    method Add(k: K, v: V)
      requires Valid() && Find(k).None?
      modifies this, table
      ensures Valid() && num == old(num) + 1 && |Entries()| == old(|Entries()|) + 1
      ensures old(num) > 2 * old(table.Length) ==> fresh(table)
      ensures old(num) <= 2 * old(table.Length) ==> table == old(table)
      ensures forall k' :: Find(k') == if k' == k then Some(v) else old(Find(k'))
    {
      if num > 2 * table.Length {
        OptimizeSize();
      }
      ghost var t := table[..];
      var s := Slot(hash(k), table.Length);
      InsertWellFormed(hash, t, k, v);
      forall k' ensures Lookup(hash, Insert(hash, t, k, v), k') == if k' == k then Some(v) else Lookup(hash, t, k') {
        InsertLookup(hash, t, k, v, k');
      }
      table[s] := table[s] + [Pair(k, v)];
      assert table[..] == Insert(hash, t, k, v);
      num := num + 1;
    }

    /**
     * The non-const operator[] read for its value (tassocarray.h:325-332):
     * the stored value, or, for an absent key, a default value added first.
     */
    method Access(k: K) returns (v: V)
      requires Valid()
      modifies this, table
      ensures Valid()
      ensures old(Find(k)).Some? ==> v == old(Find(k)).value && num == old(num) && table == old(table) && unchanged(table)
      ensures old(Find(k)).None? ==> v == dflt && num == old(num) + 1 && |Entries()| == old(|Entries()|) + 1
      ensures forall k' :: Find(k') == if k' == k then Some(v) else old(Find(k'))
    {
      var s := Slot(hash(k), table.Length);
      var i := FindKey(table[s], k);
      if i < 0 {
        Add(k, dflt);
        v := dflt;
      } else {
        v := table[s][i].value;
      }
    }

    /**
     * aa[k] = x: the non-const operator[] used as an lvalue (tassocarray.h:325-332).
     * The pair is added with x directly where the source adds a default
     * value and then writes x through the returned reference.
     */
    method Put(k: K, x: V)
      requires Valid()
      modifies this, table
      ensures Valid()
      ensures num == old(num) + (if old(Find(k)).None? then 1 else 0)
      ensures |Entries()| == old(|Entries()|) + (if old(Find(k)).None? then 1 else 0)
      ensures forall k' :: Find(k') == if k' == k then Some(x) else old(Find(k'))
    {
      var s := Slot(hash(k), table.Length);
      var i := FindKey(table[s], k);
      if i < 0 {
        Add(k, x);
      } else {
        ghost var t := table[..];
        forall k' ensures Lookup(hash, Overwrite(hash, t, k, x), k') == if k' == k then Some(x) else Lookup(hash, t, k') {
          OverwriteKeeps(hash, t, k, x, k');
        }
        OverwriteKeeps(hash, t, k, x, k);
        table[s] := table[s][i := Pair(k, x)];
        assert table[..] == Overwrite(hash, t, k, x);
      }
    }

    /**
     * remove (tassocarray.h:355-359) as written: the pair leaves its bucket
     * but num is not decremented, so afterwards num overstates the number
     * of stored pairs.  An absent key reaches shrinkRemove(-1), whose index
     * check throws IndexOutOfRange before anything changes.
     */
    method Remove(k: K) returns (r: Result<()>)
      requires Valid()
      modifies table
      ensures Valid() && num == old(num)
      ensures r.Ok? <==> old(Find(k)).Some?
      ensures r.Err? ==> r.error == IndexOutOfRange && unchanged(table)
      ensures r.Ok? ==> |Entries()| == old(|Entries()|) - 1 && |Entries()| < num
      ensures forall k' :: Find(k') == if k' == k then None else old(Find(k'))
    {
      var s := Slot(hash(k), table.Length);
      var i := FindKey(table[s], k);
      if i < 0 {
        return Err(IndexOutOfRange);
      }
      ghost var t := table[..];
      DeleteWellFormed(hash, t, k);
      DeleteForgets(hash, t, k);
      forall k' | k' != k ensures Lookup(hash, Delete(hash, t, k), k') == Lookup(hash, t, k') {
        DeleteKeepsOthers(hash, t, k, k');
      }
      var m := |table[s]| - 1;
      table[s] := table[s][i := table[s][m]][..m];
      assert table[..] == Delete(hash, t, k);
      r := Ok(());
    }

    /** remove with the count kept: num goes down with the pairs, so a table whose num was exact stays exact. */
    method RemoveCounted(k: K) returns (r: Result<()>)
      requires Valid()
      modifies this, table
      ensures Valid() && table == old(table)
      ensures r.Ok? <==> old(Find(k)).Some?
      ensures r.Err? ==> r.error == IndexOutOfRange && unchanged(this) && unchanged(table)
      ensures r.Ok? ==> num == old(num) - 1 && |Entries()| == old(|Entries()|) - 1
      ensures old(num == |Entries()|) ==> num == |Entries()|
      ensures forall k' :: Find(k') == if k' == k then None else old(Find(k'))
    {
      r := Remove(k);
      if r.Ok? {
        num := num - 1;
      }
    }
  }

  // ---------------------------------------------------------------- the iterator

  /**
   * TAssocArrayIter<Key,T>: a position (h, i), pair i of bucket h, in the
   * table aa.  Its position in iteration order is Pos().
   */
  class Iter<K(==, !new), V> {
    const aa: AssocTable<K, V>
    var h: int
    var i: int

    /** pointerIsValid (tassocarray.h:180-185). */
    function IsValid(): bool
      reads this, aa, aa.table
    {
      0 <= h < aa.table.Length && 0 <= i < |aa.table[h]|
    }

    /** The number of pairs iteration visits before the current one. */
    ghost function Pos(): int
      reads this, aa, aa.table
      requires 0 <= h <= aa.table.Length
    {
      |Flatten(aa.table[..h])| + i
    }

    /** The constructor: at the first pair, or at the last one with end (tassocarray.h:172-177). */
    constructor (a: AssocTable<K, V>, end: bool)
      ensures aa == a
      ensures IsValid() <==> Flatten(a.table[..]) != []
      ensures IsValid() ==> Pos() == if end then |Flatten(a.table[..])| - 1 else 0
    {
      aa := a;
      h := 0;
      i := 0;
      new;
      if end {
        ToLast();
      } else {
        ToFirst();
      }
    }

    /** The current pair's key and value, or InvalidPointer (tassocarray.h:188-200). */
    function Current(): (r: Result<Pair<K, V>>)
      reads this, aa, aa.table
      ensures r.Ok? <==> IsValid()
      ensures r.Ok? ==> Pos() < |Flatten(aa.table[..])| && r.value == Flatten(aa.table[..])[Pos()]
      ensures r.Err? ==> r.error == InvalidPointer
    {
      if IsValid() then
        FlattenAt(aa.table[..], h, i);
        Ok(aa.table[h][i])
      else Err(InvalidPointer)
    }

    /** toFirst (tassocarray.h:226-230): the first pair of the first non-empty bucket. */
    method ToFirst()
      modifies this
      ensures IsValid() <==> Flatten(aa.table[..]) != []
      ensures IsValid() ==> Pos() == 0
    {
      ghost var t := aa.table[..];
      h := 0;
      i := 0;
      assert t[..0] == [];
      while h < aa.table.Length && |aa.table[h]| == 0
        invariant 0 <= h <= aa.table.Length && i == 0 && Flatten(t[..h]) == []
      {
        FlattenStep(t, h);
        h := h + 1;
      }
      if h < aa.table.Length {
        FlattenAt(t, h, 0);
      } else {
        assert t[..h] == t;
      }
    }

    /** toLast (tassocarray.h:232-237): the last pair of the last non-empty bucket. */
    method ToLast()
      modifies this
      ensures IsValid() <==> Flatten(aa.table[..]) != []
      ensures IsValid() ==> Pos() == |Flatten(aa.table[..])| - 1
    {
      ghost var t := aa.table[..];
      h := aa.table.Length - 1;
      assert t[..h + 1] == t;
      while h >= 0 && |aa.table[h]| == 0
        invariant -1 <= h < aa.table.Length && Flatten(t[..h + 1]) == Flatten(t)
      {
        FlattenStep(t, h);
        h := h - 1;
      }
      if h >= 0 {
        i := |aa.table[h]| - 1;
        FlattenStep(t, h);
      } else {
        assert t[..0] == [];
      }
    }

    /**
     * next (tassocarray.h:202-211): the following pair in iteration order;
     * past the last one the iterator is no longer valid.  An invalid
     * iterator stays where it is.
     */
    method Next()
      modifies this
      ensures old(IsValid()) ==> (IsValid() <==> old(Pos()) + 1 < |Flatten(aa.table[..])|)
      ensures old(IsValid()) && IsValid() ==> Pos() == old(Pos()) + 1
      ensures !old(IsValid()) ==> h == old(h) && i == old(i)
    {
      if IsValid() {
        ghost var t := aa.table[..];
        ghost var p := Pos();
        i := i + 1;
        if i >= |aa.table[h]| {
          FlattenStep(t, h);
          i := 0;
          h := h + 1;
          while h < aa.table.Length && |aa.table[h]| == 0
            invariant 0 <= h <= aa.table.Length && i == 0 && |Flatten(t[..h])| == p + 1
          {
            FlattenStep(t, h);
            h := h + 1;
          }
          if h < aa.table.Length {
            FlattenAt(t, h, 0);
          } else {
            assert t[..h] == t;
          }
        } else {
          FlattenAt(t, h, i);
        }
      }
    }

    /**
     * prev (tassocarray.h:213-224): the preceding pair in iteration order;
     * before the first one the iterator is no longer valid.
     */
    method Prev()
      modifies this
      ensures old(IsValid()) ==> (IsValid() <==> old(Pos()) >= 1)
      ensures old(IsValid()) && IsValid() ==> Pos() == old(Pos()) - 1
      ensures !old(IsValid()) ==> h == old(h) && i == old(i)
    {
      if IsValid() {
        ghost var t := aa.table[..];
        ghost var p := Pos();
        i := i - 1;
        if i < 0 {
          h := h - 1;
          while h >= 0 && |aa.table[h]| == 0
            invariant -1 <= h < aa.table.Length && |Flatten(t[..h + 1])| == p
          {
            FlattenStep(t, h);
            h := h - 1;
          }
          if h >= 0 {
            i := |aa.table[h]| - 1;
            FlattenStep(t, h);
          } else {
            assert t[..0] == [];
          }
        }
      }
    }
  }

  /**
   * A walk from toFirst by next while the iterator is valid visits every
   * stored pair exactly once, bucket by bucket (tassocarray.h:202-230).
   */
  method Visit<K(==, !new), V>(a: AssocTable<K, V>) returns (es: seq<Pair<K, V>>)
    ensures es == Flatten(a.table[..])
  {
    var it := new Iter(a, false);
    es := [];
    while it.IsValid()
      invariant it.aa == a
      invariant |es| <= |Flatten(a.table[..])|
      invariant es == Flatten(a.table[..])[..|es|]
      invariant it.IsValid() ==> it.Pos() == |es|
      invariant !it.IsValid() ==> |es| == |Flatten(a.table[..])|
      decreases |Flatten(a.table[..])| - |es|
    {
      var p := it.Current();
      es := es + [p.value];
      it.Next();
    }
  }
}
