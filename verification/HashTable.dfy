/** The self-resizing hash table of the Nachos library (lib/hash.cc). A bucket is the sequence of the
    items on its list. */
module HashTables {
  import opened Common
  import opened Words

  const INITIAL_BUCKETS := 4
  const RESIZE_RATIO := 3
  const INCREASE_SIZE_BY := 4

  type Table<T> = seq<seq<T>>

  function Bucket<Key>(hash: Key -> word, key: Key, size: int): (b: int)
    requires size > 0
    ensures 0 <= b < size
  {
    hash(key) % size
  }

  /** Every item belongs to the map and sits, once, in the bucket that its key hashes to. */
  ghost predicate Placed<Key(!new), T(!new)>(bs: Table<T>, m: map<Key, T>, getKey: T -> Key, hash: Key -> word)
    requires |bs| > 0
  {
    && (forall b :: 0 <= b < |bs| ==> Distinct(bs[b]))
    && (forall b, x :: 0 <= b < |bs| && x in bs[b] ==>
          getKey(x) in m && m[getKey(x)] == x && Bucket(hash, getKey(x), |bs|) == b)
  }

  /** Exactly the items of the map are in the table. */
  ghost predicate Complete<Key(!new), T>(bs: Table<T>, m: map<Key, T>, getKey: T -> Key, hash: Key -> word)
    requires |bs| > 0
  {
    forall k :: k in m ==> getKey(m[k]) == k && m[k] in bs[Bucket(hash, k, |bs|)]
  }

  function Total<T>(bs: Table<T>): nat {
    if bs == [] then 0 else Total(bs[..|bs| - 1]) + |bs[|bs| - 1]|
  }

  lemma {:induction false} TotalUpdate<T>(bs: Table<T>, b: nat, q: seq<T>)
    requires b < |bs|
    ensures Total(bs[b := q]) == Total(bs) - |bs[b]| + |q|
  {
    var n := |bs| - 1;
    if b == n {
      assert bs[b := q][..n] == bs[..n];
    } else {
      assert bs[b := q][..n] == bs[..n][b := q];
      TotalUpdate(bs[..n], b, q);
    }
  }

  lemma {:induction false} TotalEmpty<T>(bs: Table<T>)
    requires forall b :: 0 <= b < |bs| ==> bs[b] == []
    ensures Total(bs) == 0
  {
    if bs != [] {
      TotalEmpty(bs[..|bs| - 1]);
    }
  }

  /** Appending an item that is not there yet to its bucket. */
  lemma PlacedAppend<Key(!new), T(!new)>(bs: Table<T>, m: map<Key, T>, m': map<Key, T>,
                                         getKey: T -> Key, hash: Key -> word, x: T)
    requires |bs| > 0 && Placed(bs, m, getKey, hash)
    requires getKey(x) in m' && m'[getKey(x)] == x
    requires forall k :: k in m ==> k in m' && m'[k] == m[k]
    requires x !in bs[Bucket(hash, getKey(x), |bs|)]
    ensures var b := Bucket(hash, getKey(x), |bs|);
            Placed(bs[b := bs[b] + [x]], m', getKey, hash)
  {
    var b := Bucket(hash, getKey(x), |bs|);
    var q := bs[b] + [x];
    assert forall y :: y in q ==> y in bs[b] || y == x;
  }

  lemma CompleteAppend<Key(!new), T(!new)>(bs: Table<T>, m: map<Key, T>, getKey: T -> Key, hash: Key -> word, x: T)
    requires |bs| > 0 && Complete(bs, m, getKey, hash)
    ensures var b := Bucket(hash, getKey(x), |bs|);
            Complete(bs[b := bs[b] + [x]], m[getKey(x) := x], getKey, hash)
  {
    var b := Bucket(hash, getKey(x), |bs|);
    assert x in bs[b] + [x];
  }

  /** Taking the item with key `k` off its bucket. */
  lemma PlacedWithout<Key(!new), T(!new)>(bs: Table<T>, m: map<Key, T>, getKey: T -> Key, hash: Key -> word, k: Key)
    requires |bs| > 0 && Placed(bs, m, getKey, hash) && Complete(bs, m, getKey, hash) && k in m
    ensures var b := Bucket(hash, k, |bs|);
            && Placed(bs[b := Without(bs[b], m[k])], m - {k}, getKey, hash)
            && Complete(bs[b := Without(bs[b], m[k])], m - {k}, getKey, hash)
  {
    var b := Bucket(hash, k, |bs|);
    WithoutHas(bs[b], m[k]);
    hide Without, Distinct;
    var bs', m' := bs[b := Without(bs[b], m[k])], m - {k};
    forall c, x | 0 <= c < |bs'| && x in bs'[c]
      ensures getKey(x) in m' && m'[getKey(x)] == x && Bucket(hash, getKey(x), |bs'|) == c
    {
      assert x in bs[c] && x != m[k];
    }
  }

  // ---------- Rehashing ----------

  /** Every item is in just one of the two tables, in its bucket there. */
  ghost predicate Split<Key(!new), T(!new)>(from: Table<T>, to: Table<T>, m: map<Key, T>,
                                                   getKey: T -> Key, hash: Key -> word) {
    && |from| > 0 && |to| > 0 && Placed(from, m, getKey, hash) && Placed(to, m, getKey, hash)
    && forall k :: k in m ==>
         getKey(m[k]) == k && (m[k] in from[Bucket(hash, k, |from|)]) != (m[k] in to[Bucket(hash, k, |to|)])
  }

  lemma SplitStart<Key(!new), T(!new)>(from: Table<T>, to: Table<T>, m: map<Key, T>, getKey: T -> Key, hash: Key -> word)
    requires |from| > 0 && Placed(from, m, getKey, hash) && Complete(from, m, getKey, hash)
    requires |to| > 0 && forall b :: 0 <= b < |to| ==> to[b] == []
    ensures Split(from, to, m, getKey, hash)
  {
  }

  lemma SplitEnd<Key(!new), T(!new)>(from: Table<T>, to: Table<T>, m: map<Key, T>, getKey: T -> Key, hash: Key -> word)
    requires Split(from, to, m, getKey, hash)
    requires forall b :: 0 <= b < |from| ==> from[b] == []
    ensures Placed(to, m, getKey, hash) && Complete(to, m, getKey, hash) && Total(from) == 0
  {
    TotalEmpty(from);
  }

  /** Moving the first item of a bucket. */
  lemma SplitStep<Key(!new), T(!new)>(from: Table<T>, to: Table<T>, m: map<Key, T>,
                                      getKey: T -> Key, hash: Key -> word, i: nat)
    requires Split(from, to, m, getKey, hash) && i < |from| && from[i] != []
    ensures var x := from[i][0];
            var b := Bucket(hash, getKey(x), |to|);
            var from', to' := from[i := from[i][1..]], to[b := to[b] + [x]];
            Split(from', to', m, getKey, hash) && Total(from') + Total(to') == Total(from) + Total(to)
  {
    var x := from[i][0];
    var b := Bucket(hash, getKey(x), |to|);
    var from', to' := from[i := from[i][1..]], to[b := to[b] + [x]];
    assert x in from[i];
    TotalUpdate(from, i, from[i][1..]);
    TotalUpdate(to, b, to[b] + [x]);
    PlacedAppend(to, m, m, getKey, hash, x);
    assert from[i] == [x] + from[i][1..];
    assert x !in from[i][1..];
    forall k | k in m
      ensures (m[k] in from'[Bucket(hash, k, |from'|)]) != (m[k] in to'[Bucket(hash, k, |to'|)])
    {
    }
    assert Placed(from', m, getKey, hash);
  }

  lemma NotThere<Key(!new), T(!new)>(bs: Table<T>, m: map<Key, T>, getKey: T -> Key, hash: Key -> word, x: T)
    requires |bs| > 0 && Placed(bs, m, getKey, hash) && getKey(x) !in m
    ensures x !in bs[Bucket(hash, getKey(x), |bs|)]
  {
  }

  lemma RoomLeft(n: nat, k: nat)
    requires k > 0 && n <= RESIZE_RATIO * k
    ensures n / k < RESIZE_RATIO ==> n + 1 <= RESIZE_RATIO * k
    ensures n + 1 <= RESIZE_RATIO * (k * INCREASE_SIZE_BY)
  {
    assert n == k * (n / k) + n % k;
    if n / k < RESIZE_RATIO {
      assert k * (n / k) <= k * (RESIZE_RATIO - 1);
    }
  }

  /** Each item is in the bucket that its key's hash value gives. */
  ghost predicate ByHash<Key(!new), T(!new)>(bs: Table<T>, getKey: T -> Key, hash: Key -> word) {
    forall b, x :: 0 <= b < |bs| && x in bs[b] ==> hash(getKey(x)) % |bs| == b
  }

  lemma PlacedByHash<Key(!new), T(!new)>(bs: Table<T>, m: map<Key, T>, getKey: T -> Key, hash: Key -> word)
    requires |bs| > 0 && Placed(bs, m, getKey, hash)
    ensures ByHash(bs, getKey, hash)
  {
  }

  class HashTable<Key(==,!new), T(==,!new)> {
    var buckets: array<seq<T>>
    var numBuckets: int
    var numItems: int
    const getKey: T -> Key
    const hash: Key -> word
    ghost var contents: map<Key, T>

    ghost predicate Valid()
      reads this, buckets
    {
      && buckets.Length == numBuckets > 0
      && Placed(buckets[..], contents, getKey, hash) && Complete(buckets[..], contents, getKey, hash)
      && numItems == Total(buckets[..]) <= RESIZE_RATIO * numBuckets
    }

    constructor (get: T -> Key, hFunc: Key -> word)
      ensures Valid() && contents == map[] && numBuckets == 4 && fresh(buckets)
      ensures getKey == get && hash == hFunc
    {
      numItems := 0;
      numBuckets := INITIAL_BUCKETS;
      buckets := new seq<T>[INITIAL_BUCKETS](_ => []);
      getKey, hash := get, hFunc;
      contents := map[];
      new;
      TotalEmpty(buckets[..]);
    }

    method FindInBucket(bucket: int, key: Key) returns (r: Option<T>)
      requires Valid() && bucket == Bucket(hash, key, numBuckets)
      ensures r == if key in contents then Some(contents[key]) else None
    {
      var q := buckets[bucket];
      assert forall x :: x in q ==> x in buckets[..][bucket];
      var i := 0;
      while i < |q|
        invariant 0 <= i <= |q|
        invariant forall j :: 0 <= j < i ==> getKey(q[j]) != key
      {
        if key == getKey(q[i]) {
          return Some(q[i]);
        }
        i := i + 1;
      }
      return None;
    }

    method Find(key: Key) returns (r: Option<T>)
      requires Valid()
      ensures r == if key in contents then Some(contents[key]) else None
    {
      r := FindInBucket(Bucket(hash, key, numBuckets), key);
    }

    method Insert(item: T)
      requires Valid() && getKey(item) !in contents
      modifies this, buckets
      ensures Valid() && contents == old(contents)[getKey(item) := item]
      ensures numBuckets == old(if numItems / numBuckets >= 3 then numBuckets * 4 else numBuckets)
      ensures numItems == old(numItems) + 1 <= 3 * numBuckets
      ensures buckets == old(buckets) || fresh(buckets)
      ensures ByHash(buckets[..], getKey, hash)
    {
      hide Placed, Complete, Total, ByHash;
      var key := getKey(item);
      RoomLeft(numItems, numBuckets);
      if numItems / numBuckets >= RESIZE_RATIO {
        ReHash();
      }
      var b := Bucket(hash, key, numBuckets);
      ghost var bs := buckets[..];
      NotThere(bs, contents, getKey, hash, item);
      PlacedAppend(bs, contents, contents[key := item], getKey, hash, item);
      CompleteAppend(bs, contents, getKey, hash, item);
      TotalUpdate(bs, b, bs[b] + [item]);
      buckets[b] := buckets[b] + [item];
      numItems := numItems + 1;
      contents := contents[key := item];
      assert buckets[..] == bs[b := bs[b] + [item]];
      PlacedByHash(buckets[..], contents, getKey, hash);
    }

    method ReHash()
      requires Valid()
      modifies this
      ensures Valid() && contents == old(contents) && fresh(buckets)
      ensures numBuckets == old(numBuckets) * 4 && numItems == old(numItems)
      ensures ByHash(buckets[..], getKey, hash)
    {
      // the old table is drained in place
      hide Placed, Complete, Split, Total, Bucket, ByHash;
      var oldTable := new seq<T>[numBuckets](
        i requires 0 <= i < numBuckets <= buckets.Length reads this, buckets => buckets[i]);
      assert oldTable[..] == buckets[..];
      var oldSize := numBuckets;
      numBuckets := numBuckets * INCREASE_SIZE_BY;
      buckets := new seq<T>[numBuckets](_ => []);
      SplitStart(oldTable[..], buckets[..], contents, getKey, hash);
      TotalEmpty(buckets[..]);
      var i := 0;
      while i < oldSize
        invariant 0 <= i <= oldSize == oldTable.Length && buckets.Length == numBuckets
        invariant fresh(buckets) && fresh(oldTable) && oldTable != buckets
        invariant unchanged(`numItems) && unchanged(`contents) && numBuckets == old(numBuckets) * INCREASE_SIZE_BY
        invariant Split(oldTable[..], buckets[..], contents, getKey, hash)
        invariant Total(oldTable[..]) + Total(buckets[..]) == numItems
        invariant forall j :: 0 <= j < i ==> oldTable[j] == []
      {
        while oldTable[i] != []
          invariant fresh(buckets) && fresh(oldTable) && oldTable != buckets && buckets.Length == numBuckets
          invariant unchanged(`numItems) && unchanged(`contents) && numBuckets == old(numBuckets) * INCREASE_SIZE_BY
          invariant Split(oldTable[..], buckets[..], contents, getKey, hash)
          invariant Total(oldTable[..]) + Total(buckets[..]) == numItems
          invariant forall j :: 0 <= j < i ==> oldTable[j] == []
          decreases |oldTable[i]|
        {
          ghost var from, to := oldTable[..], buckets[..];
          SplitStep(from, to, contents, getKey, hash, i);
          var item := oldTable[i][0];
          oldTable[i] := oldTable[i][1..];
          var b := Bucket(hash, getKey(item), numBuckets);
          buckets[b] := buckets[b] + [item];
          assert oldTable[..] == from[i := from[i][1..]] && buckets[..] == to[b := to[b] + [item]];
        }
        i := i + 1;
      }
      SplitEnd(oldTable[..], buckets[..], contents, getKey, hash);
      PlacedByHash(buckets[..], contents, getKey, hash);
    }

    method Remove(key: Key) returns (item: T)
      requires Valid() && key in contents
      modifies this, buckets
      ensures Valid() && item == old(contents[key]) && contents == old(contents) - {key}
      ensures buckets == old(buckets)
    {
      var b := Bucket(hash, key, numBuckets);
      var r := FindInBucket(b, key);
      item := r.value;
      ghost var bs := buckets[..];
      assert item in bs[b];
      PlacedWithout(bs, contents, getKey, hash, key);
      hide Placed, Complete, Bucket;
      var q := Without(buckets[b], item);
      TotalUpdate(bs, b, q);
      hide Total;
      buckets[b] := q;
      numItems := numItems - 1;
      contents := contents - {key};
      assert buckets[..] == bs[b := q];
    }

    method FindNextFullBucket(start: int) returns (bucket: int)
      requires Valid() && 0 <= start <= numBuckets
      ensures start <= bucket <= numBuckets
      ensures forall b :: start <= b < bucket ==> buckets[b] == []
      ensures bucket < numBuckets ==> buckets[bucket] != []
    {
      bucket := start;
      while bucket < numBuckets
        invariant start <= bucket <= numBuckets
        invariant forall b :: start <= b < bucket ==> buckets[b] == []
      {
        if buckets[bucket] != [] {
          break;
        }
        bucket := bucket + 1;
      }
    }
  }

  // ---------- Iteration ----------

  /** The items of the table, bucket after bucket. */
  function All<T>(bs: Table<T>): seq<T> {
    if bs == [] then [] else bs[0] + All(bs[1..])
  }

  lemma {:induction false} AllSkips<T>(bs: Table<T>, b: nat, c: nat)
    requires b <= c <= |bs| && forall i :: b <= i < c ==> bs[i] == []
    ensures All(bs[b..]) == All(bs[c..])
    decreases c - b
  {
    if b < c {
      AllSkips(bs, b + 1, c);
      assert bs[b..][1..] == bs[b + 1..];
    }
  }

  lemma {:induction false} AllCounts<T>(bs: Table<T>, x: T, h: int)
    requires forall b :: 0 <= b < |bs| && b != h ==> x !in bs[b]
    ensures multiset(All(bs))[x] == if 0 <= h < |bs| then multiset(bs[h])[x] else 0
  {
    if bs != [] {
      AllCounts(bs[1..], x, h - 1);
      if h != 0 {
        assert x !in bs[0];
      }
    }
  }

  lemma {:induction false} DistinctCount<T>(q: seq<T>, x: T)
    requires Distinct(q)
    ensures multiset(q)[x] == if x in q then 1 else 0
  {
    if q != [] {
      var n := |q| - 1;
      DistinctCount(q[..n], x);
      assert q == q[..n] + [q[n]];
    }
  }

  /** Going through the buckets meets every item of the map exactly once, and nothing else. */
  lemma AllOnce<Key(!new), T(!new)>(bs: Table<T>, m: map<Key, T>, getKey: T -> Key, hash: Key -> word, x: T)
    requires |bs| > 0 && Placed(bs, m, getKey, hash) && Complete(bs, m, getKey, hash)
    ensures multiset(All(bs))[x] == if getKey(x) in m && m[getKey(x)] == x then 1 else 0
  {
    var h := Bucket(hash, getKey(x), |bs|);
    AllCounts(bs, x, h);
    DistinctCount(bs[h], x);
  }

  /** The items from the `at`-th of bucket `b` on. */
  function RestOf<T>(bs: Table<T>, b: int, at: int): seq<T>
    requires 0 <= b <= |bs| && (b < |bs| ==> 0 <= at < |bs[b]|)
  {
    if b == |bs| then [] else bs[b][at..] + All(bs[b + 1..])
  }

  lemma RestWithin<T>(bs: Table<T>, b: int, at: int)
    requires 0 <= b < |bs| && 0 <= at < |bs[b]| - 1
    ensures RestOf(bs, b, at) != [] && RestOf(bs, b, at + 1) == RestOf(bs, b, at)[1..]
  {
  }

  lemma RestBeyond<T>(bs: Table<T>, b: int, c: int)
    requires 0 <= b < c <= |bs| && bs[b] != []
    requires (forall i :: b < i < c ==> bs[i] == []) && (c < |bs| ==> bs[c] != [])
    ensures RestOf(bs, b, |bs[b]| - 1) != [] && RestOf(bs, c, 0) == RestOf(bs, b, |bs[b]| - 1)[1..]
  {
    AllSkips(bs, b + 1, c);
    if c < |bs| {
      assert bs[c..][1..] == bs[c + 1..] && bs[c][0..] == bs[c];
    }
  }

  class HashIterator<Key(==,!new), T(==,!new)> {
    const table: HashTable<Key, T>
    var bucket: int
    var at: int      // how far the iterator of the bucket's list has got

    ghost predicate Valid()
      reads this, table, table.buckets
    {
      && table.Valid() && 0 <= bucket <= table.numBuckets
      && (bucket < table.numBuckets ==> 0 <= at < |table.buckets[bucket]|)
    }

    /** The items still to come. */
    ghost function Rest(): seq<T>
      requires Valid()
      reads this, table, table.buckets
    {
      RestOf(table.buckets[..], bucket, at)
    }

    constructor (tbl: HashTable<Key, T>)
      requires tbl.Valid()
      ensures Valid() && table == tbl && Rest() == All(tbl.buckets[..])
    {
      table := tbl;
      at := 0;
      bucket := 0;
      new;
      bucket := table.FindNextFullBucket(0);
      AllSkips(table.buckets[..], 0, bucket);
      assert table.buckets[..][0..] == table.buckets[..];
    }

    method IsDone() returns (done: bool)
      requires Valid()
      ensures done == (Rest() == [])
    {
      done := bucket == table.numBuckets;
    }

    method Item() returns (x: T)
      requires Valid() && Rest() != []
      ensures x == Rest()[0]
    {
      x := table.buckets[bucket][at];
    }

    method Next()
      requires Valid() && Rest() != []
      modifies this
      ensures Valid() && Rest() == old(Rest())[1..]
    {
      assert bucket < table.numBuckets;
      hide RestOf;
      at := at + 1;
      if at == |table.buckets[bucket]| {
        ghost var was := bucket;
        bucket := table.FindNextFullBucket(bucket + 1);
        at := 0;
        RestBeyond(table.buckets[..], was, bucket);
      } else {
        RestWithin(table.buckets[..], bucket, at - 1);
      }
    }
  }
}
