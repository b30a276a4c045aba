/** The self-expanding hash table and its iterator (lib/hash.cc). */
module HashTables {
  import opened Lists
  import opened Options

  const INITIAL_BUCKETS: int := 4
  const RESIZE_RATIO: int := 3
  const INCREASE_SIZE_BY: int := 4

  // ---- tables as values ----

  function Bucket<K>(hash: K -> nat, k: K, n: nat): (b: nat)
    requires n > 0
    ensures b < n
  { hash(k) % n }

  /** An item is in the map under its own key, in the bucket its key hashes to. */
  predicate Belongs<K(==), T(==)>(x: T, b: nat, n: nat, m: map<K, T>, key: T -> K, hash: K -> nat)
    requires n > 0
  { key(x) in m && m[key(x)] == x && Bucket(hash, key(x), n) == b }

  /** The buckets hold exactly the items of a finite map, each once and each where its key hashes. */
  ghost predicate Represents<K(!new), T>(t: seq<seq<T>>, m: map<K, T>, key: T -> K, hash: K -> nat) {
    && |t| > 0
    && (forall b, i :: 0 <= b < |t| && 0 <= i < |t[b]| ==> Belongs(t[b][i], b, |t|, m, key, hash))
    && (forall k :: k in m ==> key(m[k]) == k && m[k] in t[Bucket(hash, k, |t|)])
    && (forall b, i, j :: 0 <= b < |t| && 0 <= i < j < |t[b]| ==> key(t[b][i]) != key(t[b][j]))
  }

  function Place<K, T>(t: seq<seq<T>>, x: T, key: T -> K, hash: K -> nat): (r: seq<seq<T>>)
    requires |t| > 0
    ensures |r| == |t|
  {
    var b := Bucket(hash, key(x), |t|);
    t[b := t[b] + [x]]
  }

  lemma PlaceRepresents<K(!new), T>(t: seq<seq<T>>, m: map<K, T>, x: T, key: T -> K, hash: K -> nat)
    requires Represents(t, m, key, hash) && key(x) !in m
    ensures Represents(Place(t, x, key, hash), m[key(x) := x], key, hash)
  {
    hide Bucket;
    var t', m', b0 := Place(t, x, key, hash), m[key(x) := x], Bucket(hash, key(x), |t|);
    forall b, i | 0 <= b < |t'| && 0 <= i < |t'[b]|
      ensures Belongs(t'[b][i], b, |t'|, m', key, hash)
    {
      if b != b0 || i < |t[b]| { assert Belongs(t[b][i], b, |t|, m, key, hash); }
    }
    forall k | k in m'
      ensures key(m'[k]) == k && m'[k] in t'[Bucket(hash, k, |t'|)]
    {
      if k == key(x) { assert t'[b0][|t[b0]|] == x; }
    }
    forall i | 0 <= i < |t[b0]|
      ensures key(t[b0][i]) != key(x)
    {
      assert Belongs(t[b0][i], b0, |t|, m, key, hash);
    }
  }

  /** A bucket decides whether its keys are in the map. */
  lemma KeyInBucket<K(!new), T>(t: seq<seq<T>>, m: map<K, T>, k: K, key: T -> K, hash: K -> nat)
    requires Represents(t, m, key, hash)
    ensures var list := t[Bucket(hash, k, |t|)];
            && (k in m ==> m[k] in list && key(m[k]) == k)
            && (forall i :: 0 <= i < |list| && key(list[i]) == k ==> k in m && m[k] == list[i])
  {
    hide Bucket;
    var b := Bucket(hash, k, |t|);
    assert forall i :: 0 <= i < |t[b]| ==> Belongs(t[b][i], b, |t|, m, key, hash);
  }

  /** Removing one item from its bucket, with the bucket's other items in their order. */
  function DropFrom<T>(t: seq<seq<T>>, b: nat, i: nat): (r: seq<seq<T>>)
    requires b < |t| && i < |t[b]|
    ensures |r| == |t|
  { t[b := Removed(t[b], i)] }

  /** Where the item now at a place was before. */
  function Before(b0: nat, i: nat, b: nat, j: nat): nat { if b == b0 && j >= i then j + 1 else j }

  lemma DropAt<T>(t: seq<seq<T>>, b0: nat, i: nat, b: nat, j: nat)
    requires b0 < |t| && i < |t[b0]| && b < |t| && j < |DropFrom(t, b0, i)[b]|
    ensures Before(b0, i, b, j) < |t[b]| && DropFrom(t, b0, i)[b][j] == t[b][Before(b0, i, b, j)]
  {
  }

  lemma DropRepresents<K(!new), T>(t: seq<seq<T>>, m: map<K, T>, k: K, i: nat, key: T -> K, hash: K -> nat)
    requires Represents(t, m, key, hash) && i < |t[Bucket(hash, k, |t|)]| && key(t[Bucket(hash, k, |t|)][i]) == k
    ensures k in m && m[k] == t[Bucket(hash, k, |t|)][i]
    ensures Represents(DropFrom(t, Bucket(hash, k, |t|), i), m - {k}, key, hash)
  {
    hide Bucket, DropFrom;
    var b0 := Bucket(hash, k, |t|);
    var t', m' := DropFrom(t, b0, i), m - {k};
    assert Belongs(t[b0][i], b0, |t|, m, key, hash);
    forall b, j | 0 <= b < |t'| && 0 <= j < |t'[b]|
      ensures Belongs(t'[b][j], b, |t'|, m', key, hash)
    {
      DropAt(t, b0, i, b, j);
      assert Belongs(t[b][Before(b0, i, b, j)], b, |t|, m, key, hash);
    }
    forall q | q in m'
      ensures key(m'[q]) == q && m'[q] in t'[Bucket(hash, q, |t'|)]
    {
      StillThere(t, m, k, i, q, key, hash);
    }
    forall b, j, l | 0 <= b < |t'| && 0 <= j < l < |t'[b]|
      ensures key(t'[b][j]) != key(t'[b][l])
    {
      DropAt(t, b0, i, b, j);
      DropAt(t, b0, i, b, l);
    }
  }

  lemma StillThere<K(!new), T>(t: seq<seq<T>>, m: map<K, T>, k: K, i: nat, q: K, key: T -> K, hash: K -> nat)
    requires Represents(t, m, key, hash) && i < |t[Bucket(hash, k, |t|)]| && key(t[Bucket(hash, k, |t|)][i]) == k
    requires q in m && q != k
    ensures m[q] in DropFrom(t, Bucket(hash, k, |t|), i)[Bucket(hash, q, |t|)]
  {
    hide Bucket;
    var b0, b := Bucket(hash, k, |t|), Bucket(hash, q, |t|);
    var j :| 0 <= j < |t[b]| && t[b][j] == m[q];
    if b == b0 {
      assert Removed(t[b], i)[if j < i then j else j - 1] == m[q];
    }
  }

  /** All the items, bucket by bucket: the order in which the iterator visits them. */
  function Flatten<T>(t: seq<seq<T>>): seq<T> {
    if t == [] then [] else Flatten(t[..|t| - 1]) + t[|t| - 1]
  }

  lemma {:induction false} FlattenStep<T>(t: seq<seq<T>>, b: nat)
    requires b < |t|
    ensures Flatten(t[..b + 1]) == Flatten(t[..b]) + t[b]
  {
    assert t[..b + 1][..b] == t[..b];
  }

  lemma {:induction false} FlattenPrefix<T>(t: seq<seq<T>>, b: nat, i: nat)
    requires b < |t| && i < |t[b]|
    ensures |Flatten(t[..b])| + i < |Flatten(t)| && Flatten(t)[|Flatten(t[..b])| + i] == t[b][i]
    decreases |t|
  {
    var n := |t| - 1;
    if b < n {
      assert t[..n][..b] == t[..b];
      FlattenPrefix(t[..n], b, i);
    }
  }

  /** Which bucket and which place in it a visit falls on. */
  lemma {:induction false} Locate<T>(t: seq<seq<T>>, p: nat) returns (b: nat, i: nat)
    requires p < |Flatten(t)|
    ensures b < |t| && i < |t[b]| && p == |Flatten(t[..b])| + i && Flatten(t)[p] == t[b][i]
  {
    var n := |t| - 1;
    if p < |Flatten(t[..n])| {
      b, i := Locate(t[..n], p);
      assert t[..n][..b] == t[..b];
    } else {
      b, i := n, p - |Flatten(t[..n])|;
    }
  }

  /** The visits are the map's items: every one of them, and no key twice. */
  lemma VisitsOnce<K(!new), T>(t: seq<seq<T>>, m: map<K, T>, key: T -> K, hash: K -> nat)
    requires Represents(t, m, key, hash)
    ensures forall p :: 0 <= p < |Flatten(t)| ==> key(Flatten(t)[p]) in m && m[key(Flatten(t)[p])] == Flatten(t)[p]
    ensures forall p, q :: 0 <= p < q < |Flatten(t)| ==> key(Flatten(t)[p]) != key(Flatten(t)[q])
    ensures forall k :: k in m ==> m[k] in Flatten(t)
    ensures |Flatten(t)| == |m|
  {
    hide Bucket, Flatten;
    var f := Flatten(t);
    forall p | 0 <= p < |f|
      ensures key(f[p]) in m && m[key(f[p])] == f[p]
    {
      var b, i := Locate(t, p);
      assert Belongs(t[b][i], b, |t|, m, key, hash);
    }
    forall p, q | 0 <= p < q < |f|
      ensures key(f[p]) != key(f[q])
    {
      var b, i := Locate(t, p);
      var c, j := Locate(t, q);
      assert Belongs(t[b][i], b, |t|, m, key, hash) && Belongs(t[c][j], c, |t|, m, key, hash);
    }
    forall k | k in m
      ensures m[k] in f
    {
      var b := Bucket(hash, k, |t|);
      var i :| 0 <= i < |t[b]| && t[b][i] == m[k];
      FlattenPrefix(t, b, i);
    }
    KeysCount(f, m, key);
  }

  lemma {:induction false} KeysCount<K(!new), T>(f: seq<T>, m: map<K, T>, key: T -> K)
    requires forall p :: 0 <= p < |f| ==> key(f[p]) in m && m[key(f[p])] == f[p]
    requires forall p, q :: 0 <= p < q < |f| ==> key(f[p]) != key(f[q])
    requires forall k :: k in m ==> key(m[k]) == k && m[k] in f
    ensures |f| == |m|
  {
    if f == [] {
      assert forall k :: k !in m;
      assert m.Keys == {};
    } else {
      var n := |f| - 1;
      var k0 := key(f[n]);
      var m' := m - {k0};
      assert m.Keys == m'.Keys + {k0};
      forall k | k in m'
        ensures m'[k] in f[..n]
      {
        var p :| 0 <= p < |f| && f[p] == m[k];
        assert p != n;
        assert f[..n][p] == m[k];
      }
      KeysCount(f[..n], m', key);
    }
  }

  // ---- the table ----

  class HashTable<K(==, !new), T(==)> {
    var buckets: array<seq<T>>
    var numItems: nat
    const getKey: T -> K
    const hash: K -> nat
    ghost var contents: map<K, T>

    /** The buckets represent the contents, and there are at most three items to a bucket on average. */
    ghost predicate Valid()
      reads this, buckets
    {
      && Represents(buckets[..], contents, getKey, hash)
      && numItems == |contents| <= RESIZE_RATIO * buckets.Length
    }

    constructor (get: T -> K, hFunc: K -> nat)
      ensures Valid() && contents == map[] && fresh(buckets) && getKey == get && hash == hFunc
    {
      getKey, hash := get, hFunc;
      numItems, contents := 0, map[];
      buckets := new seq<T>[INITIAL_BUCKETS](_ => []);
    }

    /** The items in the order of iteration. */
    ghost function Items(): seq<T>
      reads this, buckets
    { Flatten(buckets[..]) }

    method FindInBucket(bucket: nat, key: K) returns (r: Option<T>)
      requires Valid() && bucket == Bucket(hash, key, buckets.Length)
      ensures r == if key in contents then Some(contents[key]) else None
    {
      hide Represents, Belongs;
      var list := buckets[bucket];
      KeyInBucket(buckets[..], contents, key, getKey, hash);
      var i := 0;
      while i < |list|
        invariant 0 <= i <= |list| && forall j :: 0 <= j < i ==> getKey(list[j]) != key
      {
        if key == getKey(list[i]) {
          return Some(list[i]);
        }
        i := i + 1;
      }
      r := None;
    }

    method Find(key: K) returns (r: Option<T>)
      requires Valid()
      ensures r == if key in contents then Some(contents[key]) else None
    {
      r := FindInBucket(Bucket(hash, key, buckets.Length), key);
    }

    /** Insert an item whose key is absent. */
    method Insert(item: T)
      requires Valid() && getKey(item) !in contents
      modifies this, buckets
      ensures Valid() && contents == old(contents)[getKey(item) := item]
      ensures buckets == old(buckets) || fresh(buckets)
    {
      hide Represents;
      HasBuckets(buckets[..], contents, getKey, hash);
      Ratio(numItems, buckets.Length);
      if numItems / buckets.Length >= RESIZE_RATIO {
        ReHash();
      }
      Append(buckets, item, contents);
      numItems := numItems + 1;
      contents := contents[getKey(item) := item];
    }

    method Append(table: array<seq<T>>, item: T, ghost m: map<K, T>)
      requires Represents(table[..], m, getKey, hash) && getKey(item) !in m
      modifies table
      ensures table[..] == Place(old(table[..]), item, getKey, hash)
      ensures Represents(table[..], m[getKey(item) := item], getKey, hash)
    {
      PlaceRepresents(table[..], m, item, getKey, hash);
      var b := Bucket(hash, getKey(item), table.Length);
      table[b] := table[b] + [item];
    }

    /** Move one old list into the new table, front to back. */
    method MoveList(oldTable: array<seq<T>>, table: array<seq<T>>, i: nat,
                    ghost was: seq<seq<T>>, ghost part: map<K, T>)
      returns (ghost more: map<K, T>)
      requires oldTable != table && i < oldTable.Length && |was| == oldTable.Length && oldTable[i] == was[i]
      requires Represents(was, contents, getKey, hash) && Represents(table[..], part, getKey, hash)
      requires Moved(was, i, 0, part, contents, getKey)
      modifies oldTable, table
      ensures Represents(table[..], more, getKey, hash) && Moved(was, i + 1, 0, more, contents, getKey)
      ensures forall b :: 0 <= b < oldTable.Length && b != i ==> oldTable[b] == old(oldTable[b])
    {
      hide Represents, Moved;
      more := part;
      ghost var j := 0;
      while oldTable[i] != []
        invariant j <= |was[i]| && oldTable[i] == was[i][j..]
        invariant Represents(table[..], more, getKey, hash) && Moved(was, i, j, more, contents, getKey)
        invariant forall b :: 0 <= b < oldTable.Length && b != i ==> oldTable[b] == old(oldTable[b])
        decreases |oldTable[i]|
      {
        var item := oldTable[i][0];
        oldTable[i] := oldTable[i][1..];
        MoveOne(was, i, j, more, contents, getKey, hash);
        Append(table, item, more);
        more := more[getKey(item) := item];
        j := j + 1;
      }
      MovedList(was, i, more, contents, getKey);
    }

    /** Move every old list, front to back. */
    method MoveAll(oldTable: array<seq<T>>, table: array<seq<T>>)
      requires oldTable != table && Represents(oldTable[..], contents, getKey, hash)
      requires Represents(table[..], map[], getKey, hash) && Moved(oldTable[..], 0, 0, map[], contents, getKey)
      modifies oldTable, table
      ensures Represents(table[..], contents, getKey, hash)
    {
      hide Represents, Moved;
      ghost var was, part: map<K, T> := oldTable[..], map[];
      var i := 0;
      while i < oldTable.Length
        invariant 0 <= i <= oldTable.Length
        invariant forall b :: i <= b < oldTable.Length ==> oldTable[b] == was[b]
        invariant Represents(table[..], part, getKey, hash) && Moved(was, i, 0, part, contents, getKey)
      {
        part := MoveList(oldTable, table, i, was, part);
        i := i + 1;
      }
      MovedAll(was, part, contents, getKey, hash);
    }

    /** Four times the buckets, the same contents. */
    method ReHash()
      requires Valid()
      modifies this`buckets, buckets
      ensures Valid() && contents == old(contents) && fresh(buckets)
      ensures buckets.Length == INCREASE_SIZE_BY * old(buckets.Length)
    {
      hide Represents, Moved;
      HasBuckets(buckets[..], contents, getKey, hash);
      var oldTable := buckets;
      var table := new seq<T>[INCREASE_SIZE_BY * oldTable.Length](_ => []);
      NothingMoved(oldTable[..], table[..], contents, getKey, hash);
      MoveAll(oldTable, table);
      buckets := table;
    }

    /** Remove the item of a key that is present, and return it. */
    method Remove(key: K) returns (item: T)
      requires Valid() && key in contents
      modifies this, buckets
      ensures Valid() && item == old(contents)[key] && contents == old(contents) - {key} && buckets == old(buckets)
    {
      var bucket := Bucket(hash, key, buckets.Length);
      var found := FindInBucket(bucket, key);
      item := found.value;
      assert item in buckets[..][bucket];
      var i := IndexOf(buckets[bucket], item);
      DropRepresents(buckets[..], contents, key, i, getKey, hash);
      buckets[bucket] := buckets[bucket][..i] + buckets[bucket][i + 1..];
      numItems := numItems - 1;
      contents := contents - {key};
    }
  }

  lemma Ratio(items: nat, buckets: nat)
    requires buckets > 0 && items <= RESIZE_RATIO * buckets
    ensures items / buckets >= RESIZE_RATIO <==> items == RESIZE_RATIO * buckets
  {
    var q, r := items / buckets, items % buckets;
    assert items == q * buckets + r;
    if q >= RESIZE_RATIO {
      assert q * buckets >= RESIZE_RATIO * buckets;
    } else {
      assert q * buckets <= (RESIZE_RATIO - 1) * buckets;
    }
  }

  /** `List::Remove`'s search for an item. */
  method IndexOf<T(==)>(s: seq<T>, x: T) returns (i: nat)
    requires x in s
    ensures i < |s| && s[i] == x && x !in s[..i]
  {
    i := 0;
    while s[i] != x
      invariant i < |s| && x !in s[..i]
      decreases |s| - i
    {
      i := i + 1;
    }
  }

  /** Exactly the items before place `n` of list `i` have been moved into the part. */
  ghost predicate Moved<K(!new), T>(was: seq<seq<T>>, i: nat, n: nat, part: map<K, T>, m: map<K, T>, key: T -> K) {
    && (forall k :: k in part ==> k in m && part[k] == m[k])
    && (forall b, j :: 0 <= b < |was| && 0 <= j < |was[b]| ==> (key(was[b][j]) in part <==> b < i || (b == i && j < n)))
  }

  lemma HasBuckets<K(!new), T>(t: seq<seq<T>>, m: map<K, T>, key: T -> K, hash: K -> nat)
    requires Represents(t, m, key, hash)
    ensures |t| > 0
  {
  }

  lemma NothingMoved<K(!new), T>(was: seq<seq<T>>, t: seq<seq<T>>, m: map<K, T>, key: T -> K, hash: K -> nat)
    requires |t| > 0 && forall b :: 0 <= b < |t| ==> t[b] == []
    ensures Represents(t, map[], key, hash) && Moved(was, 0, 0, map[], m, key)
  {
  }

  lemma MoveOne<K(!new), T>(was: seq<seq<T>>, i: nat, n: nat, part: map<K, T>, m: map<K, T>,
                            key: T -> K, hash: K -> nat)
    requires Represents(was, m, key, hash) && Moved(was, i, n, part, m, key) && i < |was| && n < |was[i]|
    ensures key(was[i][n]) !in part && Moved(was, i, n + 1, part[key(was[i][n]) := was[i][n]], m, key)
  {
    hide Bucket;
    var x := was[i][n];
    assert Belongs(x, i, |was|, m, key, hash);
    forall b, j | 0 <= b < |was| && 0 <= j < |was[b]|
      ensures key(was[b][j]) == key(x) <==> b == i && j == n
    {
      assert Belongs(was[b][j], b, |was|, m, key, hash);
    }
  }

  lemma MovedList<K(!new), T>(was: seq<seq<T>>, i: nat, part: map<K, T>, m: map<K, T>, key: T -> K)
    requires i < |was| && Moved(was, i, |was[i]|, part, m, key)
    ensures Moved(was, i + 1, 0, part, m, key)
  {
  }

  lemma MovedAll<K(!new), T>(was: seq<seq<T>>, part: map<K, T>, m: map<K, T>, key: T -> K, hash: K -> nat)
    requires Represents(was, m, key, hash) && Moved(was, |was|, 0, part, m, key)
    ensures part == m
  {
    forall k | k in m
      ensures k in part
    {
      var b := Bucket(hash, k, |was|);
      var j :| 0 <= j < |was[b]| && was[b][j] == m[k];
      assert key(was[b][j]) in part;
    }
  }

  // ---- the iterator ----

  class HashIterator<K(==, !new), T(==)> {
    const table: HashTable<K, T>
    var bucket: nat
    var position: nat

    /** At a place of a non-empty bucket, or past the last bucket. */
    ghost predicate Valid()
      reads this, table, table.buckets
    {
      bucket <= table.buckets.Length &&
      if bucket < table.buckets.Length then position < |table.buckets[bucket]| else position == 0
    }

    /** How many items have been visited. */
    ghost function Visited(): nat
      requires bucket <= table.buckets.Length
      reads this, table, table.buckets
    { |Flatten(table.buckets[..bucket])| + position }

    constructor (tbl: HashTable<K, T>)
      requires tbl.Valid()
      ensures table == tbl && Valid() && Visited() == 0
    {
      table := tbl;
      position := 0;
      bucket := 0;
      new;
      FindNextFullBucket(0);
    }

    /** Go to the first non-empty bucket at or after a given one. */
    method FindNextFullBucket(start: nat)
      requires start <= table.buckets.Length
      modifies this
      ensures Valid() && position == 0 && bucket >= start
      ensures Flatten(table.buckets[..bucket]) == Flatten(table.buckets[..start])
    {
      position, bucket := 0, start;
      while bucket < table.buckets.Length
        invariant start <= bucket <= table.buckets.Length && position == 0
        invariant Flatten(table.buckets[..bucket]) == Flatten(table.buckets[..start])
      {
        if table.buckets[bucket] != [] {
          return;
        }
        FlattenStep(table.buckets[..], bucket);
        assert table.buckets[..][..bucket] == table.buckets[..bucket]
          && table.buckets[..][..bucket + 1] == table.buckets[..bucket + 1];
        bucket := bucket + 1;
      }
    }

    method IsDone() returns (done: bool)
      requires Valid()
      ensures done <==> Visited() == |table.Items()|
    {
      done := bucket == table.buckets.Length;
      if done {
        assert table.buckets[..bucket] == table.buckets[..];
      } else {
        FlattenPrefix(table.buckets[..], bucket, position);
        assert table.buckets[..][..bucket] == table.buckets[..bucket];
      }
    }

    method Item() returns (item: T)
      requires Valid() && Visited() < |table.Items()|
      ensures item == table.Items()[Visited()]
    {
      assert table.buckets[..table.buckets.Length] == table.buckets[..];
      FlattenPrefix(table.buckets[..], bucket, position);
      assert table.buckets[..][..bucket] == table.buckets[..bucket];
      item := table.buckets[bucket][position];
    }

    method Next()
      requires Valid() && Visited() < |table.Items()|
      modifies this
      ensures Valid() && Visited() == old(Visited()) + 1
    {
      assert table.buckets[..table.buckets.Length] == table.buckets[..];
      FlattenStep(table.buckets[..], bucket);
      assert table.buckets[..][..bucket] == table.buckets[..bucket]
        && table.buckets[..][..bucket + 1] == table.buckets[..bucket + 1];
      position := position + 1;
      if position == |table.buckets[bucket]| {
        FindNextFullBucket(bucket + 1);
      }
    }
  }

  /** Stepping an iterator from start to end visits every item of the table exactly once. */
  method VisitAll<K(==, !new), T(==)>(table: HashTable<K, T>) returns (visited: seq<T>)
    requires table.Valid()
    ensures visited == table.Items() && |visited| == |table.contents|
    ensures forall k :: k in table.contents ==> table.contents[k] in visited
    ensures forall p, q :: 0 <= p < q < |visited| ==> table.getKey(visited[p]) != table.getKey(visited[q])
  {
    hide Represents, Flatten;
    var iter := new HashIterator<K, T>(table);
    visited := [];
    var done := iter.IsDone();
    while !done
      invariant iter.table == table && iter.Valid() && fresh(iter)
      invariant iter.Visited() == |visited| <= |table.Items()| && visited == table.Items()[..|visited|]
      invariant done <==> |visited| == |table.Items()|
      decreases |table.Items()| - |visited|
    {
      var item := iter.Item();
      visited := visited + [item];
      iter.Next();
      done := iter.IsDone();
    }
    VisitsOnce(table.buckets[..], table.contents, table.getKey, table.hash);
  }
}
