/** The bucket array of a `Dictionary` as a value: sequence `t` has one bucket per slot, so
    `|t|` is the capacity and the sum of the bucket lengths is the size. Every operation of
    app/main.py that changes the array is given here as a function from the old array to the
    new one, and the lemmas below say what each does to the key-to-value map it stores. */
module Tables {
  import opened Wrappers
  import opened Nodes
  import opened Buckets

  type Table<K, V> = seq<seq<Node<K, V>>>

  /** `hash(key) % capacity`. For a positive divisor Python's floored `%` and Dafny's
      Euclidean `%` coincide: the remainder lies in [0, capacity). */
  function Slot<K>(hash: K -> int, k: K, cap: nat): (s: nat)
    requires cap > 0
    ensures s < cap && hash(k) == cap * (hash(k) / cap) + s
  {
    hash(k) % cap
  }

  /** The structural invariant: at least one bucket; in bucket `i` only entries whose key
      hashes to `i` and whose cached hash is that of their key; no key twice in a bucket
      (so, with the placement, no key twice in the whole table). */
  ghost predicate WellFormed<K, V>(t: Table<K, V>, hash: K -> int)
  {
    |t| > 0 && forall i :: 0 <= i < |t| ==> Placed(t[i], hash, |t|, i) && Distinct(t[i])
  }

  /** The lookup path: scan the bucket the key hashes to. */
  ghost function Find<K, V>(t: Table<K, V>, hash: K -> int, k: K): Option<V>
    requires |t| > 0
  {
    Lookup(t[Slot(hash, k, |t|)], k)
  }

  /** All entries, bucket after bucket, each bucket in its own order. */
  ghost function Flatten<K, V>(t: Table<K, V>): seq<Node<K, V>>
  {
    if t == [] then [] else Flatten(t[..|t| - 1]) + t[|t| - 1]
  }

  /** The keys of a run of entries, in order. */
  ghost function EntryKeys<K, V>(xs: seq<Node<K, V>>): seq<K>
  {
    seq(|xs|, i requires 0 <= i < |xs| => xs[i].key)
  }

  /** What `__iter__` yields: the keys in bucket order, then in order within each bucket. */
  ghost function KeysOf<K, V>(t: Table<K, V>): seq<K>
  {
    EntryKeys(Flatten(t))
  }

  /** The sum of the bucket lengths. */
  ghost function TotalSize<K, V>(t: Table<K, V>): nat
  {
    if t == [] then 0 else TotalSize(t[..|t| - 1]) + |t[|t| - 1]|
  }

  /** The key-to-value map a table stands for: its entries, in traversal order, assigned
      one after the other. */
  ghost function MapOf<K, V>(t: Table<K, V>): map<K, V>
  {
    MapOfEntries(Flatten(t))
  }

  /** A bucket array of `cap` empty buckets. */
  ghost function EmptyTable<K, V>(cap: nat): Table<K, V>
  {
    seq(cap, _ => [])
  }

  /** The placement step of `__setitem__`: overwrite or append in the key's bucket. */
  ghost function Put<K, V>(t: Table<K, V>, hash: K -> int, k: K, v: V): Table<K, V>
    requires |t| > 0
  {
    var s := Slot(hash, k, |t|);
    t[s := Assign(t[s], k, hash(k), v)]
  }

  /** The removal of `__delitem__` and `pop`: drop the key's entry from its bucket. */
  ghost function Delete<K, V>(t: Table<K, V>, hash: K -> int, k: K): Table<K, V>
    requires |t| > 0
  {
    var s := Slot(hash, k, |t|);
    t[s := Remove(t[s], k)]
  }

  /** Re-insert the entries `xs` one after the other, each through `Put`. */
  ghost function ReinsertAll<K, V>(t: Table<K, V>, hash: K -> int, xs: seq<Node<K, V>>): (r: Table<K, V>)
    requires |t| > 0
    ensures |r| == |t|
  {
    if xs == [] then t
    else
      var x := xs[|xs| - 1];
      Put(ReinsertAll(t, hash, xs[..|xs| - 1]), hash, x.key, x.value)
  }

  /** `_resize` with the new capacity `cap`: a fresh empty array into which every old entry
      is re-inserted, old buckets in order and each bucket in order. */
  ghost function Rehash<K, V>(t: Table<K, V>, hash: K -> int, cap: nat): (r: Table<K, V>)
    requires cap > 0
    ensures |r| == cap
  {
    ReinsertAll(EmptyTable(cap), hash, Flatten(t))
  }

  /** The resize test `size / capacity > load_factor` with `load_factor == num / den`,
      cross-multiplied. */
  predicate Overloaded(size: nat, cap: nat, num: nat, den: nat)
  {
    size * den > num * cap
  }

  /** The whole of `__setitem__`: the threshold test on the current size and capacity comes
      first, then the (possibly resized) table gets the assignment. */
  ghost function SetState<K, V>(t: Table<K, V>, hash: K -> int, num: nat, den: nat, k: K, v: V): (r: Table<K, V>)
    requires |t| > 0
    ensures |r| >= |t|
  {
    var t1 := if Overloaded(TotalSize(t), |t|, num, den) then Rehash(t, hash, 2 * |t|) else t;
    Put(t1, hash, k, v)
  }

  /** `update`: one `__setitem__` per pair, in order. */
  ghost function UpdateState<K, V>(t: Table<K, V>, hash: K -> int, num: nat, den: nat, kvs: seq<(K, V)>): (r: Table<K, V>)
    requires |t| > 0
    ensures |r| >= |t|
  {
    if kvs == [] then t
    else
      var kv := kvs[|kvs| - 1];
      SetState(UpdateState(t, hash, num, den, kvs[..|kvs| - 1]), hash, num, den, kv.0, kv.1)
  }

  /** The same pairs applied to a plain map, in order. */
  ghost function UpdateMap<K, V>(m: map<K, V>, kvs: seq<(K, V)>): map<K, V>
  {
    if kvs == [] then m
    else
      var kv := kvs[|kvs| - 1];
      UpdateMap(m, kvs[..|kvs| - 1])[kv.0 := kv.1]
  }

  /** The bound on the size that the load factor keeps: at most twice `load_factor` times
      the capacity entries, and a capacity of at least `1 / (2 * load_factor)`. */
  predicate LoadBounded(size: nat, cap: nat, num: nat, den: nat)
  {
    size * den <= 2 * num * cap && den <= 2 * num * cap
  }

  /** Everything that holds of the bucket array of a live `Dictionary`. */
  ghost predicate Inv<K, V>(t: Table<K, V>, hash: K -> int, num: nat, den: nat)
  {
    WellFormed(t, hash) && 0 < num <= den && LoadBounded(TotalSize(t), |t|, num, den)
  }

  // ---------------------------------------------------------------------------------------
  // Sizes
  // ---------------------------------------------------------------------------------------

  /** Changing one bucket changes the total by the difference of its lengths. */
  lemma {:induction false} TotalSizeUpdate<K, V>(t: Table<K, V>, s: nat, b: seq<Node<K, V>>)
    requires s < |t|
    ensures TotalSize(t[s := b]) == TotalSize(t) - |t[s]| + |b|
  {
    var n := |t|;
    if s == n - 1 {
      assert t[s := b][..n - 1] == t[..n - 1];
    } else {
      assert t[s := b][..n - 1] == t[..n - 1][s := b];
      TotalSizeUpdate(t[..n - 1], s, b);
    }
  }

  /** The buckets before `n` hold no more entries than the whole table. */
  lemma {:induction false} TotalSizePrefix<K, V>(t: Table<K, V>, n: nat)
    requires n < |t|
    ensures TotalSize(t[..n + 1]) == TotalSize(t[..n]) + |t[n]|
    ensures TotalSize(t[..n + 1]) <= TotalSize(t)
  {
    assert t[..n + 1][..n] == t[..n];
    if n + 1 < |t| {
      TotalSizePrefix(t[..|t| - 1], n);
      assert t[..|t| - 1][..n + 1] == t[..n + 1];
    } else {
      assert t[..n + 1] == t;
    }
  }

  /** A fresh array holds no entries. */
  lemma {:induction false} TotalSizeEmpty<K, V>(cap: nat)
    ensures TotalSize(EmptyTable<K, V>(cap)) == 0
  {
    if cap > 0 {
      assert EmptyTable<K, V>(cap)[..cap - 1] == EmptyTable<K, V>(cap - 1);
      TotalSizeEmpty<K, V>(cap - 1);
    }
  }

  // ---------------------------------------------------------------------------------------
  // Traversal: the entries bucket by bucket
  // ---------------------------------------------------------------------------------------

  /** The entries of the first `n` buckets: no key twice, as many entries as those buckets
      hold, every key hashing below `n`, and the last entry with a key is the one the lookup
      path finds. */
  lemma {:induction false} FlattenPrefix<K, V>(t: Table<K, V>, hash: K -> int, n: nat)
    requires WellFormed(t, hash) && n <= |t|
    ensures Distinct(Flatten(t[..n]))
    ensures |Flatten(t[..n])| == TotalSize(t[..n])
    ensures forall i :: 0 <= i < |Flatten(t[..n])| ==> Slot(hash, Flatten(t[..n])[i].key, |t|) < n
    ensures forall k :: LastLookup(Flatten(t[..n]), k) ==
                        if Slot(hash, k, |t|) < n then Find(t, hash, k) else None
  {
    if n == 0 {
      assert t[..0] == [];
    } else {
      FlattenPrefix(t, hash, n - 1);
      FlattenStep(t, n - 1);
      TotalSizePrefix(t, n - 1);
      FlattenSlotsStep(t, hash, n - 1);
      FlattenDistinctStep(t, hash, n - 1);
      FlattenLookupStep(t, hash, n - 1);
    }
  }

  /** One more old bucket traversed. */
  lemma FlattenStep<K, V>(t: Table<K, V>, i: nat)
    requires i < |t|
    ensures Flatten(t[..i + 1]) == Flatten(t[..i]) + t[i]
  {
    assert t[..i + 1][..i] == t[..i];
  }

  /** Every key of the run `xs` has its slot below `n`. */
  ghost predicate SlotsBelow<K, V>(xs: seq<Node<K, V>>, hash: K -> int, cap: nat, n: nat)
    requires cap > 0
  {
    forall i :: 0 <= i < |xs| ==> Slot(hash, xs[i].key, cap) < n
  }

  /** Step of `FlattenPrefix`: the keys of the first `m + 1` buckets hash below `m + 1`. */
  lemma FlattenSlotsStep<K, V>(t: Table<K, V>, hash: K -> int, m: nat)
    requires WellFormed(t, hash) && m < |t|
    requires SlotsBelow(Flatten(t[..m]), hash, |t|, m)
    ensures SlotsBelow(Flatten(t[..m + 1]), hash, |t|, m + 1)
  {
    var f0 := Flatten(t[..m]);
    var b := t[m];
    FlattenStep(t, m);
    var f := Flatten(t[..m + 1]);
    assert Placed(b, hash, |t|, m);
    forall i | 0 <= i < |f|
      ensures Slot(hash, f[i].key, |t|) < m + 1
    {
      if i >= |f0| {
        assert f[i] == b[i - |f0|];
      } else {
        assert f[i] == f0[i];
      }
    }
  }

  /** Step of `FlattenPrefix`: the first `m + 1` buckets repeat no key. */
  lemma FlattenDistinctStep<K, V>(t: Table<K, V>, hash: K -> int, m: nat)
    requires WellFormed(t, hash) && m < |t|
    requires Distinct(Flatten(t[..m]))
    requires forall i :: 0 <= i < |Flatten(t[..m])| ==> Slot(hash, Flatten(t[..m])[i].key, |t|) < m
    ensures Distinct(Flatten(t[..m + 1]))
  {
    var f0 := Flatten(t[..m]);
    var b := t[m];
    FlattenStep(t, m);
    var f := Flatten(t[..m + 1]);
    assert Placed(b, hash, |t|, m) && Distinct(b);
    forall i, j | 0 <= i < j < |f|
      ensures f[i].key != f[j].key
    {
      if j < |f0| {
        assert f[i] == f0[i] && f[j] == f0[j];
      } else if i >= |f0| {
        assert f[i] == b[i - |f0|] && f[j] == b[j - |f0|];
      } else {
        assert f[i] == f0[i] && f[j] == b[j - |f0|];
        assert Slot(hash, f0[i].key, |t|) < m;
      }
    }
  }

  /** Step of `FlattenPrefix`: the last entry with a key among the first `m + 1` buckets is
      the one the lookup path finds. */
  lemma FlattenLookupStep<K, V>(t: Table<K, V>, hash: K -> int, m: nat)
    requires WellFormed(t, hash) && m < |t|
    requires forall k :: LastLookup(Flatten(t[..m]), k) ==
                         if Slot(hash, k, |t|) < m then Find(t, hash, k) else None
    ensures forall k :: LastLookup(Flatten(t[..m + 1]), k) ==
                        if Slot(hash, k, |t|) <= m then Find(t, hash, k) else None
  {
    var f0 := Flatten(t[..m]);
    var b := t[m];
    FlattenStep(t, m);
    var f := Flatten(t[..m + 1]);
    assert Placed(b, hash, |t|, m) && Distinct(b);
    forall k
      ensures LastLookup(f, k) == if Slot(hash, k, |t|) <= m then Find(t, hash, k) else None
    {
      LastLookupConcat(f0, b, k);
      var s := Slot(hash, k, |t|);
      LastLookupSome(b, k);
      if s == m {
        LastLookupDistinct(b, k);
        LastLookupSome(f0, k);
      } else {
        assert !HasKey(b, k);
      }
    }
  }

  /** The whole traversal: every entry once, no key twice, and for each key the last (and
      only) entry with it carries the value the lookup path finds. */
  lemma FlattenSpec<K, V>(t: Table<K, V>, hash: K -> int)
    requires WellFormed(t, hash)
    ensures Distinct(Flatten(t))
    ensures |Flatten(t)| == TotalSize(t)
    ensures forall k :: LastLookup(Flatten(t), k) == Find(t, hash, k)
  {
    FlattenPrefix(t, hash, |t|);
    assert t[..|t|] == t;
  }

  /** The stored map holds exactly the keys the lookup path finds, with the values it finds. */
  lemma MapOfFind<K, V>(t: Table<K, V>, hash: K -> int)
    requires WellFormed(t, hash)
    ensures forall k :: k in MapOf(t) <==> Find(t, hash, k).Some?
    ensures forall k :: k in MapOf(t) ==> MapOf(t)[k] == Find(t, hash, k).value
  {
    FlattenSpec(t, hash);
    var f := Flatten(t);
    MapOfEntriesSpec(f);
    assert MapOf(t) == MapOfEntries(f);
    forall k | k in MapOf(t)
      ensures MapOf(t)[k] == Find(t, hash, k).value
    {
      assert MapOfEntries(f)[k] == LastLookup(f, k).value;
    }
  }

  /** Two well-formed tables whose lookups agree on every key stand for the same map. */
  lemma MapOfExtensional<K, V>(t: Table<K, V>, u: Table<K, V>, hash: K -> int)
    requires WellFormed(t, hash) && WellFormed(u, hash)
    requires forall k :: Find(t, hash, k) == Find(u, hash, k)
    ensures MapOf(t) == MapOf(u)
  {
    MapOfFind(t, hash);
    MapOfFind(u, hash);
    SameMap(MapOf(t), MapOf(u), k => Find(t, hash, k));
  }

  /** Two maps that both agree with one lookup function are equal. */
  lemma SameMap<K, V>(m: map<K, V>, n: map<K, V>, f: K -> Option<V>)
    requires forall k :: (k in m <==> f(k).Some?) && (k in m ==> m[k] == f(k).value)
    requires forall k :: (k in n <==> f(k).Some?) && (k in n ==> n[k] == f(k).value)
    ensures m == n
  {
  }

  /** Iteration yields each stored key exactly once: `len(d)` keys in all, none twice, and
      precisely the keys of the map. */
  lemma KeysOfSpec<K, V>(t: Table<K, V>, hash: K -> int)
    requires WellFormed(t, hash)
    ensures |KeysOf(t)| == TotalSize(t)
    ensures forall i, j :: 0 <= i < j < |KeysOf(t)| ==> KeysOf(t)[i] != KeysOf(t)[j]
    ensures forall k :: k in KeysOf(t) <==> k in MapOf(t)
  {
    FlattenSpec(t, hash);
    var f := Flatten(t);
    MapOfEntriesSpec(f);
    assert MapOf(t) == MapOfEntries(f);
    forall k
      ensures k in KeysOf(t) <==> k in MapOf(t)
    {
      if k in KeysOf(t) {
        var i :| 0 <= i < |f| && KeysOf(t)[i] == k;
        assert f[i].key == k;
      }
      if HasKey(f, k) {
        var i :| 0 <= i < |f| && f[i].key == k;
        assert KeysOf(t)[i] == k;
      }
      LastLookupSome(f, k);
    }
  }

  /** `size` counts keys: in a well-formed table the sum of the bucket lengths is the number
      of distinct stored keys. */
  lemma SizeIsCount<K, V>(t: Table<K, V>, hash: K -> int)
    requires WellFormed(t, hash)
    ensures |MapOf(t)| == TotalSize(t)
  {
    FlattenSpec(t, hash);
    MapOfEntriesSize(Flatten(t));
  }

  // ---------------------------------------------------------------------------------------
  // The operations
  // ---------------------------------------------------------------------------------------

  /** A fresh bucket array is well formed, empty and stands for the empty map. */
  lemma EmptySpec<K, V>(cap: nat, hash: K -> int)
    requires cap > 0
    ensures WellFormed(EmptyTable<K, V>(cap), hash)
    ensures |EmptyTable<K, V>(cap)| == cap && TotalSize(EmptyTable<K, V>(cap)) == 0
    ensures forall k :: Find(EmptyTable<K, V>(cap), hash, k) == None
    ensures MapOf(EmptyTable<K, V>(cap)) == map[]
    ensures KeysOf(EmptyTable<K, V>(cap)) == []
  {
    TotalSizeEmpty<K, V>(cap);
    FlattenSpec(EmptyTable<K, V>(cap), hash);
  }

  /** Overwrite-or-append at the level of the lookup path: the key now finds the new value,
      every other key finds what it found before, the bucket array keeps its shape, and the
      size grows by one exactly when the key was not found before. */
  lemma PutFind<K, V>(t: Table<K, V>, hash: K -> int, k: K, v: V)
    requires WellFormed(t, hash)
    ensures WellFormed(Put(t, hash, k, v), hash) && |Put(t, hash, k, v)| == |t|
    ensures forall k' :: Find(Put(t, hash, k, v), hash, k') == if k' == k then Some(v) else Find(t, hash, k')
    ensures TotalSize(Put(t, hash, k, v)) == TotalSize(t) + (if Find(t, hash, k).Some? then 0 else 1)
  {
    var s := Slot(hash, k, |t|);
    var b := Assign(t[s], k, hash(k), v);
    var r := Put(t, hash, k, v);
    assert r == t[s := b];
    AssignPlaced(t[s], hash, |t|, s, k, v);
    AssignDistinct(t[s], k, hash(k), v);
    AssignLength(t[s], k, hash(k), v);
    TotalSizeUpdate(t, s, b);
    forall k' ensures Find(r, hash, k') == if k' == k then Some(v) else Find(t, hash, k') {
      LookupAssign(t[s], k, hash(k), v, k');
    }
  }

  /** Overwrite-or-append: the key now maps to the new value, every other key keeps its
      value or absence, the size grows by one exactly when the key was new, and the shape
      is kept. */
  lemma PutSpec<K, V>(t: Table<K, V>, hash: K -> int, k: K, v: V)
    requires WellFormed(t, hash)
    ensures WellFormed(Put(t, hash, k, v), hash) && |Put(t, hash, k, v)| == |t|
    ensures MapOf(Put(t, hash, k, v)) == MapOf(t)[k := v]
    ensures TotalSize(Put(t, hash, k, v)) == TotalSize(t) + (if k in MapOf(t) then 0 else 1)
  {
    var r := Put(t, hash, k, v);
    PutFind(t, hash, k, v);
    MapOfFind(t, hash);
    MapOfFind(r, hash);
    SameMap(MapOf(r), MapOf(t)[k := v], k' => Find(r, hash, k'));
  }

  /** Overwriting at the first position `j` of the key's bucket that holds the key: that is
      `Put`, the key was already stored, and the size is unchanged. */
  lemma PutAt<K, V>(t: Table<K, V>, hash: K -> int, k: K, v: V, j: nat)
    requires WellFormed(t, hash)
    requires j < |t[Slot(hash, k, |t|)]| && t[Slot(hash, k, |t|)][j].key == k
    requires forall i :: 0 <= i < j ==> t[Slot(hash, k, |t|)][i].key != k
    ensures var s := Slot(hash, k, |t|);
            t[s := t[s][j := t[s][j].(value := v)]] == Put(t, hash, k, v)
    ensures k in MapOf(t)
    ensures WellFormed(Put(t, hash, k, v), hash)
    ensures MapOf(Put(t, hash, k, v)) == MapOf(t)[k := v]
    ensures TotalSize(Put(t, hash, k, v)) == TotalSize(t)
  {
    var s := Slot(hash, k, |t|);
    LookupFirst(t[s], k, j);
    AssignFirst(t[s], k, hash(k), v, j);
    MapOfFind(t, hash);
    PutSpec(t, hash, k, v);
  }

  /** Appending to the key's bucket when no entry there holds the key: that is `Put`, the key
      was not stored, and the size grows by one. */
  lemma PutNew<K, V>(t: Table<K, V>, hash: K -> int, k: K, v: V)
    requires WellFormed(t, hash)
    requires forall i :: 0 <= i < |t[Slot(hash, k, |t|)]| ==> t[Slot(hash, k, |t|)][i].key != k
    ensures var s := Slot(hash, k, |t|);
            t[s := t[s] + [Node(k, hash(k), v)]] == Put(t, hash, k, v)
    ensures k !in MapOf(t)
    ensures WellFormed(Put(t, hash, k, v), hash)
    ensures MapOf(Put(t, hash, k, v)) == MapOf(t)[k := v]
    ensures TotalSize(Put(t, hash, k, v)) == TotalSize(t) + 1
  {
    var s := Slot(hash, k, |t|);
    LookupSome(t[s], k);
    AssignMissing(t[s], k, hash(k), v);
    MapOfFind(t, hash);
    PutSpec(t, hash, k, v);
  }

  /** Removal at the level of the lookup path: the key is no longer found, every other key
      finds what it found before, the shape is kept, and the size drops by one exactly when
      the key was found before. */
  lemma DeleteFind<K, V>(t: Table<K, V>, hash: K -> int, k: K)
    requires WellFormed(t, hash)
    ensures WellFormed(Delete(t, hash, k), hash) && |Delete(t, hash, k)| == |t|
    ensures forall k' :: Find(Delete(t, hash, k), hash, k') == if k' == k then None else Find(t, hash, k')
    ensures TotalSize(Delete(t, hash, k)) == TotalSize(t) - (if Find(t, hash, k).Some? then 1 else 0)
  {
    var s := Slot(hash, k, |t|);
    var b := Remove(t[s], k);
    var r := Delete(t, hash, k);
    assert r == t[s := b];
    RemoveKeepsShape(t[s], hash, |t|, s, k);
    RemoveLength(t[s], k);
    TotalSizeUpdate(t, s, b);
    forall k' ensures Find(r, hash, k') == if k' == k then None else Find(t, hash, k') {
      LookupRemove(t[s], k, k');
    }
  }

  /** Removal: the key is gone, every other key keeps its value or absence, the size drops by
      one exactly when the key was present, and the shape is kept. */
  lemma DeleteSpec<K, V>(t: Table<K, V>, hash: K -> int, k: K)
    requires WellFormed(t, hash)
    ensures WellFormed(Delete(t, hash, k), hash) && |Delete(t, hash, k)| == |t|
    ensures MapOf(Delete(t, hash, k)) == MapOf(t) - {k}
    ensures TotalSize(Delete(t, hash, k)) == TotalSize(t) - (if k in MapOf(t) then 1 else 0)
  {
    var r := Delete(t, hash, k);
    DeleteFind(t, hash, k);
    MapOfFind(t, hash);
    MapOfFind(r, hash);
    SameMap(MapOf(r), MapOf(t) - {k}, k' => Find(r, hash, k'));
  }

  /** Deleting at the first position `j` of the key's bucket that holds the key: that is
      `Delete`, the key was stored with that entry's value, and it leaves the map. */
  lemma DeleteAt<K, V>(t: Table<K, V>, hash: K -> int, k: K, j: nat)
    requires WellFormed(t, hash)
    requires j < |t[Slot(hash, k, |t|)]| && t[Slot(hash, k, |t|)][j].key == k
    requires forall i :: 0 <= i < j ==> t[Slot(hash, k, |t|)][i].key != k
    ensures var s := Slot(hash, k, |t|);
            t[s := t[s][..j] + t[s][j + 1..]] == Delete(t, hash, k)
    ensures k in MapOf(t) && MapOf(t)[k] == t[Slot(hash, k, |t|)][j].value
    ensures WellFormed(Delete(t, hash, k), hash)
    ensures MapOf(Delete(t, hash, k)) == MapOf(t) - {k}
    ensures TotalSize(Delete(t, hash, k)) == TotalSize(t) - 1
  {
    var s := Slot(hash, k, |t|);
    LookupFirst(t[s], k, j);
    RemoveFirst(t[s], k, j);
    MapOfFind(t, hash);
    DeleteSpec(t, hash, k);
  }

  /** Extending a prefix of `b` by its next element. */
  lemma AppendNext<T>(a: seq<T>, b: seq<T>, j: nat)
    requires j < |b|
    ensures a + b[..j + 1] == (a + b[..j]) + [b[j]]
  {
    assert b[..j + 1] == b[..j] + [b[j]];
  }

  /** The prefix of `b` one element longer. */
  lemma TakeNext<T>(b: seq<T>, j: nat)
    requires j < |b|
    ensures b[..j + 1] == b[..j] + [b[j]]
  {
  }

  /** Re-inserting a run and one more entry is re-inserting the run, then that entry. */
  lemma ReinsertLast<K, V>(t: Table<K, V>, hash: K -> int, zs: seq<Node<K, V>>, x: Node<K, V>)
    requires |t| > 0
    ensures ReinsertAll(t, hash, zs + [x]) == Put(ReinsertAll(t, hash, zs), hash, x.key, x.value)
  {
    assert (zs + [x])[..|zs|] == zs;
  }

  /** Re-inserting a run of entries into a fresh array: the result is well formed, each key
      maps to the value of its last entry in the run, and there is one entry per distinct
      key (exactly one per entry when the run repeats no key). */
  lemma {:induction false} RebuildSpec<K, V>(cap: nat, hash: K -> int, xs: seq<Node<K, V>>)
    requires cap > 0
    ensures WellFormed(ReinsertAll(EmptyTable(cap), hash, xs), hash)
    ensures forall k :: Find(ReinsertAll(EmptyTable(cap), hash, xs), hash, k) == LastLookup(xs, k)
    ensures TotalSize(ReinsertAll(EmptyTable(cap), hash, xs)) <= |xs|
    ensures Distinct(xs) ==> TotalSize(ReinsertAll(EmptyTable(cap), hash, xs)) == |xs|
  {
    if xs == [] {
      EmptySpec<K, V>(cap, hash);
    } else {
      var init := xs[..|xs| - 1];
      var x := xs[|xs| - 1];
      RebuildSpec(cap, hash, init);
      var r0 := ReinsertAll(EmptyTable(cap), hash, init);
      PutFind(r0, hash, x.key, x.value);
      assert ReinsertAll(EmptyTable(cap), hash, xs) == Put(r0, hash, x.key, x.value);
      if Distinct(xs) {
        assert Distinct(init);
        assert !HasKey(init, x.key);
        LastLookupSome(init, x.key);
      }
    }
  }

  /** `_resize` keeps the map and the size, and leaves a well-formed array of the new
      capacity. */
  lemma RehashSpec<K, V>(t: Table<K, V>, hash: K -> int, cap: nat)
    requires WellFormed(t, hash) && cap > 0
    ensures WellFormed(Rehash(t, hash, cap), hash) && |Rehash(t, hash, cap)| == cap
    ensures forall k :: Find(Rehash(t, hash, cap), hash, k) == Find(t, hash, k)
    ensures MapOf(Rehash(t, hash, cap)) == MapOf(t)
    ensures TotalSize(Rehash(t, hash, cap)) == TotalSize(t)
  {
    FlattenSpec(t, hash);
    RebuildSpec(cap, hash, Flatten(t));
    MapOfExtensional(Rehash(t, hash, cap), t, hash);
  }

  /** Once the threshold test has passed, one more entry keeps the size within the bound. */
  lemma AssignKeepsLoad(size: nat, cap: nat, num: nat, den: nat)
    requires LoadBounded(size, cap, num, den) && !Overloaded(size, cap, num, den)
    ensures LoadBounded(size + 1, cap, num, den)
  {
    if size > 0 {
      assert den <= size * den;
    }
  }

  /** Removing an entry keeps the bound. */
  lemma RemoveKeepsLoad(size: nat, cap: nat, num: nat, den: nat)
    requires size > 0 && LoadBounded(size, cap, num, den)
    ensures LoadBounded(size - 1, cap, num, den)
  {
    assert (size - 1) * den <= size * den;
  }

  /** Doubling the capacity keeps the bound and puts the size below the threshold. */
  lemma ResizeKeepsLoad(size: nat, cap: nat, num: nat, den: nat)
    requires LoadBounded(size, cap, num, den)
    ensures LoadBounded(size, 2 * cap, num, den) && !Overloaded(size, 2 * cap, num, den)
  {
  }

  /** No nested resize: while `_resize` re-inserts, through `__setitem__`, the `size` entries
      it found, the size never exceeds the old count, so the threshold test of the nested
      assignment never fires at the doubled capacity. */
  lemma NoNestedResize(reinserted: nat, size: nat, cap: nat, num: nat, den: nat)
    requires reinserted <= size && LoadBounded(size, cap, num, den)
    ensures !Overloaded(reinserted, 2 * cap, num, den)
  {
    assert reinserted * den <= size * den;
  }

  /** Part way through `_resize`, after the old buckets before `i` and the first `j` entries
      of bucket `i`: the new table holds no more entries than the old one. */
  lemma ReinsertedBound<K, V>(t: Table<K, V>, hash: K -> int, cap: nat, i: nat, j: nat)
    requires WellFormed(t, hash) && cap > 0 && i < |t| && j <= |t[i]|
    ensures TotalSize(ReinsertAll(EmptyTable(cap), hash, Flatten(t[..i]) + t[i][..j])) <= TotalSize(t)
  {
    RebuildSpec(cap, hash, Flatten(t[..i]) + t[i][..j]);
    FlattenPrefix(t, hash, i);
    TotalSizePrefix(t, i);
  }

  /** `d[k] = v` on a live table: the map gains or updates exactly that key, the size grows
      by one exactly when the key was new, the capacity doubles exactly when the threshold
      test on the old size fires (even for an overwrite), and the invariant is kept. */
  lemma SetStateSpec<K, V>(t: Table<K, V>, hash: K -> int, num: nat, den: nat, k: K, v: V)
    requires Inv(t, hash, num, den)
    ensures Inv(SetState(t, hash, num, den, k, v), hash, num, den)
    ensures |SetState(t, hash, num, den, k, v)| ==
            if Overloaded(TotalSize(t), |t|, num, den) then 2 * |t| else |t|
    ensures MapOf(SetState(t, hash, num, den, k, v)) == MapOf(t)[k := v]
    ensures TotalSize(SetState(t, hash, num, den, k, v)) ==
            TotalSize(t) + (if k in MapOf(t) then 0 else 1)
  {
    if Overloaded(TotalSize(t), |t|, num, den) {
      var t1 := Rehash(t, hash, 2 * |t|);
      RehashSpec(t, hash, 2 * |t|);
      ResizeKeepsLoad(TotalSize(t), |t|, num, den);
      PutKeepsInv(t1, hash, num, den, k, v);
    } else {
      PutKeepsInv(t, hash, num, den, k, v);
    }
  }

  /** An assignment below the threshold keeps the invariant. */
  lemma PutKeepsInv<K, V>(t: Table<K, V>, hash: K -> int, num: nat, den: nat, k: K, v: V)
    requires Inv(t, hash, num, den) && !Overloaded(TotalSize(t), |t|, num, den)
    ensures Inv(Put(t, hash, k, v), hash, num, den) && |Put(t, hash, k, v)| == |t|
    ensures MapOf(Put(t, hash, k, v)) == MapOf(t)[k := v]
    ensures TotalSize(Put(t, hash, k, v)) == TotalSize(t) + (if k in MapOf(t) then 0 else 1)
  {
    PutSpec(t, hash, k, v);
    AssignKeepsLoad(TotalSize(t), |t|, num, den);
  }

  /** Assigning a run of pairs and one more is assigning the run, then that pair. */
  lemma UpdateLast<K, V>(t: Table<K, V>, hash: K -> int, num: nat, den: nat, kvs: seq<(K, V)>, kv: (K, V))
    requires |t| > 0
    ensures UpdateState(t, hash, num, den, kvs + [kv]) ==
            SetState(UpdateState(t, hash, num, den, kvs), hash, num, den, kv.0, kv.1)
  {
    assert (kvs + [kv])[..|kvs|] == kvs;
  }

  /** `update(other)` is the run of assignments in order: it yields the map that applying the
      pairs in order to the old map yields, and never shrinks the capacity. */
  lemma {:induction false} UpdateStateSpec<K, V>(t: Table<K, V>, hash: K -> int, num: nat, den: nat, kvs: seq<(K, V)>)
    requires Inv(t, hash, num, den)
    ensures Inv(UpdateState(t, hash, num, den, kvs), hash, num, den)
    ensures MapOf(UpdateState(t, hash, num, den, kvs)) == UpdateMap(MapOf(t), kvs)
  {
    if kvs != [] {
      var init := kvs[..|kvs| - 1];
      UpdateStateSpec(t, hash, num, den, init);
      var kv := kvs[|kvs| - 1];
      SetStateSpec(UpdateState(t, hash, num, den, init), hash, num, den, kv.0, kv.1);
    }
  }
}
