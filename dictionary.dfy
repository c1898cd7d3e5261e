/** The hash table of app/main.py: class `Dictionary`, separate chaining over an array of
    buckets, doubling once the load factor is exceeded. */
module Dictionaries {
  import opened Wrappers
  import opened Nodes
  import opened Buckets
  import opened Tables

  /** `KeyError` for the missing key (its message text is not modelled). */
  datatype KeyError<K> = KeyNotFound(key: K)

  /** The constructor's defaults: 8 buckets and a load factor of 2/3. */
  const DefaultCapacity: nat := 8
  const DefaultLoadNum: nat := 2
  const DefaultLoadDen: nat := 3

  class Dictionary<K(==), V> {
    var capacity: nat
    var size: nat
    var buckets: array<seq<Node<K, V>>>
    /** The load factor is `num / den`. */
    const num: nat
    const den: nat
    /** The host's `hash`, fixed for the life of the table. */
    const hash: K -> int
    ghost var Repr: set<object>

    /** The object invariant: `capacity` is the number of buckets, `size` the sum of their
        lengths, and the bucket array satisfies the table invariant. */
    ghost predicate Valid()
      reads this, Repr
    {
      this in Repr && buckets in Repr &&
      capacity == buckets.Length &&
      size == TotalSize(buckets[..]) &&
      Inv(buckets[..], hash, num, den)
    }

    /** The key-to-value map the table stores. */
    ghost function Contents(): map<K, V>
      reads this, buckets
    {
      MapOf(buckets[..])
    }

    /** `Dictionary(initial_capacity, load_factor)` with `load_factor == num / den`. */
    constructor (initialCapacity: nat, num: nat, den: nat, hash: K -> int)
      requires initialCapacity > 0 && 0 < num <= den
      requires den <= 2 * num * initialCapacity
      ensures Valid() && fresh(Repr)
      ensures this.num == num && this.den == den && this.hash == hash
      ensures capacity == initialCapacity && size == 0
      ensures buckets[..] == EmptyTable(initialCapacity)
      ensures Contents() == map[]
    {
      this.num, this.den, this.hash := num, den, hash;
      capacity := initialCapacity;
      size := 0;
      buckets := new seq<Node<K, V>>[initialCapacity](_ => []);
      Repr := {this, buckets};
      new;
      assert buckets[..] == EmptyTable(initialCapacity);
      EmptySpec<K, V>(initialCapacity, hash);
    }

    /** `__setitem__`: the threshold test on the current size comes first and may resize even
        when the key is already present; then the key's bucket is scanned. */
    method SetItem(key: K, value: V)
      requires Valid()
      modifies Repr
      ensures Valid() && fresh(Repr - old(Repr))
      ensures buckets[..] == SetState(old(buckets[..]), hash, num, den, key, value)
      ensures capacity == if Overloaded(old(size), old(capacity), num, den) then 2 * old(capacity) else old(capacity)
      ensures Contents() == old(Contents())[key := value]
      ensures size == old(size) + (if key in old(Contents()) then 0 else 1)
    {
      if Overloaded(size, capacity, num, den) {
        Resize();
        ResizeKeepsLoad(size, capacity / 2, num, den);
      }
      Place(key, value);
    }

    /** The placement step of `__setitem__`, after the threshold test has passed: overwrite the
        value of the entry with the key in place, or else append a new entry and count it. */
    method Place(key: K, value: V)
      requires Valid() && !Overloaded(size, capacity, num, den)
      modifies buckets, this`size
      ensures Valid() && Repr == old(Repr) && buckets == old(buckets) && capacity == old(capacity)
      ensures buckets[..] == Put(old(buckets[..]), hash, key, value)
      ensures Contents() == old(Contents())[key := value]
      ensures size == old(size) + (if key in old(Contents()) then 0 else 1)
    {
      ghost var t := buckets[..];
      ghost var p := Put(t, hash, key, value);
      var index := Slot(hash, key, capacity);
      var bucket := buckets[index];
      for j := 0 to |bucket|
        invariant forall i :: 0 <= i < j ==> bucket[i].key != key
      {
        if bucket[j].key == key {
          PutAt(t, hash, key, value, j);
          buckets[index] := bucket[j := bucket[j].(value := value)];
          assert buckets[..] == p;
          return;
        }
      }
      PutNew(t, hash, key, value);
      AssignKeepsLoad(size, capacity, num, den);
      buckets[index] := bucket + [NewNode(hash, key, value)];
      assert buckets[..] == p;
      size := size + 1;
    }

    /** `__getitem__`: the stored value, or `KeyError` for an absent key. */
    method GetItem(key: K) returns (r: Result<V, KeyError<K>>)
      requires Valid()
      ensures r == if key in Contents() then Ok(Contents()[key]) else Err(KeyNotFound(key))
    {
      MapOfFind(buckets[..], hash);
      var index := Slot(hash, key, capacity);
      var bucket := buckets[index];
      for j := 0 to |bucket|
        invariant forall i :: 0 <= i < j ==> bucket[i].key != key
      {
        if bucket[j].key == key {
          LookupFirst(bucket, key, j);
          return Ok(bucket[j].value);
        }
      }
      LookupSome(bucket, key);
      return Err(KeyNotFound(key));
    }

    /** `__len__`: the number of stored keys. */
    function Len(): (n: nat)
      reads this, Repr
      requires Valid()
      ensures n == |Contents()|
    {
      SizeIsCount(buckets[..], hash);
      size
    }

    /** `__delitem__`: remove the key's entry, or raise `KeyError` and change nothing. */
    method DelItem(key: K) returns (r: Result<(), KeyError<K>>)
      requires Valid()
      modifies buckets, this`size
      ensures Valid() && Repr == old(Repr) && buckets == old(buckets) && capacity == old(capacity)
      ensures r.Ok? <==> key in old(Contents())
      ensures r.Ok? ==> buckets[..] == Delete(old(buckets[..]), hash, key) &&
                        Contents() == old(Contents()) - {key} && size == old(size) - 1
      ensures r.Err? ==> r.error == KeyNotFound(key) && buckets[..] == old(buckets[..]) &&
                         buckets[..] == Delete(old(buckets[..]), hash, key) && size == old(size)
    {
      MapOfFind(buckets[..], hash);
      var index := Slot(hash, key, capacity);
      var bucket := buckets[index];
      for j := 0 to |bucket|
        invariant forall i :: 0 <= i < j ==> bucket[i].key != key
      {
        if bucket[j].key == key {
          Unlink(key, index, j);
          return Ok(());
        }
      }
      LookupSome(bucket, key);
      RemoveMissing(bucket, key);
      assert buckets[..] == Delete(buckets[..], hash, key);
      return Err(KeyNotFound(key));
    }

    /** Once entry `j` of the key's bucket was found to hold the key: drop that entry from the
        bucket and decrement the count, so the key leaves the map. */
    method Unlink(key: K, index: nat, j: nat)
      requires Valid() && index == Slot(hash, key, capacity)
      requires j < |buckets[index]| && buckets[index][j].key == key
      requires forall i :: 0 <= i < j ==> buckets[index][i].key != key
      modifies buckets, this`size
      ensures Valid() && Repr == old(Repr) && buckets == old(buckets) && capacity == old(capacity)
      ensures key in old(Contents()) && old(Contents())[key] == old(buckets[index][j].value)
      ensures buckets[..] == Delete(old(buckets[..]), hash, key)
      ensures Contents() == old(Contents()) - {key} && size == old(size) - 1
    {
      ghost var t := buckets[..];
      ghost var d := Delete(t, hash, key);
      DeleteAt(t, hash, key, j);
      RemoveKeepsLoad(size, capacity, num, den);
      var bucket := buckets[index];
      buckets[index] := bucket[..j] + bucket[j + 1..];
      assert buckets[..] == d;
      size := size - 1;
      assert size == TotalSize(d) && Inv(d, hash, num, den);
    }

    /** `get(key, default)`: the stored value, or `default` (Python's `None` unless given);
        never fails. */
    method Get(key: K, default: Option<V>) returns (r: Option<V>)
      requires Valid()
      ensures r == if key in Contents() then Some(Contents()[key]) else default
    {
      var found := GetItem(key);
      match found {
        case Ok(v) => r := Some(v);
        case Err(_) => r := default;
      }
    }

    /** `pop(key, default)`: remove the key's entry and return its value; for an absent key
        return `default` when it is not `None`, else raise `KeyError`, changing nothing. */
    method Pop(key: K, default: Option<V>) returns (r: Result<V, KeyError<K>>)
      requires Valid()
      modifies buckets, this`size
      ensures Valid() && Repr == old(Repr) && buckets == old(buckets) && capacity == old(capacity)
      ensures key in old(Contents()) ==>
                r == Ok(old(Contents())[key]) && buckets[..] == Delete(old(buckets[..]), hash, key) &&
                Contents() == old(Contents()) - {key} && size == old(size) - 1
      ensures key !in old(Contents()) ==>
                r == (if default.Some? then Ok(default.value) else Err(KeyNotFound(key))) &&
                buckets[..] == old(buckets[..]) && buckets[..] == Delete(old(buckets[..]), hash, key) &&
                size == old(size)
    {
      MapOfFind(buckets[..], hash);
      var index := Slot(hash, key, capacity);
      var bucket := buckets[index];
      for j := 0 to |bucket|
        invariant forall i :: 0 <= i < j ==> bucket[i].key != key
      {
        if bucket[j].key == key {
          var value := bucket[j].value;
          Unlink(key, index, j);
          return Ok(value);
        }
      }
      LookupSome(bucket, key);
      RemoveMissing(bucket, key);
      assert buckets[..] == Delete(buckets[..], hash, key);
      if default.Some? {
        return Ok(default.value);
      }
      return Err(KeyNotFound(key));
    }

    /** `clear`: a fresh array of empty buckets of the current capacity. */
    method Clear()
      requires Valid()
      modifies this
      ensures Valid() && fresh(buckets) && fresh(Repr - old(Repr))
      ensures capacity == old(capacity) && size == 0
      ensures buckets[..] == EmptyTable(capacity)
      ensures Contents() == map[]
    {
      buckets := new seq<Node<K, V>>[capacity](_ => []);
      size := 0;
      Repr := {this, buckets};
      assert buckets[..] == EmptyTable(capacity);
      EmptySpec<K, V>(capacity, hash);
    }

    /** `update(other)`, with `other` given as its key/value pairs in iteration order: one
        `__setitem__` per pair. */
    method Update(other: seq<(K, V)>)
      requires Valid()
      modifies Repr
      ensures Valid() && fresh(Repr - old(Repr))
      ensures buckets[..] == UpdateState(old(buckets[..]), hash, num, den, other)
      ensures Contents() == UpdateMap(old(Contents()), other)
      ensures capacity >= old(capacity)
    {
      ghost var t := buckets[..];
      ghost var done: seq<(K, V)> := [];
      for i := 0 to |other|
        invariant Valid() && fresh(Repr - old(Repr))
        invariant done == other[..i]
        invariant buckets[..] == UpdateState(t, hash, num, den, done)
      {
        UpdateLast(t, hash, num, den, done, other[i]);
        SetItem(other[i].0, other[i].1);
        TakeNext(other, i);
        done := done + [other[i]];
      }
      assert other[..|other|] == other;
      UpdateStateSpec(t, hash, num, den, other);
    }

    /** `__iter__`: the keys, bucket by bucket and in order within each bucket; each stored
        key exactly once. */
    method Iterate() returns (ks: seq<K>)
      requires Valid()
      ensures ks == KeysOf(buckets[..])
      ensures |ks| == size
      ensures forall i, j :: 0 <= i < j < |ks| ==> ks[i] != ks[j]
      ensures forall k :: k in ks <==> k in Contents()
    {
      ghost var t := buckets[..];
      ks := [];
      for i := 0 to buckets.Length
        invariant ks == EntryKeys(Flatten(t[..i]))
      {
        var bucket := buckets[i];
        for j := 0 to |bucket|
          invariant ks == EntryKeys(Flatten(t[..i]) + bucket[..j])
        {
          assert Flatten(t[..i]) + bucket[..j + 1] == (Flatten(t[..i]) + bucket[..j]) + [bucket[j]];
          ks := ks + [bucket[j].key];
        }
        assert t[..i + 1][..i] == t[..i];
        assert bucket[..|bucket|] == bucket;
      }
      assert t[..buckets.Length] == t;
      KeysOfSpec(t, hash);
    }

    /** `_resize`: double the capacity, start from a fresh empty array and size 0, and
        re-insert every old entry, old bucket by old bucket, through `__setitem__`, whose
        threshold test is proved never to fire here. */
    method Resize()
      requires Valid()
      modifies this
      ensures Valid() && fresh(buckets) && fresh(Repr - old(Repr))
      ensures capacity == 2 * old(capacity) && size == old(size)
      ensures buckets[..] == Rehash(old(buckets[..]), hash, 2 * old(capacity))
      ensures Contents() == old(Contents())
    {
      var oldBuckets := buckets;
      ghost var t := buckets[..];
      ResizeKeepsLoad(size, capacity, num, den);
      capacity := 2 * capacity;
      buckets := new seq<Node<K, V>>[capacity](_ => []);
      size := 0;
      Repr := {this, buckets};
      assert buckets[..] == EmptyTable(capacity);
      EmptySpec<K, V>(capacity, hash);
      assert LoadBounded(0, capacity, num, den);
      for i := 0 to oldBuckets.Length
        invariant Valid() && fresh(buckets) && Repr == {this, buckets}
        invariant capacity == 2 * |t| && oldBuckets[..] == t
        invariant buckets[..] == ReinsertAll(EmptyTable(capacity), hash, Flatten(t[..i]))
      {
        ReinsertBucket(oldBuckets[i], t, i);
      }
      assert t[..oldBuckets.Length] == t;
      RehashSpec(t, hash, capacity);
      assert buckets[..] == Rehash(t, hash, capacity);
    }

    /** The inner loop of `_resize`: re-insert, in order, the entries of old bucket `i` of the
        old array `t`. */
    method ReinsertBucket(bucket: seq<Node<K, V>>, ghost t: Table<K, V>, ghost i: nat)
      requires Valid() && Inv(t, hash, num, den) && i < |t| && bucket == t[i]
      requires capacity == 2 * |t|
      requires buckets[..] == ReinsertAll(EmptyTable(capacity), hash, Flatten(t[..i]))
      modifies buckets, this`size
      ensures Valid() && Repr == old(Repr) && buckets == old(buckets) && capacity == old(capacity)
      ensures buckets[..] == ReinsertAll(EmptyTable(capacity), hash, Flatten(t[..i + 1]))
    {
      ghost var empty := EmptyTable(capacity);
      ghost var done := Flatten(t[..i]);
      assert done == Flatten(t[..i]) + bucket[..0];
      for j := 0 to |bucket|
        invariant Valid() && Repr == old(Repr) && buckets == old(buckets) && capacity == old(capacity)
        invariant done == Flatten(t[..i]) + bucket[..j]
        invariant buckets[..] == ReinsertAll(empty, hash, done)
      {
        var node := bucket[j];
        ReinsertedBound(t, hash, capacity, i, j);
        NoNestedResize(size, TotalSize(t), |t|, num, den);
        ReinsertLast(empty, hash, done, node);
        Place(node.key, node.value);
        AppendNext(Flatten(t[..i]), bucket, j);
        done := done + [node];
      }
      FlattenStep(t, i);
      assert bucket[..|bucket|] == bucket;
    }
  }

  /** The default configuration with integer keys that hash to themselves: six assignments
      of new keys leave 8 buckets (before the sixth the test sees 5/8, not above 2/3); the
      seventh doubles them (6/8 is above 2/3). */
  method DefaultGrowth() returns (afterSix: nat, afterSeven: nat)
    ensures afterSix == 8 && afterSeven == 16
  {
    var d := new Dictionary<int, int>(DefaultCapacity, DefaultLoadNum, DefaultLoadDen, x => x);
    for i := 0 to 6
      invariant d.Valid() && fresh(d.Repr)
      invariant d.num == 2 && d.den == 3 && d.size == i && d.capacity == 8
      invariant forall k :: k in d.Contents() ==> k < i
    {
      assert !Overloaded(d.size, d.capacity, d.num, d.den) && i !in d.Contents();
      d.SetItem(i, i);
    }
    afterSix := d.capacity;
    assert Overloaded(d.size, d.capacity, d.num, d.den) && 6 !in d.Contents();
    d.SetItem(6, 6);
    afterSeven := d.capacity;
  }

  /** `pop` on an empty table: without a default it raises `KeyError`; with one it returns it. */
  method PopOnEmpty() returns (without: Result<int, KeyError<int>>, with: Result<int, KeyError<int>>)
    ensures without == Err(KeyNotFound(0)) && with == Ok(7)
  {
    var d := new Dictionary<int, int>(DefaultCapacity, DefaultLoadNum, DefaultLoadDen, x => x);
    without := d.Pop(0, None);
    with := d.Pop(0, Some(7));
  }
}
