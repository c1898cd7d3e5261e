# py-dictionary in Dafny

A model of `Dictionary`, the separate-chaining hash table of `app/main.py`, with proofs of what each
of its operations does to the key-to-value map it stores.

The table is an array of `capacity` buckets. Each bucket is a list of entries
`Node(key, hash, value)`. A `size` counter tracks the number of entries. Before placing a key,
`__setitem__` tests `size / capacity > load_factor`. When the test fires, `_resize` doubles the
capacity and feeds every old entry back through `__setitem__`.

The project has five modules:

- `Wrappers` (`wrappers.dfy`): `Option` and `Result`.
- `Nodes` (`nodes.dfy`): the entry, which caches its key's hash, and its `__eq__`.
- `Buckets` (`buckets.dfy`): one bucket as a sequence of entries. It defines the first-match scan
  (`Lookup`), overwrite-or-append (`Assign`) and delete-first-match (`Remove`). It also defines
  the map a run of entries stands for (`MapOfEntries`).
- `Tables` (`tables.dfy`): the bucket array as a value `seq<seq<Node>>`. It defines the
  invariant `Inv` and the map it stores (`MapOf`). It also gives one specification function per
  state change: `Put`, `Delete`, `Rehash`, `SetState`, `UpdateState`. Lemmas prove what each
  change does to the map, to the size and to the invariant.
- `Dictionaries` (`dictionary.dfy`): class `Dictionary`. Its fields are `capacity`, `size`, the
  bucket array `buckets: array<seq<Node>>`, the load factor `num / den` and the hash function.
  - Each method scans buckets with loops, as the source does.
  - Each method is proved against the `Tables` functions, in the form
    `buckets[..] == F(old(buckets[..]))`.
  - `Valid()` holds the invariant:
    - `capacity` is the number of buckets;
    - `size` is the sum of the bucket lengths;
    - every entry sits in bucket `hash(key) % capacity` and carries its key's hash;
    - no bucket holds a key twice;
    - `size * den <= 2 * num * capacity`.
  - `Contents()` is the stored map.

The load-factor test is exact: `size / capacity > num / den` becomes `size * den > num * capacity`
(the predicate `Tables.Overloaded`). The default `2/3` is `num = 2`, `den = 3`.

The test runs on the size before the key is placed. With the defaults, six fresh keys therefore
leave 8 buckets, and the seventh assignment doubles them to 16 (`Dictionaries.DefaultGrowth`). A
reading under which the sixth insertion already resizes does not match the code; the model
follows the code.

While `_resize` re-inserts through `__setitem__`, the nested threshold test never fires. The
first `k` entries re-inserted give a size of at most `k`, which never exceeds the old size. At the
doubled capacity the test needs more than twice the load the old table could hold
(`Tables.NoNestedResize`). The constructor's precondition `den <= 2 * num * initialCapacity` lets
the invariant hold from the start. The defaults meet it.

## Model

| member | source | states |
|---|---|---|
| Nodes.NewNode | app/main.py:5-8 | a new entry carries its own key's hash, the cached-hash condition that `Buckets.Placed` keeps for every stored entry |
| Nodes.NewNodeEquals | app/main.py:5-11 | a new entry is `__eq__` to an entry carrying its own key's hash if and only if the two hold the same key, whatever the values |
| Nodes.NodeEqualsIsKeyEquality | app/main.py:10-11 | for entries whose cached hash is their key's hash, `__eq__` holds exactly when the keys are equal |
| Buckets.LookupFirst | app/main.py:44-46 | when entry `j` is the first with the key, the bucket scan returns its value |
| Buckets.LookupSome | app/main.py:44-48 | the bucket scan finds a value if and only if some entry holds the key |
| Buckets.AssignFirst | app/main.py:32-35 | when entry `j` is the first with the key, assignment replaces that entry's value and nothing else |
| Buckets.AssignMissing | app/main.py:37 | when no entry holds the key, assignment appends one new entry at the end of the bucket |
| Buckets.LookupAssign | app/main.py:32-38 | after assigning `v` to `k` in a bucket, `k` finds `v` and every other key finds what it found before |
| Buckets.AssignLength | app/main.py:32-38 | assignment keeps the bucket length for a present key and adds exactly one for an absent key |
| Buckets.AssignDistinct | app/main.py:32-38 | assignment never puts a key into a bucket twice |
| Buckets.AssignPlaced | app/main.py:29-38 | assigning a key whose slot is this bucket's keeps every entry in its own slot with its own hash |
| Buckets.RemoveFirst | app/main.py:57-61 | when entry `j` is the first with the key, deletion removes exactly that entry |
| Buckets.RemoveMissing | app/main.py:57-63 | deleting an absent key leaves the bucket unchanged |
| Buckets.LookupRemove | app/main.py:57-61 | after deletion in a duplicate-free bucket the key is gone and every other key finds what it found before |
| Buckets.RemoveLength | app/main.py:57-61 | deletion shortens the bucket by one for a present key and not at all for an absent key |
| Buckets.RemoveKeepsShape | app/main.py:57-61 | deletion keeps every entry in its slot and keeps keys distinct |
| Buckets.LastLookupSome | app/main.py:94-97 | in a run of entries, the last entry with a key exists if and only if some entry holds it |
| Buckets.LastLookupConcat | app/main.py:105-107 | in a concatenation, the last entry with a key is in the second run when there is one there, else in the first |
| Buckets.LastLookupDistinct | app/main.py:44-46 | in a bucket without repeated keys, the last match is the first match |
| Buckets.LastLookupAt | app/main.py:94-97 | in a run without repeated keys, the last entry with the key is the one holding it |
| Buckets.MapOfEntriesSpec | app/main.py:94-97 | the map of a run holds exactly its keys, each with the value of its last entry |
| Buckets.MapOfEntriesSize | app/main.py:50-51 | a run without repeated keys has as many map entries as entries |
| Tables.Slot | app/main.py:29 | `hash(key) % capacity` lies in `[0, capacity)` and is the non-negative remainder that Python's `%` gives |
| Tables.TotalSizeUpdate | app/main.py:37-38 | replacing one bucket changes the entry count by the difference of the bucket lengths |
| Tables.TotalSizePrefix | app/main.py:105-107 | the buckets before `n + 1` hold those before `n` plus bucket `n`, and no more than the whole array |
| Tables.TotalSizeEmpty | app/main.py:23 | a fresh bucket array holds no entries |
| Tables.FlattenPrefix | app/main.py:94-97 | the traversal of the first `n` buckets: no key twice, one element per entry, every key's slot below `n`; the last entry with a key is the one its bucket scan finds |
| Tables.FlattenSpec | app/main.py:94-97 | the traversal of all buckets repeats no key, visits every entry once, and agrees with the lookup path |
| Tables.MapOfFind | app/main.py:40-48 | the stored map holds exactly the keys the lookup path finds, with the values it finds |
| Tables.MapOfExtensional | app/main.py:40-48 | two well-formed arrays whose lookups agree store the same map |
| Tables.KeysOfSpec | app/main.py:94-97 | iteration yields `size` keys, none twice, and exactly the keys of the stored map |
| Tables.SizeIsCount | app/main.py:50-51 | the entry count is the number of keys in the stored map |
| Tables.EmptySpec | app/main.py:23 | a fresh array of `capacity` empty buckets is well formed, holds no entries, finds nothing and iterates to nothing |
| Tables.PutFind | app/main.py:25-46 | after assigning `v` to `k`, `k` is found with `v` and every other key keeps its value or absence; the count grows by one exactly for a new key |
| Tables.PutSpec | app/main.py:29-38 | placing a key keeps the array well formed and updates the stored map at exactly that key; the count grows by one exactly when the key was absent |
| Tables.PutAt | app/main.py:32-35 | overwriting the first matching entry is the placement: the key was stored, only that entry's value changes, and the count is unchanged |
| Tables.PutNew | app/main.py:37-38 | appending to a bucket with no matching entry is the placement: the key was absent, the map gains it, and the count grows by one |
| Tables.DeleteFind | app/main.py:53-63 | after deletion the key is not found, every other key is found as before, and the count drops by one exactly when the key was present |
| Tables.DeleteSpec | app/main.py:53-63 | deletion keeps the array well formed and removes exactly that key from the stored map |
| Tables.DeleteAt | app/main.py:57-61 | removing the first matching entry is the deletion: the key was stored with that entry's value, the map loses it, and the count drops by one |
| Tables.RebuildSpec | app/main.py:102-107 | re-inserting a run of entries into fresh buckets gives a well-formed array. Each key maps to its last value in the run, the count is at most the run's length, and it equals that length when no key repeats |
| Tables.RehashSpec | app/main.py:99-107 | resizing to any positive capacity gives a well-formed array of that capacity with the same lookups, the same map and the same count |
| Tables.AssignKeepsLoad | app/main.py:26-38 | one more entry below the threshold keeps the load bound |
| Tables.RemoveKeepsLoad | app/main.py:59-60 | one entry fewer keeps the load bound |
| Tables.ResizeKeepsLoad | app/main.py:26-27 | after doubling, the load bound still holds and the threshold test does not fire |
| Tables.NoNestedResize | app/main.py:105-107 | while re-inserting at the doubled capacity, the nested threshold test of `__setitem__` never fires |
| Tables.ReinsertedBound | app/main.py:105-107 | partway through resizing, the new array holds no more entries than the old one |
| Tables.SetStateSpec | app/main.py:25-38 | `d[k] = v` keeps the invariant and updates the map at exactly `k`. Capacity doubles exactly when the size before the call is over the threshold, even for an overwrite. The size grows by one exactly for a new key |
| Tables.PutKeepsInv | app/main.py:29-38 | placing a key when the threshold test did not fire keeps the invariant and updates the map at exactly that key |
| Tables.UpdateStateSpec | app/main.py:90-92 | `update(other)` keeps the invariant and gives the map that assigning the pairs in order to the old map gives |
| Dictionaries.Dictionary.constructor | app/main.py:15-23 | a new table has `initial_capacity` empty buckets, size 0, an empty map and the invariant |
| Dictionaries.Dictionary.SetItem | app/main.py:25-38 | the buckets become `SetState` of the old ones. The map is updated at exactly `key`, capacity doubles exactly when the old size is over the threshold, and size grows by one exactly for a new key |
| Dictionaries.Dictionary.Place | app/main.py:29-38 | the bucket scan overwrites in place or appends: the buckets become `Put` of the old ones, the map is updated at `key`, and size grows by one exactly for a new key |
| Dictionaries.Dictionary.GetItem | app/main.py:40-48 | returns the stored value of a present key and `KeyError` for an absent one, changing nothing |
| Dictionaries.Dictionary.Len | app/main.py:50-51 | the length is the number of keys in the stored map |
| Dictionaries.Dictionary.DelItem | app/main.py:53-63 | on a present key, removes exactly that key and decrements size. On an absent key, returns `KeyError` and leaves buckets and size unchanged, which is again `Delete` of the old buckets (`Buckets.RemoveMissing`). Capacity never changes |
| Dictionaries.Dictionary.Unlink | app/main.py:59-60 | removing the found entry deletes the key from the map and decrements size; the key was stored with that entry's value |
| Dictionaries.Dictionary.Get | app/main.py:65-69 | never fails: the stored value, or `default` for an absent key |
| Dictionaries.Dictionary.Pop | app/main.py:71-84 | on a present key, returns its value, removes the key and decrements size. On an absent key, returns `default` when it is not `None`, else `KeyError`, and changes nothing, which is again `Delete` of the old buckets |
| Dictionaries.Dictionary.Clear | app/main.py:86-88 | fresh empty buckets of the same capacity: size 0 and an empty map |
| Dictionaries.Dictionary.Update | app/main.py:90-92 | the buckets become `UpdateState` of the old ones, the map is the old map with the pairs assigned in order, and capacity does not shrink |
| Dictionaries.Dictionary.Iterate | app/main.py:94-97 | yields the keys bucket by bucket, and within a bucket in insertion order. That is `size` keys, none twice, exactly the stored keys |
| Dictionaries.Dictionary.Resize | app/main.py:99-107 | capacity doubles and the buckets become `Rehash` of the old ones. Map and size are preserved, with no nested resize |
| Dictionaries.Dictionary.ReinsertBucket | app/main.py:106-107 | re-inserting one old bucket's entries in order extends the rebuilt array by exactly those entries |
| Dictionaries.DefaultGrowth | app/main.py:17-27 | with the defaults, six assignments of new keys leave 8 buckets and the seventh gives 16 |
| Dictionaries.PopOnEmpty | app/main.py:82-84 | `pop` of an absent key raises `KeyError` without a default and returns the default when one is given |

## Left out

- Python's `hash` is a parameter of the constructor: an arbitrary function from keys to
  integers, fixed for the life of the table. Hashing failures for unhashable keys are not modelled.
- Keys are compared with Dafny's `==`, an equivalence that the hash function is assumed to
  respect: equal keys have equal hashes. The source compares with the key's own `__eq__`, with
  no identity check first. Keys whose `__eq__` is not reflexive (a float NaN), and equal keys
  with different hashes, are outside the model. For them the source can store the same key
  twice: with `x = float('nan')`, `d[x] = 1; d[x] = 2` appends two entries, makes `size` 2, and
  `d[x]` still raises `KeyError`. The "no key twice" invariant rests on this assumption.
- The float load factor is the exact fraction `num / den`. Floating-point rounding in
  `size / capacity > load_factor` is not modelled.
- Dictionaries.Dictionary.constructor: requires `initial_capacity > 0`, `0 < load_factor <= 1`,
  and `den <= 2 * num * initial_capacity` (capacity times load factor at least one half). The
  source validates none of these. The last condition is sufficient, not necessary, to rule out
  a nested resize. Under parameters that allow one (capacity 1 with load factor 1/10, say), the
  capacity can grow by more than a factor of two in one resize; the model does not cover that.
- An entry is a value (`datatype Node`), and a bucket a sequence written back into the array.
  `node.value = value`, `bucket.append` and `del bucket[i]` become replacements of the bucket.
  No entry or bucket object is ever shared or exposed, so aliasing plays no part.
- `__iter__` is a method returning the whole sequence of keys. Generator laziness and the
  hazard of mutating the table during iteration are not modelled.
- `update(other)` takes `other` as the sequence of its key/value pairs in iteration order. An
  arbitrary mapping object with its own `__iter__` and `__getitem__` is not modelled.
- `KeyError` carries the missing key; its message text is not modelled.
- The `default` of `get` and `pop` is an `Option`: `None` stands for Python's `None`, whether
  omitted or passed explicitly. A stored value equal to Python's `None` is not distinguished from
  other values.
- Results of lookups are wrapped: where the source returns the stored value itself, the model
  returns it in `Ok` or `Some`; where it raises `KeyError`, the model returns `Err`.
