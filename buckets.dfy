/** One bucket of the table: an ordered list of entries scanned front to back
    (the `for node in bucket` loops of app/main.py). */
module Buckets {
  import opened Wrappers
  import opened Nodes

  /** Some entry of `b` has key `k`. */
  ghost predicate HasKey<K, V>(b: seq<Node<K, V>>, k: K)
  {
    exists i :: 0 <= i < |b| && b[i].key == k
  }

  /** No key occurs twice in `b`. */
  ghost predicate Distinct<K, V>(b: seq<Node<K, V>>)
  {
    forall i, j :: 0 <= i < j < |b| ==> b[i].key != b[j].key
  }

  /** Every entry of `b` carries the hash of its own key and that hash selects bucket `s`
      of a table with `cap` buckets. */
  ghost predicate Placed<K, V>(b: seq<Node<K, V>>, hash: K -> int, cap: nat, s: nat)
    requires cap > 0
  {
    forall i :: 0 <= i < |b| ==> b[i].hash == hash(b[i].key) && hash(b[i].key) % cap == s
  }

  /** The value of the first entry with key `k`, scanning from the front. */
  ghost function Lookup<K, V>(b: seq<Node<K, V>>, k: K): Option<V>
  {
    if b == [] then None
    else if b[0].key == k then Some(b[0].value)
    else Lookup(b[1..], k)
  }

  /** Overwrite-or-append: the first entry with key `k` gets value `v` (its key and cached
      hash stay); when there is none, a new entry `Node(k, h, v)` goes at the end. */
  ghost function Assign<K, V>(b: seq<Node<K, V>>, k: K, h: int, v: V): seq<Node<K, V>>
  {
    if b == [] then [Node(k, h, v)]
    else if b[0].key == k then [b[0].(value := v)] + b[1..]
    else [b[0]] + Assign(b[1..], k, h, v)
  }

  /** Deletion of the first entry with key `k`; `b` itself when there is none. */
  ghost function Remove<K, V>(b: seq<Node<K, V>>, k: K): seq<Node<K, V>>
  {
    if b == [] then []
    else if b[0].key == k then b[1..]
    else [b[0]] + Remove(b[1..], k)
  }

  /** The value of the LAST entry with key `k`: what a run of assignments, one per entry of
      `xs` in order, leaves behind for `k`. */
  ghost function LastLookup<K, V>(xs: seq<Node<K, V>>, k: K): Option<V>
  {
    if xs == [] then None
    else if xs[|xs| - 1].key == k then Some(xs[|xs| - 1].value)
    else LastLookup(xs[..|xs| - 1], k)
  }

  // ---------------------------------------------------------------------------------------
  // The scans at index level (what the loops over a bucket establish)
  // ---------------------------------------------------------------------------------------

  /** The scan stops at the first entry whose key matches. */
  lemma {:induction false} LookupFirst<K, V>(b: seq<Node<K, V>>, k: K, j: nat)
    requires j < |b| && b[j].key == k
    requires forall i :: 0 <= i < j ==> b[i].key != k
    ensures Lookup(b, k) == Some(b[j].value)
  {
    if j > 0 {
      LookupFirst(b[1..], k, j - 1);
    }
  }

  /** The scan finds nothing exactly when no entry has the key. */
  lemma {:induction false} LookupSome<K, V>(b: seq<Node<K, V>>, k: K)
    ensures Lookup(b, k).Some? <==> HasKey(b, k)
  {
    if b != [] {
      LookupSome(b[1..], k);
      if HasKey(b[1..], k) {
        var i :| 0 <= i < |b[1..]| && b[1..][i].key == k;
        assert b[i + 1].key == k;
      }
      if HasKey(b, k) && b[0].key != k {
        var i :| 0 <= i < |b| && b[i].key == k;
        assert b[1..][i - 1].key == k;
      }
    }
  }

  /** Overwriting in place: when `j` is the first entry with key `k`, only its value changes. */
  lemma {:induction false} AssignFirst<K, V>(b: seq<Node<K, V>>, k: K, h: int, v: V, j: nat)
    requires j < |b| && b[j].key == k
    requires forall i :: 0 <= i < j ==> b[i].key != k
    ensures Assign(b, k, h, v) == b[j := b[j].(value := v)]
  {
    if j > 0 {
      AssignFirst(b[1..], k, h, v, j - 1);
      assert [b[0]] + b[1..][j - 1 := b[j].(value := v)] == b[j := b[j].(value := v)];
    } else {
      assert [b[0].(value := v)] + b[1..] == b[0 := b[0].(value := v)];
    }
  }

  /** Appending: when no entry has key `k`, the new entry is added at the end. */
  lemma {:induction false} AssignMissing<K, V>(b: seq<Node<K, V>>, k: K, h: int, v: V)
    requires forall i :: 0 <= i < |b| ==> b[i].key != k
    ensures Assign(b, k, h, v) == b + [Node(k, h, v)]
  {
    if b != [] {
      AssignMissing(b[1..], k, h, v);
      assert [b[0]] + (b[1..] + [Node(k, h, v)]) == b + [Node(k, h, v)];
    }
  }

  /** Deletion drops exactly the first entry with key `k`. */
  lemma {:induction false} RemoveFirst<K, V>(b: seq<Node<K, V>>, k: K, j: nat)
    requires j < |b| && b[j].key == k
    requires forall i :: 0 <= i < j ==> b[i].key != k
    ensures Remove(b, k) == b[..j] + b[j + 1..]
  {
    if j > 0 {
      RemoveFirst(b[1..], k, j - 1);
      assert [b[0]] + (b[1..][..j - 1] + b[1..][j..]) == b[..j] + b[j + 1..];
    } else {
      assert b[..0] + b[1..] == b[1..];
    }
  }

  /** Removing an absent key leaves the bucket as it was. */
  lemma {:induction false} RemoveMissing<K, V>(b: seq<Node<K, V>>, k: K)
    requires forall i :: 0 <= i < |b| ==> b[i].key != k
    ensures Remove(b, k) == b
  {
    if b != [] {
      RemoveMissing(b[1..], k);
    }
  }

  // ---------------------------------------------------------------------------------------
  // What the bucket operations mean
  // ---------------------------------------------------------------------------------------

  /** After an assignment the key maps to the new value and every other key is untouched. */
  lemma {:induction false} LookupAssign<K, V>(b: seq<Node<K, V>>, k: K, h: int, v: V, k': K)
    ensures Lookup(Assign(b, k, h, v), k') == if k' == k then Some(v) else Lookup(b, k')
  {
    if b != [] && b[0].key != k {
      LookupAssign(b[1..], k, h, v, k');
    }
  }

  /** An assignment grows the bucket by one entry exactly when the key was absent. */
  lemma {:induction false} AssignLength<K, V>(b: seq<Node<K, V>>, k: K, h: int, v: V)
    ensures |Assign(b, k, h, v)| == |b| + (if Lookup(b, k).Some? then 0 else 1)
  {
    if b != [] && b[0].key != k {
      AssignLength(b[1..], k, h, v);
    }
  }

  /** An assignment keeps the keys of a bucket distinct. */
  lemma {:induction false} AssignDistinct<K, V>(b: seq<Node<K, V>>, k: K, h: int, v: V)
    requires Distinct(b)
    ensures Distinct(Assign(b, k, h, v))
  {
    var r := Assign(b, k, h, v);
    if b == [] {
    } else if b[0].key == k {
      assert forall i :: 0 <= i < |r| ==> r[i].key == b[i].key;
    } else {
      var tail := b[1..];
      AssignDistinct(tail, k, h, v);
      var a := Assign(tail, k, h, v);
      assert r == [b[0]] + a;
      assert !HasKey(tail, b[0].key) by {
        assert forall m :: 0 <= m < |tail| ==> tail[m] == b[m + 1];
      }
      LookupSome(tail, b[0].key);
      LookupAssign(tail, k, h, v, b[0].key);
      LookupSome(a, b[0].key);
    }
  }

  /** An assignment of an entry that belongs to bucket `s` keeps the bucket well placed. */
  lemma {:induction false} AssignPlaced<K, V>(b: seq<Node<K, V>>, hash: K -> int, cap: nat, s: nat, k: K, v: V)
    requires cap > 0 && Placed(b, hash, cap, s) && hash(k) % cap == s
    ensures Placed(Assign(b, k, hash(k), v), hash, cap, s)
  {
    if b != [] && b[0].key != k {
      AssignPlaced(b[1..], hash, cap, s, k, v);
      assert Assign(b, k, hash(k), v) == [b[0]] + Assign(b[1..], k, hash(k), v);
    }
  }

  /** In a bucket without repeated keys, removal makes the key absent and leaves the others. */
  lemma {:induction false} LookupRemove<K, V>(b: seq<Node<K, V>>, k: K, k': K)
    requires Distinct(b)
    ensures Lookup(Remove(b, k), k') == if k' == k then None else Lookup(b, k')
  {
    if b != [] {
      if b[0].key == k {
        if k' == k {
          assert !HasKey(b[1..], k) by {
            assert forall m :: 0 <= m < |b| - 1 ==> b[1..][m] == b[m + 1];
          }
          LookupSome(b[1..], k);
        }
      } else {
        LookupRemove(b[1..], k, k');
      }
    }
  }

  /** A removal shrinks the bucket by one entry exactly when the key was present. */
  lemma {:induction false} RemoveLength<K, V>(b: seq<Node<K, V>>, k: K)
    ensures |Remove(b, k)| == |b| - (if Lookup(b, k).Some? then 1 else 0)
  {
    if b != [] && b[0].key != k {
      RemoveLength(b[1..], k);
    }
  }

  /** A removal keeps the bucket well placed and its keys distinct. */
  lemma {:induction false} RemoveKeepsShape<K, V>(b: seq<Node<K, V>>, hash: K -> int, cap: nat, s: nat, k: K)
    requires cap > 0 && Placed(b, hash, cap, s) && Distinct(b)
    ensures Placed(Remove(b, k), hash, cap, s) && Distinct(Remove(b, k))
  {
    if b != [] && b[0].key != k {
      var tail := b[1..];
      RemoveKeepsShape(tail, hash, cap, s, k);
      var r := Remove(tail, k);
      assert Remove(b, k) == [b[0]] + r;
      assert !HasKey(tail, b[0].key) by {
        assert forall m :: 0 <= m < |tail| ==> tail[m] == b[m + 1];
      }
      LookupSome(tail, b[0].key);
      LookupRemove(tail, k, b[0].key);
      LookupSome(r, b[0].key);
    }
  }

  // ---------------------------------------------------------------------------------------
  // The last entry with a key, for sequences of re-inserted entries
  // ---------------------------------------------------------------------------------------

  /** Some entry with the key exists exactly when the backward scan finds one. */
  lemma {:induction false} LastLookupSome<K, V>(xs: seq<Node<K, V>>, k: K)
    ensures LastLookup(xs, k).Some? <==> HasKey(xs, k)
  {
    if xs != [] {
      var init := xs[..|xs| - 1];
      LastLookupSome(init, k);
      if HasKey(init, k) {
        var i :| 0 <= i < |init| && init[i].key == k;
        assert xs[i].key == k;
      }
      if HasKey(xs, k) && xs[|xs| - 1].key != k {
        var i :| 0 <= i < |xs| && xs[i].key == k;
        assert init[i].key == k;
      }
    }
  }

  /** The last entry with the key in a concatenation is taken from the right part if it has one. */
  lemma {:induction false} LastLookupConcat<K, V>(xs: seq<Node<K, V>>, ys: seq<Node<K, V>>, k: K)
    ensures LastLookup(xs + ys, k) == if LastLookup(ys, k).Some? then LastLookup(ys, k) else LastLookup(xs, k)
  {
    if ys == [] {
      assert xs + ys == xs;
    } else {
      var init := ys[..|ys| - 1];
      assert (xs + ys)[..|xs + ys| - 1] == xs + init;
      LastLookupConcat(xs, init, k);
    }
  }

  /** Without repeated keys the first and the last entry with a key are the same entry. */
  lemma LastLookupDistinct<K, V>(b: seq<Node<K, V>>, k: K)
    requires Distinct(b)
    ensures LastLookup(b, k) == Lookup(b, k)
  {
    LookupSome(b, k);
    LastLookupSome(b, k);
    if HasKey(b, k) {
      var j :| 0 <= j < |b| && b[j].key == k;
      LookupFirst(b, k, j);
      LastLookupAt(b, k, j);
    }
  }

  /** In a sequence without repeated keys, the backward scan finds the one entry with the key. */
  lemma {:induction false} LastLookupAt<K, V>(xs: seq<Node<K, V>>, k: K, j: nat)
    requires Distinct(xs) && j < |xs| && xs[j].key == k
    ensures LastLookup(xs, k) == Some(xs[j].value)
  {
    if j < |xs| - 1 {
      var init := xs[..|xs| - 1];
      assert xs[|xs| - 1].key != k;
      LastLookupAt(init, k, j);
    }
  }

  /** The map left by assigning the entries of `xs` one after the other: later entries win. */
  ghost function MapOfEntries<K, V>(xs: seq<Node<K, V>>): map<K, V>
  {
    if xs == [] then map[]
    else
      var x := xs[|xs| - 1];
      MapOfEntries(xs[..|xs| - 1])[x.key := x.value]
  }

  /** That map holds exactly the keys of the entries, each with the value of its last entry. */
  lemma {:induction false} MapOfEntriesSpec<K, V>(xs: seq<Node<K, V>>)
    ensures forall k :: k in MapOfEntries(xs) <==> LastLookup(xs, k).Some?
    ensures forall k :: k in MapOfEntries(xs) ==> MapOfEntries(xs)[k] == LastLookup(xs, k).value
  {
    if xs != [] {
      MapOfEntriesSpec(xs[..|xs| - 1]);
    }
  }

  /** Without repeated keys the map has one key per entry. */
  lemma {:induction false} MapOfEntriesSize<K, V>(xs: seq<Node<K, V>>)
    requires Distinct(xs)
    ensures |MapOfEntries(xs)| == |xs|
  {
    if xs != [] {
      var init := xs[..|xs| - 1];
      var x := xs[|xs| - 1];
      assert Distinct(init);
      MapOfEntriesSize(init);
      MapOfEntriesSpec(init);
      assert !HasKey(init, x.key);
      LastLookupSome(init, x.key);
    }
  }
}
