/** The entry record stored in a bucket (class `Node` of app/main.py). */
module Nodes {

  /** An entry: its key, the hash computed once when the entry was created, and its value. */
  datatype Node<K, V> = Node(key: K, hash: int, value: V)

  /** `Node.__eq__`: the cached hashes agree and the keys are equal. */
  predicate NodeEquals<K(==), V>(a: Node<K, V>, b: Node<K, V>)
  {
    a.hash == b.hash && a.key == b.key
  }

  /** An entry is created by computing the hash of its key, so it carries its own key's hash. */
  function NewNode<K, V>(hash: K -> int, key: K, value: V): (n: Node<K, V>)
    ensures n.hash == hash(n.key)
  {
    Node(key, hash(key), value)
  }

  /** When both entries carry the hash of their own key, entry equality is key equality:
      the hash test is only a cheap filter in front of the key test. */
  lemma NodeEqualsIsKeyEquality<K, V>(hash: K -> int, a: Node<K, V>, b: Node<K, V>)
    requires a.hash == hash(a.key) && b.hash == hash(b.key)
    ensures NodeEquals(a, b) <==> a.key == b.key
  {
  }

  /** A new entry equals, under `__eq__`, exactly those entries that carry their own key's hash
      and hold the same key; its value plays no part. */
  lemma NewNodeEquals<K, V>(hash: K -> int, key: K, value: V, m: Node<K, V>)
    requires m.hash == hash(m.key)
    ensures NodeEquals(NewNode(hash, key, value), m) <==> m.key == key
  {
    NodeEqualsIsKeyEquality(hash, NewNode(hash, key, value), m);
  }
}
