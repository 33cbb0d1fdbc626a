/** The node record (`hash_tree_node`) stored once per key. */
module Records {
  import opened Common

  /** `key` and `value` are the stored pair, `hash` the hash of `key` cached
      when the record was stored, `childs` the ordered child slots, `parent`
      the parent slot and `next` the successor in the same hash bucket. */
  datatype Node<K, T> = Node(
    key: K,
    value: T,
    hash: nat,
    childs: seq<nat>,
    parent: Option<nat>,
    next: Option<nat>)

  /** A freshly stored record: no children, no parent, end of its chain. */
  function Fresh<K, T>(key: K, value: T, hash: nat): Node<K, T>
  {
    Node(key, value, hash, [], None, None)
  }

  /** The part of a record the tree API sees: everything but the chain link. */
  function Strip<K, T>(n: Node<K, T>): Node<K, T>
  {
    n.(next := None)
  }

  /** Two records agree on everything but their chain link. */
  ghost predicate Alike<K, T>(a: Node<K, T>, b: Node<K, T>)
  {
    a.key == b.key && a.value == b.value && a.hash == b.hash && a.childs == b.childs && a.parent == b.parent
  }

  /** Two stores hold the same slots, and their records agree on everything
      but chain links: the tree-visible contents are the same. */
  ghost predicate Agree<K, T>(a: map<nat, Node<K, T>>, b: map<nat, Node<K, T>>)
  {
    a.Keys == b.Keys && forall y :: y in a ==> Alike(a[y], b[y])
  }

  /** Two stores hold the same records with the same keys, values, cached
      hashes and chain links: at most the tree links differ. */
  ghost predicate SameRecords<K, T>(nodes: map<nat, Node<K, T>>, nodes': map<nat, Node<K, T>>)
  {
    && nodes'.Keys == nodes.Keys
    && forall y :: y in nodes ==>
         && nodes'[y].key == nodes[y].key && nodes'[y].value == nodes[y].value
         && nodes'[y].hash == nodes[y].hash && nodes'[y].next == nodes[y].next
  }
}
