/** The hash-tree container: a tree of key/value records, each also reachable
    by key through a separate-chaining hash index, with a breadth-first
    iterator over the tree. */
module HashTreeMap {
  import opened Common
  import opened Records
  import opened HashIndex
  import opened TreeShape
  import opened BreadthFirst

  /** How an operation that can be refused ended. */
  datatype Status = Done | NotFound | WouldCycle | BadPosition

  /** The load above which `_insert` doubles the table: `size / table_size > 0.9`,
      in integers. */
  predicate OverMaxLoad(size: nat, tableSize: nat)
  {
    10 * size > 9 * tableSize
  }

  /** The load below which `erase` halves the table: `size / table_size < 0.2`,
      in integers. */
  predicate UnderMinLoad(size: nat, tableSize: nat)
  {
    5 * size < tableSize
  }

  /** A store that agrees with a well-formed one on everything but chain
      links is as well formed, and caches the same hashes. */
  lemma SameView<K, T>(nodes: map<nat, Node<K, T>>, nodes': map<nat, Node<K, T>>, hasher: K -> nat,
                       head: Option<nat>, rank: map<nat, nat>)
    requires TreeOk(nodes, head, rank) && HashesCached(nodes, hasher) && Agree(nodes', nodes)
    ensures TreeOk(nodes', head, rank) && HashesCached(nodes', hasher)
  {
    TreeFrame(nodes, nodes', head, rank);
    forall y | y in nodes' ensures nodes'[y].hash == hasher(nodes'[y].key) {
      assert nodes'[y].hash == nodes[y].hash && nodes'[y].key == nodes[y].key;
    }
  }

  /** `_insert`'s index update: a record stored at a fresh slot and appended
      to its bucket's chain leaves every live record indexed. */
  lemma StoreIndexed<K, T>(nodes: map<nat, Node<K, T>>, table: seq<Option<nat>>, chains: seq<seq<nat>>,
                           id: nat, n: Node<K, T>,
                           nodes': map<nat, Node<K, T>>, table': seq<Option<nat>>, chains': seq<seq<nat>>)
    requires Indexed(nodes, table, chains) && id !in nodes
    requires Linked(nodes', table', chains') && |table'| == |table|
    requires var b := n.hash % |table|; chains' == chains[b := chains[b] + [id]]
    requires nodes'.Keys == nodes.Keys + {id}
    requires forall y :: y in nodes ==> nodes'[y].hash == nodes[y].hash
    requires nodes'[id].hash == n.hash
    ensures Indexed(nodes', table', chains')
  {
  }

  /** The body of `erase` for a record `x` other than the head: detach `x`
      from its parent, then delete its subtree breadth first, each step
      expanding the front of the queue into its children and deleting it,
      unlinking it from its bucket's chain. */
  method Cascade<K, T>(tree: map<nat, Node<K, T>>, table: seq<Option<nat>>, ghost chains: seq<seq<nat>>,
                       ghost head: Option<nat>, ghost rank: map<nat, nat>, x: nat)
    returns (nodes': map<nat, Node<K, T>>, table': seq<Option<nat>>, ghost chains': seq<seq<nat>>)
    requires TreeOk(tree, head, rank) && x in tree && head != Some(x)
    requires Indexed(Detach(tree, x), table, chains)
    ensures Indexed(nodes', table', chains') && |table'| == |table|
    ensures nodes'.Keys == tree.Keys - Subtree(tree, rank, x)
    ensures forall y :: y in nodes' ==> Alike(nodes'[y], Detach(tree, x)[y])
  {
    ParentOutside(tree, head, rank, x);
    ghost var q := tree[x].parent.value;
    CascadeStart(tree, head, rank, x);
    var nodes := Detach(tree, x);
    DetachFields(tree, x);
    nodes', table', chains' := nodes, table, chains;
    var queue := [x];
    while queue != []
      invariant CascadeInv(tree, rank, x, nodes'.Keys, queue)
      invariant Indexed(nodes', table', chains') && |table'| == |table|
      invariant forall y :: y in nodes' ==> y in nodes && Alike(nodes'[y], nodes[y])
      decreases nodes'.Keys
    {
      var f := queue[0];
      assert QueuedOk(tree, rank, x, nodes'.Keys, f);
      assert f != q by {
        assert f in Subtree(tree, rank, x);
      }
      assert nodes'[f].childs == tree[f].childs by {
        assert nodes'[f].childs == nodes[f].childs;
      }
      CascadeStep(tree, head, rank, x, nodes'.Keys, queue);
      queue := queue[1..] + nodes'[f].childs;
      nodes', table', chains' := Unlink(nodes', table', chains', f);
    }
    CascadeDone(tree, head, rank, x, nodes'.Keys);
  }

  /** The index half of the container's invariant, on values: the table
      never shrinks below two buckets, slots are below the slot counter,
      every record caches its own key's hash and sits in its bucket's chain,
      and the load stays at most nine tenths plus one record. */
  ghost predicate IndexWf<K, T>(nodes: map<nat, Node<K, T>>, table: seq<Option<nat>>, nextSlot: nat,
                                hasher: K -> nat, chains: seq<seq<nat>>)
  {
    && |table| >= 2
    && (forall id :: id in nodes ==> id < nextSlot)
    && HashesCached(nodes, hasher)
    && Indexed(nodes, table, chains)
    && 10 * (|nodes| - 1) <= 9 * |table|
  }

  /** The load test at the top of `_insert`, on values: when the load before
      the insertion is over nine tenths, rebuild the index over twice as many
      buckets.  Either way one more record then fits under the bound. */
  method Grow<K, T>(nodes: map<nat, Node<K, T>>, table: seq<Option<nat>>, ghost chains: seq<seq<nat>>,
                    nextSlot: nat, hasher: K -> nat)
    returns (nodes': map<nat, Node<K, T>>, table': seq<Option<nat>>, ghost chains': seq<seq<nat>>)
    requires IndexWf(nodes, table, nextSlot, hasher, chains)
    ensures |table'| == if OverMaxLoad(|nodes|, |table|) then 2 * |table| else |table|
    ensures Indexed(nodes', table', chains') && HashesCached(nodes', hasher)
    ensures (forall id :: id in nodes' ==> id < nextSlot) && 10 * |nodes'| <= 9 * |table'|
    ensures Agree(nodes', nodes)
  {
    nodes', table', chains' := nodes, table, chains;
    if OverMaxLoad(|nodes|, |table|) {
      nodes', table', chains' := Rebuild(nodes, nextSlot, 2 * |table|);
      assert |nodes'| == |nodes| by {
        assert nodes'.Keys == nodes.Keys;
      }
    }
  }

  /** The rest of `_insert`, on values: store the record at slot `nextSlot`
      and append it to its bucket's chain. */
  method Put<K, T>(nodes: map<nat, Node<K, T>>, table: seq<Option<nat>>, ghost chains: seq<seq<nat>>,
                   nextSlot: nat, hasher: K -> nat, key: K, value: T)
    returns (nodes': map<nat, Node<K, T>>, table': seq<Option<nat>>, ghost chains': seq<seq<nat>>)
    requires |table| >= 2 && Indexed(nodes, table, chains) && HashesCached(nodes, hasher)
    requires (forall id :: id in nodes ==> id < nextSlot) && 10 * |nodes| <= 9 * |table|
    ensures IndexWf(nodes', table', nextSlot + 1, hasher, chains') && |table'| == |table|
    ensures StoredAt(nodes, nodes', nextSlot, Fresh(key, value, hasher(key)))
    ensures chains' == chains[hasher(key) % |table| := chains[hasher(key) % |table|] + [nextSlot]]
  {
    var h := hasher(key);
    var n := Fresh(key, value, h);
    AddRecord(nodes, table, chains, nextSlot, n);
    nodes', table', chains' := Append(nodes[nextSlot := n], table, chains, h % |table|, nextSlot);
    PutWf(nodes, table, chains, nextSlot, hasher, n, nodes', table', chains');
  }

  /** The store `nodes'` holds the records of `nodes`, chain links aside, plus
      record `n` at the fresh slot `id`. */
  ghost predicate StoredAt<K, T>(nodes: map<nat, Node<K, T>>, nodes': map<nat, Node<K, T>>, id: nat, n: Node<K, T>)
  {
    && id !in nodes && nodes'.Keys == nodes.Keys + {id}
    && (forall y :: y in nodes ==> Alike(nodes'[y], nodes[y]))
    && Alike(nodes'[id], n)
  }

  /** Storing at a fresh slot grows the store by exactly one record. */
  lemma StoredSize<K, T>(nodes: map<nat, Node<K, T>>, nodes': map<nat, Node<K, T>>, id: nat, n: Node<K, T>)
    requires StoredAt(nodes, nodes', id, n)
    ensures |nodes'| == |nodes| + 1
  {
    assert nodes'.Keys == nodes.Keys + {id};
  }

  /** The index invariant after `Put`, from what `Append` promises. */
  lemma PutWf<K, T>(nodes: map<nat, Node<K, T>>, table: seq<Option<nat>>, chains: seq<seq<nat>>,
                    nextSlot: nat, hasher: K -> nat, n: Node<K, T>,
                    nodes': map<nat, Node<K, T>>, table': seq<Option<nat>>, chains': seq<seq<nat>>)
    requires |table| >= 2 && Indexed(nodes, table, chains) && HashesCached(nodes, hasher)
    requires (forall id :: id in nodes ==> id < nextSlot) && 10 * |nodes| <= 9 * |table|
    requires n.hash == hasher(n.key)
    requires Linked(nodes', table', chains') && |table'| == |table|
    requires var b := n.hash % |table|; chains' == chains[b := chains[b] + [nextSlot]]
    requires nodes'.Keys == (nodes[nextSlot := n]).Keys
    requires forall y :: y in nodes[nextSlot := n] ==> Alike(nodes'[y], nodes[nextSlot := n][y])
    ensures IndexWf(nodes', table', nextSlot + 1, hasher, chains')
    ensures StoredAt(nodes, nodes', nextSlot, n)
  {
    PutHashes(nodes, table, chains, nextSlot, n, nodes', table', chains');
    PutRecords(nodes, nextSlot, hasher, n, nodes');
    StoreIndexed(nodes, table, chains, nextSlot, n, nodes', table', chains');
  }

  /** Storing one record at the fresh slot `nextSlot` keeps slots below the
      counter, every cached hash right and the load bound. */
  lemma PutRecords<K, T>(nodes: map<nat, Node<K, T>>, nextSlot: nat, hasher: K -> nat, n: Node<K, T>,
                         nodes': map<nat, Node<K, T>>)
    requires HashesCached(nodes, hasher) && forall id :: id in nodes ==> id < nextSlot
    requires n.hash == hasher(n.key) && StoredAt(nodes, nodes', nextSlot, n)
    ensures HashesCached(nodes', hasher) && (forall id :: id in nodes' ==> id < nextSlot + 1)
    ensures |nodes'| == |nodes| + 1
  {
    StoredSize(nodes, nodes', nextSlot, n);
  }

  /** What `StoreIndexed` needs about the stored record's cached hash. */
  lemma PutHashes<K, T>(nodes: map<nat, Node<K, T>>, table: seq<Option<nat>>, chains: seq<seq<nat>>,
                        nextSlot: nat, n: Node<K, T>,
                        nodes': map<nat, Node<K, T>>, table': seq<Option<nat>>, chains': seq<seq<nat>>)
    requires nextSlot !in nodes
    requires nodes'.Keys == (nodes[nextSlot := n]).Keys
    requires forall y :: y in nodes[nextSlot := n] ==> Alike(nodes'[y], nodes[nextSlot := n][y])
    ensures nodes'.Keys == nodes.Keys + {nextSlot}
    ensures forall y :: y in nodes ==> nodes'[y].hash == nodes[y].hash
    ensures nodes'[nextSlot].hash == n.hash
    ensures StoredAt(nodes, nodes', nextSlot, n)
  {
    assert Alike(nodes'[nextSlot], n);
  }

  /** `_insert` on values: grow the table if needed, then store the record at
      slot `nextSlot`. */
  method StoreRecord<K, T>(nodes: map<nat, Node<K, T>>, table: seq<Option<nat>>, ghost chains: seq<seq<nat>>,
                           nextSlot: nat, hasher: K -> nat, key: K, value: T)
    returns (nodes': map<nat, Node<K, T>>, table': seq<Option<nat>>, ghost chains': seq<seq<nat>>)
    requires IndexWf(nodes, table, nextSlot, hasher, chains)
    ensures IndexWf(nodes', table', nextSlot + 1, hasher, chains')
    ensures StoredAt(nodes, nodes', nextSlot, Fresh(key, value, hasher(key)))
    ensures |table'| == if OverMaxLoad(|nodes|, |table|) then 2 * |table| else |table|
  {
    var nodes0, table0, chains0 := Grow(nodes, table, chains, nextSlot, hasher);
    nodes', table', chains' := Put(nodes0, table0, chains0, nextSlot, hasher, key, value);
    StoredAfter(nodes, nodes0, nodes', nextSlot, Fresh(key, value, hasher(key)));
  }

  /** Storing after a rebuild stores on the records from before it. */
  lemma StoredAfter<K, T>(nodes: map<nat, Node<K, T>>, nodes0: map<nat, Node<K, T>>, nodes': map<nat, Node<K, T>>,
                          id: nat, n: Node<K, T>)
    requires Agree(nodes0, nodes)
    requires StoredAt(nodes0, nodes', id, n)
    ensures StoredAt(nodes, nodes', id, n)
  {
  }

  /** The tree half of both `insert` forms, on values: the record just stored
      at `id` becomes the last child of `p`; the index is untouched. */
  lemma AttachWf<K, T>(before: map<nat, Node<K, T>>, nodes: map<nat, Node<K, T>>, table: seq<Option<nat>>,
                       nextSlot: nat, hasher: K -> nat, chains: seq<seq<nat>>, head: Option<nat>, rank: map<nat, nat>,
                       p: nat, id: nat, n: Node<K, T>)
    requires IndexWf(nodes, table, nextSlot, hasher, chains) && TreeOk(before, head, rank)
    requires p in before && n.childs == [] && n.parent == None && StoredAt(before, nodes, id, n)
    ensures IndexWf(Link(nodes, p, id), table, nextSlot, hasher, chains)
    ensures TreeOk(Link(nodes, p, id), head, rank[id := rank[p] + 1])
    ensures Agree(Link(nodes, p, id), Adopt(before, p, id, n)) && SameRecords(nodes, Link(nodes, p, id))
  {
    AttachTree(before, nodes, head, rank, p, id, n);
    LinkFields(nodes, p, id);
    IndexWfFrame(nodes, Link(nodes, p, id), table, nextSlot, hasher, chains);
  }

  /** The links `insert` under a parent adds, on values: the record just
      stored at `id` becomes the last child of `p`. */
  method LinkChild<K, T>(ghost before: map<nat, Node<K, T>>, nodes: map<nat, Node<K, T>>, ghost table: seq<Option<nat>>,
                         ghost nextSlot: nat, ghost hasher: K -> nat, ghost chains: seq<seq<nat>>,
                         ghost head: Option<nat>, ghost rank: map<nat, nat>, p: nat, id: nat, ghost n: Node<K, T>)
    returns (nodes': map<nat, Node<K, T>>, ghost rank': map<nat, nat>)
    requires IndexWf(nodes, table, nextSlot, hasher, chains) && TreeOk(before, head, rank)
    requires p in before && n.childs == [] && n.parent == None && StoredAt(before, nodes, id, n)
    ensures IndexWf(nodes', table, nextSlot, hasher, chains) && TreeOk(nodes', head, rank')
    ensures Agree(nodes', Adopt(before, p, id, n)) && SameRecords(nodes, nodes')
    ensures |nodes'| == |nodes|
  {
    AttachWf(before, nodes, table, nextSlot, hasher, chains, head, rank, p, id, n);
    nodes' := nodes[p := nodes[p].(childs := nodes[p].childs + [id])][id := nodes[id].(parent := Some(p))];
    rank' := rank[id := rank[p] + 1];
  }

  /** The tree part of `AttachWf`. */
  lemma AttachTree<K, T>(before: map<nat, Node<K, T>>, nodes: map<nat, Node<K, T>>, head: Option<nat>,
                         rank: map<nat, nat>, p: nat, id: nat, n: Node<K, T>)
    requires TreeOk(before, head, rank)
    requires p in before && n.childs == [] && n.parent == None && StoredAt(before, nodes, id, n)
    ensures TreeOk(Link(nodes, p, id), head, rank[id := rank[p] + 1])
    ensures Agree(Link(nodes, p, id), Adopt(before, p, id, n))
  {
    AdoptView(before, nodes, p, id, n);
    AttachKeepsTree(before, head, rank, p, id, n);
    TreeFrame(Adopt(before, p, id, n), Link(nodes, p, id), head, rank[id := rank[p] + 1]);
  }

  /** Linking touches tree links only. */
  lemma LinkFields<K, T>(nodes: map<nat, Node<K, T>>, p: nat, id: nat)
    requires p in nodes && id in nodes
    ensures SameRecords(nodes, Link(nodes, p, id))
  {
  }

  /** Changing tree links only keeps the index sound. */
  lemma IndexWfFrame<K, T>(nodes: map<nat, Node<K, T>>, nodes': map<nat, Node<K, T>>, table: seq<Option<nat>>,
                           nextSlot: nat, hasher: K -> nat, chains: seq<seq<nat>>)
    requires IndexWf(nodes, table, nextSlot, hasher, chains) && SameRecords(nodes, nodes')
    ensures IndexWf(nodes', table, nextSlot, hasher, chains)
  {
    IndexFrame(nodes, nodes', table, chains);
    assert |nodes'| == |nodes| by {
      assert nodes'.Keys == nodes.Keys;
    }
  }

  /** `remove_child` keeps the index sound: only a child list changes. */
  lemma DetachWf<K, T>(nodes: map<nat, Node<K, T>>, table: seq<Option<nat>>, nextSlot: nat,
                       hasher: K -> nat, chains: seq<seq<nat>>, x: nat)
    requires IndexWf(nodes, table, nextSlot, hasher, chains)
    ensures IndexWf(Detach(nodes, x), table, nextSlot, hasher, chains)
  {
    DetachFields(nodes, x);
    IndexWfFrame(nodes, Detach(nodes, x), table, nextSlot, hasher, chains);
  }

  /** `_set_parent` keeps the index sound and, for a parent outside the
      subtree of `x`, the tree. */
  lemma ReparentWf<K, T>(nodes: map<nat, Node<K, T>>, table: seq<Option<nat>>, nextSlot: nat,
                         hasher: K -> nat, chains: seq<seq<nat>>, head: Option<nat>, rank: map<nat, nat>,
                         x: nat, p: nat, pos: nat)
    requires IndexWf(nodes, table, nextSlot, hasher, chains) && TreeOk(nodes, head, rank)
    requires x in nodes && p in nodes && !Descends(nodes, rank, p, x)
    requires pos <= |Detach(nodes, x)[p].childs|
    ensures IndexWf(Reparent(nodes, x, p, pos), table, nextSlot, hasher, chains)
    ensures TreeOk(Reparent(nodes, x, p, pos), head, Lift(nodes, rank, x, p))
  {
    ReparentKeepsTree(nodes, head, rank, x, p, pos);
    ReparentFields(nodes, x, p, pos);
    IndexWfFrame(nodes, Reparent(nodes, x, p, pos), table, nextSlot, hasher, chains);
  }

  /** `erase` of a record `x` other than the head, on values: detach `x`
      from its parent and delete its subtree breadth first. */
  method EraseBelow<K, T>(nodes: map<nat, Node<K, T>>, table: seq<Option<nat>>, ghost chains: seq<seq<nat>>,
                          nextSlot: nat, hasher: K -> nat, ghost head: Option<nat>, ghost rank: map<nat, nat>, x: nat)
    returns (nodes': map<nat, Node<K, T>>, table': seq<Option<nat>>, ghost chains': seq<seq<nat>>)
    requires IndexWf(nodes, table, nextSlot, hasher, chains) && TreeOk(nodes, head, rank)
    requires x in nodes && head != Some(x)
    ensures IndexWf(nodes', table', nextSlot, hasher, chains') && |table'| == |table|
    ensures TreeOk(nodes', head, rank - Subtree(nodes, rank, x))
    ensures Agree(nodes', Detach(nodes, x) - Subtree(nodes, rank, x))
    ensures |nodes'| == |nodes| - |Subtree(nodes, rank, x)| && |nodes'| >= 1
  {
    DetachWf(nodes, table, nextSlot, hasher, chains, x);
    nodes', table', chains' := Cascade(nodes, table, chains, head, rank, x);
    ErasedValid(nodes, hasher, head, rank, nodes', x);
    ErasedIndexWf(nodes, table, nextSlot, hasher, chains, nodes', table', chains');
  }

  /** Deleting records and unlinking them from their chains keeps the index
      sound. */
  lemma ErasedIndexWf<K, T>(nodes: map<nat, Node<K, T>>, table: seq<Option<nat>>, nextSlot: nat, hasher: K -> nat,
                            chains: seq<seq<nat>>, nodes': map<nat, Node<K, T>>, table': seq<Option<nat>>,
                            chains': seq<seq<nat>>)
    requires IndexWf(nodes, table, nextSlot, hasher, chains)
    requires Indexed(nodes', table', chains') && |table'| == |table| && HashesCached(nodes', hasher)
    requires nodes'.Keys <= nodes.Keys
    ensures IndexWf(nodes', table', nextSlot, hasher, chains')
  {
    assert |nodes.Keys - nodes'.Keys| == |nodes.Keys| - |nodes'.Keys|;
  }

  /** What deleting the subtree of `x` leaves: one rooted tree, hashes still
      cached, and a size smaller by the subtree's size. */
  lemma ErasedValid<K, T>(tree: map<nat, Node<K, T>>, hasher: K -> nat, head: Option<nat>, rank: map<nat, nat>,
                          nodes': map<nat, Node<K, T>>, x: nat)
    requires TreeOk(tree, head, rank) && HashesCached(tree, hasher) && x in tree && head != Some(x)
    requires nodes'.Keys == tree.Keys - Subtree(tree, rank, x)
    requires forall y :: y in nodes' ==> Alike(nodes'[y], Detach(tree, x)[y])
    ensures TreeOk(nodes', head, rank - Subtree(tree, rank, x)) && HashesCached(nodes', hasher)
    ensures Agree(nodes', Detach(tree, x) - Subtree(tree, rank, x))
    ensures |nodes'| == |tree| - |Subtree(tree, rank, x)| && |nodes'| >= 1
  {
    var gone := Subtree(tree, rank, x);
    var pruned := Detach(tree, x) - gone;
    PruneKeepsTree(tree, head, rank, x);
    assert gone <= tree.Keys;
    assert tree.Keys == nodes'.Keys + gone;
    assert head.Some? && head.value in nodes';
    forall y | y in pruned ensures pruned[y].hash == tree[y].hash && pruned[y].key == tree[y].key {
    }
    SameView(pruned, nodes', hasher, head, rank - gone);
  }

  /** After a record is stored under a key no earlier record held, a
      record holding that key is the new one. */
  lemma OnlyNewHolds<K, T>(before: map<nat, Node<K, T>>, nodes: map<nat, Node<K, T>>, slot: nat, key: K, id: nat)
    requires forall id :: id in before ==> before[id].key != key
    requires nodes.Keys == before.Keys + {slot}
    requires forall y :: y in before ==> nodes[y].key == before[y].key && nodes[y].value == before[y].value
    requires id in nodes && nodes[id].key == key
    ensures id == slot
  {
  }

  class HashTree<K(==,!new), T(!new)> {
    /** The slot store (`_nodes`): live slot identifiers and their records. */
    var nodes: map<nat, Node<K, T>>
    /** The bucket table (`_table`): the first slot of each bucket's chain. */
    var table: seq<Option<nat>>
    /** The slot of the root record (`_head_index`). */
    var head: Option<nat>
    /** The slot the next stored record gets; slots are never reused. */
    var nextSlot: nat
    /** The key hash function (`_hasher`). */
    const hasher: K -> nat
    /** The slots of each bucket's chain, in link order. */
    ghost var chains: seq<seq<nat>>
    /** A numbering in which every parent ranks below its children. */
    ghost var rank: map<nat, nat>

    /** The index half of the invariant. */
    ghost predicate IndexOk()
      reads this
    {
      IndexWf(nodes, table, nextSlot, hasher, chains)
    }

    /** The container's invariant: a sound index over records that form one
        rooted tree. */
    ghost predicate Valid()
      reads this
    {
      IndexOk() && TreeOk(nodes, head, rank)
    }

    /** The slot `index(key)` answers with: the first record in the key's
        bucket chain that holds the key. */
    ghost function Find(key: K): Option<nat>
      reads this
      requires Valid()
    {
      Lookup(nodes, table, chains, hasher, key)
    }

    /** Installs a whole new state: the operations that rebuild the index
        or the tree compute the new fields as values and end here. */
    method Commit(nodes': map<nat, Node<K, T>>, table': seq<Option<nat>>, ghost chains': seq<seq<nat>>,
                  nextSlot': nat, head': Option<nat>, ghost rank': map<nat, nat>)
      modifies this
      ensures nodes == nodes' && table == table' && chains == chains' && nextSlot == nextSlot'
      ensures head == head' && rank == rank'
    {
      nodes, table, chains, nextSlot, head, rank := nodes', table', chains', nextSlot', head', rank';
    }

    /** An empty container with a table of two empty buckets. */
    constructor (hasher: K -> nat)
      ensures Valid() && this.hasher == hasher
      ensures nodes == map[] && head == None && |table| == 2
    {
      this.hasher := hasher;
      nodes := map[];
      table := [None, None];
      head := None;
      nextSlot := 0;
      chains := [[], []];
      rank := map[];
    }

    /** `index(key)`: walk the chain of the key's bucket, comparing the cached
        hash and then the key, up to the last member. */
    method Index(key: K) returns (r: Option<nat>)
      requires Valid()
      ensures r == Find(key)
      ensures r.None? <==> forall id :: id in nodes ==> nodes[id].key != key
      ensures r.Some? ==> r.value in nodes && nodes[r.value].key == key && nodes[r.value].hash == hasher(key)
    {
      LookupMeaning(nodes, table, chains, hasher, key);
      r := IndexOf(nodes, table, chains, hasher, key);
    }

    /** `rehash(n)`: a table of `n` buckets over the same records, relinked in
        slot order; no key, value, parent or child list changes. */
    method Rehash(n: nat)
      requires Valid() && n >= 2 && 10 * (|nodes| - 1) <= 9 * n
      modifies this
      ensures Valid() && |table| == n && Ascending(chains)
      ensures Agree(nodes, old(nodes))
      ensures head == old(head) && rank == old(rank) && nextSlot == old(nextSlot)
    {
      var nodes', table', chains' := Rebuild(nodes, nextSlot, n);
      SameView(nodes, nodes', hasher, head, rank);
      Commit(nodes', table', chains', nextSlot, head, rank);
    }

    /** `_insert`: double the table when the load before the insertion is
        over nine tenths, then store the record at a fresh slot and append
        it to its bucket's chain.  The record is not in the tree yet. */
    method Store(key: K, value: T) returns (id: nat)
      requires Valid()
      modifies this
      ensures IndexOk() && head == old(head) && rank == old(rank)
      ensures id == old(nextSlot) && nextSlot == id + 1 && id !in old(nodes)
      ensures StoredAt(old(nodes), nodes, id, Fresh(key, value, hasher(key))) && |nodes| == old(|nodes|) + 1
      ensures |table| == if OverMaxLoad(old(|nodes|), old(|table|)) then 2 * old(|table|) else old(|table|)
    {
      id := nextSlot;
      var nodes', table', chains' := StoreRecord(nodes, table, chains, nextSlot, hasher, key, value);
      StoredSize(nodes, nodes', id, Fresh(key, value, hasher(key)));
      Commit(nodes', table', chains', nextSlot + 1, head, rank);
    }

    /** The tree half of both `insert` forms: the record just stored at `id`
        becomes the last child of `p`. */
    method Attach(p: nat, id: nat, ghost before: map<nat, Node<K, T>>, ghost n: Node<K, T>)
      requires IndexOk() && TreeOk(before, head, rank)
      requires p in before && n.childs == [] && n.parent == None && StoredAt(before, nodes, id, n)
      modifies this
      ensures Valid() && Agree(nodes, Adopt(before, p, id, n)) && SameRecords(old(nodes), nodes)
      ensures head == old(head) && nextSlot == old(nextSlot) && table == old(table) && |nodes| == old(|nodes|)
    {
      var nodes', rank' := LinkChild(before, nodes, table, nextSlot, hasher, chains, head, rank, p, id, n);
      Commit(nodes', table, chains, nextSlot, head, rank');
    }

    /** `insert(key, value)`: the first record becomes the head; any later
        one becomes the last child of the head.  Either way the size grows
        by one and a lookup of the key succeeds. */
    method Insert(key: K, value: T)
      requires Valid()
      modifies this
      ensures Valid()
      ensures old(head).None? ==>
                head == Some(old(nextSlot)) && Agree(nodes, map[old(nextSlot) := Fresh(key, value, hasher(key))])
      ensures old(head).Some? ==>
                head == old(head)
                && Agree(nodes, Adopt(old(nodes), old(head).value, old(nextSlot), Fresh(key, value, hasher(key))))
      ensures nodes.Keys == old(nodes).Keys + {old(nextSlot)} && old(nextSlot) !in old(nodes)
      ensures |nodes| == |old(nodes)| + 1
      ensures forall y :: y in old(nodes) ==> nodes[y].key == old(nodes)[y].key && nodes[y].value == old(nodes)[y].value
      ensures nodes[old(nextSlot)].key == key && nodes[old(nextSlot)].value == value
      ensures Find(key).Some?
      ensures (forall y :: y in old(nodes) ==> old(nodes)[y].key != key) ==> Find(key) == Some(old(nextSlot))
      ensures |table| == if OverMaxLoad(old(|nodes|), old(|table|)) then 2 * old(|table|) else old(|table|)
    {
      ghost var before := nodes;
      var n := Fresh(key, value, hasher(key));
      var id := Store(key, value);
      if head.None? {
        PlantKeepsTree(id, n);
        head := Some(id);
        rank := map[id := 0];
        assert Agree(nodes, map[id := n]);
        TreeFrame(map[id := n], nodes, head, rank);
      } else {
        Attach(head.value, id, before, n);
      }
      LookupMeaning(nodes, table, chains, hasher, key);
      if forall y :: y in before ==> before[y].key != key {
        OnlyNewHolds(before, nodes, id, key, Find(key).value);
      }
    }

    /** `insert(key, value, parent)`: the new record becomes the last child
        of the record `parent` resolves to; an unknown parent is refused and
        nothing changes. */
    method InsertUnder(key: K, value: T, parent: K) returns (s: Status)
      requires Valid()
      modifies this
      ensures Valid() && (s == Done || s == NotFound)
      ensures s == NotFound <==> old(Find(parent)).None?
      ensures s == NotFound ==> nodes == old(nodes) && head == old(head) && table == old(table)
      ensures s == Done ==>
                && head == old(head)
                && Agree(nodes, Adopt(old(nodes), old(Find(parent)).value, old(nextSlot),
                                             Fresh(key, value, hasher(key))))
                && |nodes| == |old(nodes)| + 1
                && |table| == (if OverMaxLoad(old(|nodes|), old(|table|)) then 2 * old(|table|) else old(|table|))
                && Find(key).Some?
      ensures s == Done && (forall y :: y in old(nodes) ==> old(nodes)[y].key != key) ==> Find(key) == Some(old(nextSlot))
    {
      var p := Index(parent);
      if p.None? {
        return NotFound;
      }
      ghost var before := nodes;
      var n := Fresh(key, value, hasher(key));
      var id := Store(key, value);
      Attach(p.value, id, before, n);
      LookupMeaning(nodes, table, chains, hasher, key);
      assert nodes[id].key == key;
      if forall y :: y in before ==> before[y].key != key {
        OnlyNewHolds(before, nodes, id, key, Find(key).value);
      }
      s := Done;
    }

    /** `operator[]`: the value stored under `key`, or, when no record holds
        the key, `dflt` after inserting it under the head. */
    method Upsert(key: K, dflt: T) returns (v: T)
      requires Valid()
      modifies this
      ensures Valid()
      ensures old(Find(key)).Some? ==>
                && nodes == old(nodes) && head == old(head) && table == old(table)
                && v == nodes[old(Find(key)).value].value
      ensures old(Find(key)).None? ==>
                && v == dflt && Find(key) == Some(old(nextSlot))
                && |nodes| == |old(nodes)| + 1
                && |table| == (if OverMaxLoad(old(|nodes|), old(|table|)) then 2 * old(|table|) else old(|table|))
      ensures old(Find(key)).None? && old(head).None? ==>
                head == Some(old(nextSlot)) && Agree(nodes, map[old(nextSlot) := Fresh(key, dflt, hasher(key))])
      ensures old(Find(key)).None? && old(head).Some? ==>
                && head == old(head)
                && Agree(nodes, Adopt(old(nodes), old(head).value, old(nextSlot), Fresh(key, dflt, hasher(key))))
    {
      var r := Index(key);
      if r.Some? {
        return nodes[r.value].value;
      }
      Insert(key, dflt);
      r := Index(key);
      v := nodes[r.value].value;
    }

    /** `at(key)`: the value of the record `index(key)` finds, or nothing for
        a key no record holds. */
    method At(key: K) returns (r: Option<T>)
      requires Valid()
      ensures r.None? <==> forall id :: id in nodes ==> nodes[id].key != key
      ensures r.Some? ==> Find(key).Some? && r.value == nodes[Find(key).value].value
    {
      var id := Index(key);
      if id.None? {
        return None;
      }
      r := Some(nodes[id.value].value);
    }

    /** `contains(key)`: whether a lookup of `key` succeeds. */
    method Contains(key: K) returns (b: bool)
      requires Valid()
      ensures b <==> exists id :: id in nodes && nodes[id].key == key
    {
      var id := Index(key);
      b := id.Some?;
    }

    /** `size()`: the number of live records; zero exactly when there is no
        head. */
    method Size() returns (n: nat)
      requires Valid()
      ensures n == |nodes| && (n == 0 <==> head.None?)
    {
      n := |nodes|;
    }

    /** `table_size()`: the number of buckets, never below two. */
    method TableSize() returns (n: nat)
      requires Valid()
      ensures n == |table| && n >= 2
    {
      n := |table|;
    }

    /** `clear()`: no records, no head, and a table of two empty buckets. */
    method Clear()
      modifies this
      ensures Valid() && nodes == map[] && head == None && |table| == 2
      ensures nextSlot == old(nextSlot)
    {
      head := None;
      table := [None, None];
      nodes := map[];
      chains := [[], []];
      rank := map[];
    }

    /** `clear()` as written: emptying the bucket table itself leaves no
        bucket at all, so the index can never hold again and the next
        lookup's `hash % table_size()` divides by zero.  `Clear` is the
        behaviour the model adopts. */
    method ClearAsWritten()
      modifies this
      ensures nodes == map[] && head == None && table == [] && !IndexOk()
    {
      head := None;
      table := [];
      nodes := map[];
      chains := [];
      rank := map[];
    }

    /** `remove_child`: `x` leaves its parent's child list. */
    method RemoveChild(x: nat)
      requires IndexOk() && x in nodes
      modifies this
      ensures IndexOk() && nodes == Detach(old(nodes), x)
      ensures table == old(table) && head == old(head) && rank == old(rank) && nextSlot == old(nextSlot)
    {
      DetachWf(nodes, table, nextSlot, hasher, chains, x);
      Commit(Detach(nodes, x), table, chains, nextSlot, head, rank);
    }

    /** `erase(key)`: erasing the head clears the container; erasing any
        other record detaches it from its parent and deletes it with all its
        descendants, then halves the table when the load drops below one
        fifth.  A key no record holds is refused and nothing changes. */
    method Erase(key: K) returns (s: Status)
      requires Valid()
      modifies this
      ensures Valid() && (s == Done || s == NotFound)
      ensures s == NotFound <==> old(Find(key)).None?
      ensures s == NotFound ==> nodes == old(nodes) && head == old(head) && table == old(table)
      ensures s == Done && old(Find(key)) == old(head) ==> nodes == map[] && head == None && |table| == 2
      ensures s == Done && old(Find(key)) != old(head) ==>
                var x := old(Find(key)).value;
                var gone := Subtree(old(nodes), old(rank), x);
                && head == old(head)
                && Agree(nodes, Detach(old(nodes), x) - gone)
                && |nodes| == |old(nodes)| - |gone|
                && |table| == if UnderMinLoad(|nodes|, old(|table|)) then old(|table|) / 2 else old(|table|)
    {
      var r := Index(key);
      if r.None? {
        return NotFound;
      }
      if r == head {
        Clear();
        return Done;
      }
      var x := r.value;
      var nodes', table', chains' := EraseBelow(nodes, table, chains, nextSlot, hasher, head, rank, x);
      Commit(nodes', table', chains', nextSlot, head, rank - Subtree(nodes, rank, x));
      if UnderMinLoad(|nodes|, |table|) {
        Rehash(|table| / 2);
      }
      s := Done;
    }

    /** `_set_parent`: detach `x` from its parent, insert it into `p`'s child
        list at offset `pos`, and point its parent link at `p`. */
    method Relink(x: nat, p: nat, pos: nat)
      requires Valid() && x in nodes && p in nodes && !Descends(nodes, rank, p, x)
      requires pos <= |Detach(nodes, x)[p].childs|
      modifies this
      ensures Valid() && nodes == Reparent(old(nodes), x, p, pos) && rank == Lift(old(nodes), old(rank), x, p)
      ensures head == old(head) && table == old(table) && nextSlot == old(nextSlot)
    {
      ReparentWf(nodes, table, nextSlot, hasher, chains, head, rank, x, p, pos);
      Commit(Reparent(nodes, x, p, pos), table, chains, nextSlot, head, Lift(nodes, rank, x, p));
    }

    /** `set_parent(key, parent)`: move the record of `key`, with its
        subtree, to the end of the child list of the record of `parent`.
        An unknown key or parent is refused, and so is a parent inside the
        key's own subtree (which includes moving the head). */
    method SetParent(key: K, parent: K) returns (s: Status)
      requires Valid()
      modifies this
      ensures Valid() && (s == Done || s == NotFound || s == WouldCycle)
      ensures s == NotFound <==> old(Find(key)).None? || old(Find(parent)).None?
      ensures s == WouldCycle <==>
                old(Find(key)).Some? && old(Find(parent)).Some?
                && Descends(old(nodes), old(rank), old(Find(parent)).value, old(Find(key)).value)
      ensures s != Done ==> nodes == old(nodes) && head == old(head) && table == old(table)
      ensures s == Done ==>
                old(Find(key)).Some? && old(Find(parent)).Some? &&
                var x, p := old(Find(key)).value, old(Find(parent)).value;
                x in old(nodes) && p in old(nodes) && nodes == Reparent(old(nodes), x, p, EndOffset(old(nodes), x, p))
      ensures s == Done ==> head == old(head) && table == old(table)
    {
      var x := Index(key);
      var p := Index(parent);
      if x.None? || p.None? {
        return NotFound;
      }
      var below := IsBelow(nodes, head, rank, p.value, x.value);
      if below {
        return WouldCycle;
      }
      Relink(x.value, p.value, EndOffset(nodes, x.value, p.value));
      s := Done;
    }

    /** The positional `set_parent(key, parent, pos)`: as `SetParent`, with
        `x` inserted before the child at offset `pos` of the parent's child
        list (counted after `x` has left its old place); an offset past the
        end is refused. */
    method SetParentAt(key: K, parent: K, pos: nat) returns (s: Status)
      requires Valid()
      modifies this
      ensures Valid()
      ensures s == NotFound <==> old(Find(key)).None? || old(Find(parent)).None?
      ensures s == WouldCycle <==>
                old(Find(key)).Some? && old(Find(parent)).Some?
                && Descends(old(nodes), old(rank), old(Find(parent)).value, old(Find(key)).value)
      ensures s == BadPosition <==>
                old(Find(key)).Some? && old(Find(parent)).Some?
                && !Descends(old(nodes), old(rank), old(Find(parent)).value, old(Find(key)).value)
                && pos > EndOffset(old(nodes), old(Find(key)).value, old(Find(parent)).value)
      ensures s != Done ==> nodes == old(nodes) && head == old(head) && table == old(table)
      ensures s == Done ==>
                old(Find(key)).Some? && old(Find(parent)).Some? &&
                var x, p := old(Find(key)).value, old(Find(parent)).value;
                x in old(nodes) && p in old(nodes) && pos <= EndOffset(old(nodes), x, p) && nodes == Reparent(old(nodes), x, p, pos)
      ensures s == Done ==> head == old(head) && table == old(table)
    {
      var x := Index(key);
      var p := Index(parent);
      if x.None? || p.None? {
        return NotFound;
      }
      var below := IsBelow(nodes, head, rank, p.value, x.value);
      if below {
        return WouldCycle;
      }
      if pos > EndOffset(nodes, x.value, p.value) {
        return BadPosition;
      }
      Relink(x.value, p.value, pos);
      s := Done;
    }

    /** `begin()`: a walk positioned at the head. */
    method Begin() returns (it: BfsIterator<K, T>)
      requires Valid()
      ensures fresh(it) && it.tree == this && it.index == 0 && it.visit == Start(head) && it.Walking()
    {
      it := new BfsIterator(this, head, 0);
      BfsStart(nodes, head, rank);
    }

    /** `end()`: the position after the last record, `size()` steps on. */
    method End() returns (it: BfsIterator<K, T>)
      requires Valid()
      ensures fresh(it) && it.tree == this && it.index == |nodes| && it.visit == []
    {
      it := new BfsIterator(this, None, |nodes|);
    }
  }

  /** `hash_tree_iterator`: a breadth-first walk over a container's records,
      holding the list of slots found so far and the position in it. */
  class BfsIterator<K(==,!new), T(!new)> {
    /** The container walked. */
    const tree: HashTree<K, T>
    /** The visit list (`_visit`). */
    var visit: seq<nat>
    /** The position in the visit list (`_index`). */
    var index: nat

    /** The walk is consistent with the container it walks. */
    ghost predicate Walking()
      reads this, tree
    {
      tree.Valid() && BfsInv(tree.nodes, tree.head, tree.rank, visit, index)
    }

    /** A walk whose visit list starts with `start` (nothing for the empty
        sentinel), positioned at `index`. */
    constructor (tree: HashTree<K, T>, start: Option<nat>, index: nat)
      ensures this.tree == tree && visit == Start(start) && this.index == index
    {
      this.tree := tree;
      visit := Start(start);
      this.index := index;
    }

    /** `operator*`: the value of the record at the current position. */
    method Get() returns (v: T)
      requires Walking() && index < |tree.nodes|
      ensures index < |visit| && visit[index] in tree.nodes && v == tree.nodes[visit[index]].value
    {
      BfsEnd(tree.nodes, tree.head, tree.rank, visit, index);
      v := tree.nodes[visit[index]].value;
    }

    /** `operator++`: append the children of the current record to the visit
        list and move on by one. */
    method Advance()
      requires Walking() && index < |tree.nodes|
      modifies this
      ensures Walking() && index == old(index) + 1
      ensures old(index) < |old(visit)| && visit == old(visit) + tree.nodes[old(visit)[old(index)]].childs
    {
      BfsEnd(tree.nodes, tree.head, tree.rank, visit, index);
      BfsStep(tree.nodes, tree.head, tree.rank, visit, index);
      Move(visit + tree.nodes[visit[index]].childs, index + 1);
    }

    /** Installs a new visit list and position. */
    method Move(visit': seq<nat>, index': nat)
      modifies this
      ensures visit == visit' && index == index'
    {
      visit, index := visit', index';
    }

    /** `operator==`: two walks are equal when they are at the same position. */
    method Equals(other: BfsIterator<K, T>) returns (b: bool)
      ensures b <==> index == other.index
    {
      b := index == other.index;
    }
  }
}
