/** Operations of the hash-tree where the model departs from the source,
    following the source's own steps at the point of departure, each with
    the property that shows the difference. */
module AsWritten {
  import opened Common
  import opened Records
  import opened HashIndex
  import opened TreeShape
  import opened HashTreeMap

  /** `insert(key, value, parent)` as written: the record is stored first
      and the parent looked up afterwards, in the store that already holds
      the new record, then the two are linked in place.  (A parent that
      still does not resolve is indexed with the empty sentinel in the
      source; here it is left unlinked.)  For a parent key equal to a new
      key, the lookup finds the new record itself, which becomes its own
      parent and its own child. */
  method InsertUnderAsWritten<K(==), T>(nodes: map<nat, Node<K, T>>, table: seq<Option<nat>>,
                                        ghost chains: seq<seq<nat>>, nextSlot: nat, hasher: K -> nat,
                                        key: K, value: T, parent: K)
    returns (nodes': map<nat, Node<K, T>>, table': seq<Option<nat>>, ghost chains': seq<seq<nat>>, p: Option<nat>)
    requires IndexWf(nodes, table, nextSlot, hasher, chains)
    ensures nextSlot in nodes'
    ensures parent == key && (forall id :: id in nodes ==> nodes[id].key != key) ==>
              p == Some(nextSlot) && nodes'[nextSlot].parent == Some(nextSlot) && nextSlot in nodes'[nextSlot].childs
  {
    var stored;
    stored, table', chains' := StoreRecord(nodes, table, chains, nextSlot, hasher, key, value);
    p := IndexOf(stored, table', chains', hasher, parent);
    if parent == key && (forall id :: id in nodes ==> nodes[id].key != key) {
      NewKeyFound(nodes, stored, table', chains', nextSlot, hasher, key, value);
    }
    nodes' := stored;
    if p.Some? {
      LookupMeaning(stored, table', chains', hasher, parent);
      var q := p.value;
      var linked: map<nat, Node<K, T>> := stored[q := stored[q].(childs := stored[q].childs + [nextSlot])];
      nodes' := linked[nextSlot := linked[nextSlot].(parent := Some(q))];
    }
  }

  /** Right after storing a key no earlier record held, looking that key up
      finds the new record. */
  lemma NewKeyFound<K, T>(nodes: map<nat, Node<K, T>>, stored: map<nat, Node<K, T>>, table: seq<Option<nat>>,
                          chains: seq<seq<nat>>, id: nat, hasher: K -> nat, key: K, value: T)
    requires IndexWf(stored, table, id + 1, hasher, chains)
    requires StoredAt(nodes, stored, id, Fresh(key, value, hasher(key)))
    requires forall y :: y in nodes ==> nodes[y].key != key
    ensures Lookup(stored, table, chains, hasher, key) == Some(id)
  {
    LookupMeaning(stored, table, chains, hasher, key);
    var r := Lookup(stored, table, chains, hasher, key);
    assert stored[id].key == key;
    assert forall y :: y in nodes ==> stored[y].key != key;
    assert r.value !in nodes;
  }

  /** A record that is its own parent can be part of no rooted tree: it is
      either the head, which has no parent, or it needs a parent ranked
      strictly below itself. */
  lemma SelfParentBreaksTree<K, T>(nodes: map<nat, Node<K, T>>, x: nat, head: Option<nat>, rank: map<nat, nat>)
    requires x in nodes && nodes[x].parent == Some(x)
    ensures !Rooted(nodes, head, rank) && !TreeOk(nodes, head, rank)
  {
    assert !HasParent(nodes, rank, x);
  }

  /** `set_parent(key, parent)` as written has no guard against a parent
      inside the key's own subtree; the simplest case is `set_parent(key,
      key)`, where `_set_parent` makes the record list itself as its last
      child and point its parent link at itself, which leaves no rooted
      tree. */
  lemma SetParentToSelfAsWritten<K, T>(nodes: map<nat, Node<K, T>>, x: nat, head: Option<nat>, rank: map<nat, nat>)
    requires x in nodes
    ensures x in Reparent(nodes, x, x, EndOffset(nodes, x, x))
    ensures Reparent(nodes, x, x, EndOffset(nodes, x, x))[x].parent == Some(x)
    ensures x in Reparent(nodes, x, x, EndOffset(nodes, x, x))[x].childs
    ensures !TreeOk(Reparent(nodes, x, x, EndOffset(nodes, x, x)), head, rank)
  {
    DetachFields(nodes, x);
    var after := Reparent(nodes, x, x, EndOffset(nodes, x, x));
    SelfParentBreaksTree(after, x, head, rank);
  }

  /** The cascade loop of `erase` for a record other than the head, as
      written, before the shrink test that follows it: detach the record
      from its parent and drop its whole subtree from the store, leaving
      every bucket table entry and every surviving `next` link as it was.
      The links stay stale only when no shrinking rehash follows. */
  ghost function EraseAsWritten<K, T>(nodes: map<nat, Node<K, T>>, rank: map<nat, nat>, x: nat)
    : (nodes': map<nat, Node<K, T>>)
    ensures nodes'.Keys == nodes.Keys - Subtree(nodes, rank, x)
    ensures forall y :: y in nodes' ==> nodes'[y].next == nodes[y].next
  {
    DetachFields(nodes, x);
    Detach(nodes, x) - Subtree(nodes, rank, x)
  }

  /** Two records in one bucket, the second a child of the first. */
  function TwoInOneBucket(): map<nat, Node<int, int>>
  {
    map[0 := Node(10, 100, 0, [1], None, Some(1)), 1 := Node(11, 110, 0, [], Some(0), None)]
  }

  /** The ranks of `TwoInOneBucket`. */
  function TwoRanks(): map<nat, nat>
  {
    map[0 := 0, 1 := 1]
  }

  /** Before the erase, `TwoInOneBucket` is soundly indexed: bucket 0
      chains slot 0 to slot 1. */
  lemma TwoInOneBucketIndexed()
    ensures Indexed(TwoInOneBucket(), [Some(0), None], [[0, 1], []])
  {
    var nodes := TwoInOneBucket();
    var chains := [[0, 1], []];
    assert NoDup([0, 1]) by {
      forall i, j ensures Apart([0, 1], i, j) {
      }
    }
    assert NoDup([]) by {
      forall i, j ensures Apart([], i, j) {
      }
    }
    assert Links(nodes, chains) by {
      forall b, i | 0 <= b < |chains| && 0 <= i < |chains[b]|
        ensures chains[b][i] in nodes && nodes[chains[b][i]].next == NextIn(chains[b], i)
      {
        assert b == 0;
      }
    }
  }

  /** Before the erase, `TwoInOneBucket` is one rooted tree: slot 1 is the
      only child of the head 0. */
  lemma TwoInOneBucketTree()
    ensures TreeOk(TwoInOneBucket(), Some(0), TwoRanks())
  {
    var nodes := TwoInOneBucket();
    assert HasParent(nodes, TwoRanks(), 1);
    assert Rooted(nodes, Some(0), TwoRanks());
    assert LinksBack(nodes) by {
      forall x, c | x in nodes && c in nodes[x].childs ensures c in nodes && nodes[c].parent == Some(x) {
        assert x == 0 && c == 1;
      }
    }
    assert NoDup([1]) by {
      forall i, j ensures Apart([1], i, j) {
      }
    }
    assert NoDup([]) by {
      forall i, j ensures Apart([], i, j) {
      }
    }
  }

  /** Erasing the child of `TwoInOneBucket` as written leaves the head's
      chain link pointing at the erased slot; the load of one record in two
      buckets is not under the minimum, so no rehash follows, and no chain
      layout at all links what is left under the unchanged table. */
  lemma StaleLinkAfterErase()
    ensures EraseAsWritten(TwoInOneBucket(), TwoRanks(), 1).Keys == {0}
    ensures !UnderMinLoad(|EraseAsWritten(TwoInOneBucket(), TwoRanks(), 1)|, 2)
    ensures EraseAsWritten(TwoInOneBucket(), TwoRanks(), 1)[0].next == Some(1)
    ensures forall chains :: !Linked(EraseAsWritten(TwoInOneBucket(), TwoRanks(), 1), [Some(0), None], chains)
  {
    var nodes := TwoInOneBucket();
    var rank := TwoRanks();
    var table := [Some(0), None];
    assert !Descends(nodes, rank, 0, 1);
    assert Subtree(nodes, rank, 1) == {1};
    var after := EraseAsWritten(nodes, rank, 1);
    forall chains ensures !Linked(after, table, chains) {
      if Heads(table, chains) && Links(after, chains) {
        assert chains[0][0] == 0;
        assert after[chains[0][0]].next == NextIn(chains[0], 0);
        assert chains[0][1] !in after;
      }
    }
  }
}
