/** The separate-chaining hash index of the hash-tree: a bucket table of slot
    identifiers, each the first slot of a chain linked through the records'
    `next` fields.  `chains[b]` is the ghost list of slots in bucket `b`'s
    chain, in link order. */
module HashIndex {
  import opened Common
  import opened Records

  /** The table entry of a bucket whose chain is `c`. */
  function HeadOf(c: seq<nat>): Option<nat>
  {
    if c == [] then None else Some(c[0])
  }

  /** The `next` link the member at position `i` of chain `c` must hold. */
  function NextIn(c: seq<nat>, i: nat): Option<nat>
    requires i < |c|
  {
    if i + 1 < |c| then Some(c[i + 1]) else None
  }

  /** Every bucket's table entry is the first member of its chain, and no
      chain repeats a slot. */
  ghost predicate Heads(table: seq<Option<nat>>, chains: seq<seq<nat>>)
  {
    && |table| > 0
    && |chains| == |table|
    && forall b :: 0 <= b < |table| ==> table[b] == HeadOf(chains[b]) && NoDup(chains[b])
  }

  /** Every chain member is a live record whose cached hash picks that
      chain's bucket. */
  ghost predicate Members<K, T>(nodes: map<nat, Node<K, T>>, chains: seq<seq<nat>>)
  {
    forall b, i :: 0 <= b < |chains| && 0 <= i < |chains[b]| ==>
      chains[b][i] in nodes && nodes[chains[b][i]].hash % |chains| == b
  }

  /** Every chain member links to the next member, the last one to the empty
      sentinel. */
  ghost predicate Links<K, T>(nodes: map<nat, Node<K, T>>, chains: seq<seq<nat>>)
  {
    forall b, i {:trigger NextIn(chains[b], i)} :: 0 <= b < |chains| && 0 <= i < |chains[b]| ==>
      chains[b][i] in nodes && nodes[chains[b][i]].next == NextIn(chains[b], i)
  }

  /** The chains are well formed: heads, members and links all agree. */
  ghost predicate Linked<K, T>(nodes: map<nat, Node<K, T>>, table: seq<Option<nat>>, chains: seq<seq<nat>>)
  {
    Heads(table, chains) && Members(nodes, chains) && Links(nodes, chains)
  }

  /** Linked, and every live record sits in the chain of bucket
      `hash % table size`, using its cached hash. */
  ghost predicate Indexed<K, T>(nodes: map<nat, Node<K, T>>, table: seq<Option<nat>>, chains: seq<seq<nat>>)
  {
    && Linked(nodes, table, chains)
    && forall id :: id in nodes ==> id in chains[nodes[id].hash % |table|]
  }

  /** Each record caches the hash of its own key. */
  ghost predicate HashesCached<K, T>(nodes: map<nat, Node<K, T>>, hasher: K -> nat)
  {
    forall id :: id in nodes ==> nodes[id].hash == hasher(nodes[id].key)
  }

  /** The comparison made at each chain member: cached hash first, then key. */
  predicate Matches<K(==), T>(n: Node<K, T>, h: nat, key: K)
  {
    n.hash == h && n.key == key
  }

  /** The first member of chain `c` that matches, or the empty sentinel when
      the whole chain is walked without a match. */
  function FindIn<K(==), T>(nodes: map<nat, Node<K, T>>, c: seq<nat>, h: nat, key: K): (r: Option<nat>)
    requires forall i :: 0 <= i < |c| ==> c[i] in nodes
    ensures r.None? <==> forall i :: 0 <= i < |c| ==> !Matches(nodes[c[i]], h, key)
    ensures r.Some? ==> exists i :: 0 <= i < |c| && c[i] == r.value && Matches(nodes[c[i]], h, key)
                                   && forall j :: 0 <= j < i ==> !Matches(nodes[c[j]], h, key)
  {
    if c == [] then None
    else if Matches(nodes[c[0]], h, key) then Some(c[0])
    else
      var r := FindIn(nodes, c[1..], h, key);
      assert forall i :: 1 <= i < |c| ==> c[1..][i - 1] == c[i];
      r
  }

  /** `index(key)`: walk the chain of bucket `hasher(key) % table size`. */
  ghost function Lookup<K, T>(nodes: map<nat, Node<K, T>>, table: seq<Option<nat>>, chains: seq<seq<nat>>,
                                  hasher: K -> nat, key: K): Option<nat>
    requires Linked(nodes, table, chains)
  {
    FindIn(nodes, chains[hasher(key) % |table|], hasher(key), key)
  }

  /** A lookup finds a live record holding the key, in the key's bucket; it
      comes back empty exactly when no live record holds the key. */
  lemma LookupMeaning<K, T>(nodes: map<nat, Node<K, T>>, table: seq<Option<nat>>, chains: seq<seq<nat>>,
                                hasher: K -> nat, key: K)
    requires Indexed(nodes, table, chains) && HashesCached(nodes, hasher)
    ensures var r := Lookup(nodes, table, chains, hasher, key);
      && (r.None? <==> forall id :: id in nodes ==> nodes[id].key != key)
      && (r.Some? ==> && r.value in nodes && nodes[r.value].key == key && nodes[r.value].hash == hasher(key)
                      && r.value in chains[hasher(key) % |table|])
  {
    var b := hasher(key) % |table|;
    var c := chains[b];
    var r := Lookup(nodes, table, chains, hasher, key);
    if r.None? {
      forall id | id in nodes ensures nodes[id].key != key {
        assert id in chains[nodes[id].hash % |table|];
      }
    } else {
      var i :| 0 <= i < |c| && c[i] == r.value && Matches(nodes[c[i]], hasher(key), key);
    }
  }

  /** `insert_map` on an empty bucket: the new slot becomes the whole chain. */
  lemma {:induction false} StartChain<K, T>(nodes: map<nat, Node<K, T>>, table: seq<Option<nat>>, chains: seq<seq<nat>>,
                                            b: nat, id: nat)
    requires Linked(nodes, table, chains) && b < |table| && chains[b] == []
    requires id in nodes && nodes[id].hash % |table| == b && nodes[id].next == None
    ensures Linked(nodes, table[b := Some(id)], chains[b := [id]])
  {
    var table', chains' := table[b := Some(id)], chains[b := [id]];
    forall b', i | 0 <= b' < |chains'| && 0 <= i < |chains'[b']|
      ensures chains'[b'][i] in nodes && nodes[chains'[b'][i]].hash % |table'| == b'
      ensures nodes[chains'[b'][i]].next == NextIn(chains'[b'], i)
    {
      if b' != b {
        assert chains'[b'][i] == chains[b'][i];
      }
    }
  }

  /** `insert_map` on a non-empty bucket: the new slot is linked after the
      tail, and nothing else changes. */
  lemma {:induction false} ExtendChain<K, T>(nodes: map<nat, Node<K, T>>, table: seq<Option<nat>>, chains: seq<seq<nat>>,
                                             b: nat, id: nat)
    requires Linked(nodes, table, chains) && b < |table| && chains[b] != []
    requires id in nodes && nodes[id].hash % |table| == b && nodes[id].next == None && id !in chains[b]
    ensures var c := chains[b];
            var tail := c[|c| - 1];
            Linked(nodes[tail := nodes[tail].(next := Some(id))], table, chains[b := c + [id]])
  {
    var c := chains[b];
    var tail := c[|c| - 1];
    var nodes' := nodes[tail := nodes[tail].(next := Some(id))];
    var chains' := chains[b := c + [id]];
    assert tail != id;
    forall b' | 0 <= b' < |table| ensures table[b'] == HeadOf(chains'[b']) && NoDup(chains'[b']) {
      if b' == b {
        AppendNoDup(c, [id]);
      }
    }
    forall b', i | 0 <= b' < |chains'| && 0 <= i < |chains'[b']|
      ensures chains'[b'][i] in nodes' && nodes'[chains'[b'][i]].hash % |table| == b'
      ensures nodes'[chains'[b'][i]].next == NextIn(chains'[b'], i)
    {
      if b' != b {
        var y := chains[b'][i];
        assert chains'[b'][i] == y;
        assert y != tail by {
          assert nodes[y].hash % |table| == b';
          assert nodes[tail].hash % |table| == b;
        }
      } else if i < |c| - 1 {
        DistinctAt(c, i, |c| - 1);
        assert chains'[b'][i] == c[i] && c[i] != tail;
        assert NextIn(chains'[b'], i) == NextIn(c, i);
      } else if i == |c| - 1 {
        assert chains'[b'][i] == tail;
      } else {
        assert chains'[b'][i] == id;
      }
    }
  }

  /** Unlinking the first member of a chain: the bucket now starts at its
      successor, and the record is gone from the store. */
  lemma {:induction false} DropChainHead<K, T>(nodes: map<nat, Node<K, T>>, table: seq<Option<nat>>, chains: seq<seq<nat>>,
                                               b: nat)
    requires Linked(nodes, table, chains) && b < |table| && chains[b] != []
    ensures var f := chains[b][0];
            Linked(nodes - {f}, table[b := nodes[f].next], chains[b := chains[b][1..]])
  {
    var c := chains[b];
    var f := c[0];
    var nodes', table', chains' := nodes - {f}, table[b := nodes[f].next], chains[b := c[1..]];
    assert NextIn(c, 0) == HeadOf(c[1..]);
    forall b' | 0 <= b' < |table'| ensures table'[b'] == HeadOf(chains'[b']) && NoDup(chains'[b']) {
      if b' == b {
        NoDupTail(c);
      }
    }
    forall b', i | 0 <= b' < |chains'| && 0 <= i < |chains'[b']|
      ensures chains'[b'][i] in nodes' && nodes'[chains'[b'][i]].hash % |table'| == b'
      ensures nodes'[chains'[b'][i]].next == NextIn(chains'[b'], i)
    {
      if b' != b {
        var y := chains[b'][i];
        assert chains'[b'][i] == y;
        assert y != f by {
          assert nodes[y].hash % |table| == b';
          assert nodes[f].hash % |table| == b;
        }
      } else {
        DistinctAt(c, 0, i + 1);
        assert chains'[b'][i] == c[i + 1] && c[i + 1] != f;
        assert NextIn(chains'[b'], i) == NextIn(c, i + 1);
      }
    }
  }

  /** Unlinking the member after position `i` of a chain: its predecessor
      takes over its `next` link, and the record is gone from the store. */
  lemma {:induction false} DropChainAfter<K, T>(nodes: map<nat, Node<K, T>>, table: seq<Option<nat>>, chains: seq<seq<nat>>,
                                                b: nat, i: nat)
    requires Linked(nodes, table, chains) && b < |table| && i + 1 < |chains[b]|
    ensures var c := chains[b];
            var prev, f := c[i], c[i + 1];
            Linked((nodes - {f})[prev := nodes[prev].(next := nodes[f].next)], table,
                   chains[b := c[..i + 1] + c[i + 2..]])
  {
    var c := chains[b];
    var prev, f := c[i], c[i + 1];
    var nodes' := (nodes - {f})[prev := nodes[prev].(next := nodes[f].next)];
    var c' := c[..i + 1] + c[i + 2..];
    var chains' := chains[b := c'];
    DeleteAt(c, i + 1);
    forall b', k | 0 <= b' < |chains'| && 0 <= k < |chains'[b']|
      ensures chains'[b'][k] in nodes' && nodes'[chains'[b'][k]].hash % |table| == b'
      ensures nodes'[chains'[b'][k]].next == NextIn(chains'[b'], k)
    {
      if b' != b {
        var y := chains[b'][k];
        assert chains'[b'][k] == y;
        assert y != f && y != prev by {
          assert nodes[y].hash % |table| == b';
          assert nodes[f].hash % |table| == b;
          assert nodes[prev].hash % |table| == b;
        }
      } else if k < i {
        DistinctAt(c, k, i + 1);
        DistinctAt(c, k, i);
        assert c'[k] == c[k] && c[k] != f && c[k] != prev;
        assert NextIn(c', k) == NextIn(c, k);
      } else if k == i {
        DistinctAt(c, i, i + 1);
        assert c'[k] == prev && prev != f;
        assert NextIn(c', k) == NextIn(c, i + 1);
      } else {
        DistinctAt(c, k + 1, i + 1);
        DistinctAt(c, k + 1, i);
        assert c'[k] == c[k + 1] && c[k + 1] != f && c[k + 1] != prev;
        assert NextIn(c', k) == NextIn(c, k + 1);
      }
    }
  }

  /** After one record `f` is unlinked from bucket `b` and dropped from the
      store, every other live record is still in its bucket's chain. */
  lemma DropKeepsCoverage<K, T>(nodes: map<nat, Node<K, T>>, table: seq<Option<nat>>, chains: seq<seq<nat>>,
                                nodes': map<nat, Node<K, T>>, table': seq<Option<nat>>, b: nat, f: nat, c': seq<nat>)
    requires Indexed(nodes, table, chains) && b < |table|
    requires Linked(nodes', table', chains[b := c']) && |table'| == |table|
    requires nodes'.Keys == nodes.Keys - {f}
    requires forall y :: y in nodes' ==> nodes'[y].hash == nodes[y].hash
    requires forall y :: y in chains[b] && y != f ==> y in c'
    ensures Indexed(nodes', table', chains[b := c'])
  {
  }

  /** The index only looks at the key set, the cached hashes and the chain
      links: changing any other field keeps it intact. */
  lemma IndexFrame<K, T>(nodes: map<nat, Node<K, T>>, nodes': map<nat, Node<K, T>>,
                         table: seq<Option<nat>>, chains: seq<seq<nat>>)
    requires Indexed(nodes, table, chains)
    requires nodes'.Keys == nodes.Keys
    requires forall y :: y in nodes ==> nodes'[y].hash == nodes[y].hash && nodes'[y].next == nodes[y].next
    ensures Indexed(nodes', table, chains)
  {
    forall b, i | 0 <= b < |chains| && 0 <= i < |chains[b]|
      ensures chains[b][i] in nodes' && nodes'[chains[b][i]].hash % |table| == b
      ensures nodes'[chains[b][i]].next == NextIn(chains[b], i)
    {
    }
  }

  /** A table of `n` empty buckets indexes an empty set of chains. */
  lemma EmptyTable<K, T>(nodes: map<nat, Node<K, T>>, n: nat)
    requires n > 0
    ensures Linked(nodes, seq(n, _ => None), seq(n, _ => []))
  {
  }

  /** Storing a record in a fresh slot, before it is linked into any chain,
      keeps every chain intact, and the slot is in none of them. */
  lemma AddRecord<K, T>(nodes: map<nat, Node<K, T>>, table: seq<Option<nat>>, chains: seq<seq<nat>>,
                        id: nat, n: Node<K, T>)
    requires Linked(nodes, table, chains) && id !in nodes
    ensures Linked(nodes[id := n], table, chains)
    ensures forall b :: 0 <= b < |chains| ==> id !in chains[b]
  {
  }

  /** `index`'s walk along one chain, starting at its first member: compare
      the cached hash and then the key at each member up to the last one. */
  method Search<K(==), T>(nodes: map<nat, Node<K, T>>, ghost c: seq<nat>, first: nat, h: nat, key: K)
    returns (r: Option<nat>)
    requires c != [] && first == c[0]
    requires forall i :: 0 <= i < |c| ==> c[i] in nodes && nodes[c[i]].next == NextIn(c, i)
    ensures r == FindIn(nodes, c, h, key)
  {
    var id := first;
    ghost var i := 0;
    while nodes[id].next.Some?
      invariant 0 <= i < |c| && id == c[i]
      invariant FindIn(nodes, c, h, key) == FindIn(nodes, c[i..], h, key)
      decreases |c| - i
    {
      if nodes[id].hash == h && nodes[id].key == key {
        return Some(id);
      }
      assert c[i..][1..] == c[i + 1..];
      id := nodes[id].next.value;
      i := i + 1;
    }
    assert c[i..] == [id];
    if nodes[id].hash == h && nodes[id].key == key {
      r := Some(id);
    } else {
      assert c[i..][1..] == [];
      r := None;
    }
  }

  /** `index(key)` on values: pick the bucket `hasher(key) % table size`
      and walk its chain; an empty bucket answers with the empty sentinel. */
  method IndexOf<K(==), T>(nodes: map<nat, Node<K, T>>, table: seq<Option<nat>>, ghost chains: seq<seq<nat>>,
                           hasher: K -> nat, key: K)
    returns (r: Option<nat>)
    requires Linked(nodes, table, chains)
    ensures r == Lookup(nodes, table, chains, hasher, key)
  {
    var h := hasher(key);
    var b := h % |table|;
    if table[b].None? {
      return None;
    }
    ChainLinks(nodes, table, chains, b);
    r := Search(nodes, chains[b], table[b].value, h, key);
  }

  /** `insert_map`: slot `id` becomes the whole chain of an empty bucket `b`,
      or is linked after the last member of its chain. */
  method Append<K, T>(nodes: map<nat, Node<K, T>>, table: seq<Option<nat>>, ghost chains: seq<seq<nat>>,
                      b: nat, id: nat)
    returns (nodes': map<nat, Node<K, T>>, table': seq<Option<nat>>, ghost chains': seq<seq<nat>>)
    requires Linked(nodes, table, chains) && b < |table|
    requires id in nodes && nodes[id].hash % |table| == b && nodes[id].next == None && id !in chains[b]
    ensures Linked(nodes', table', chains') && |table'| == |table|
    ensures chains' == chains[b := chains[b] + [id]]
    ensures Agree(nodes', nodes)
    ensures forall y :: y in nodes && y !in chains[b] ==> nodes'[y] == nodes[y]
  {
    ghost var c := chains[b];
    if table[b].None? {
      StartChain(nodes, table, chains, b, id);
      assert c + [id] == [id];
      return nodes, table[b := Some(id)], chains[b := [id]];
    }
    var t := table[b].value;
    ghost var i := 0;
    while nodes[t].next.Some?
      invariant 0 <= i < |c| && t == c[i]
      decreases |c| - i
    {
      assert nodes[t].next == NextIn(c, i);
      t := nodes[t].next.value;
      i := i + 1;
    }
    assert nodes[t].next == NextIn(c, i);
    ExtendChain(nodes, table, chains, b, id);
    nodes' := nodes[t := nodes[t].(next := Some(id))];
    table' := table;
    chains' := chains[b := c + [id]];
  }

  /** Within chain `c`, an earlier position holds a smaller slot. */
  ghost predicate InOrder(c: seq<nat>, i: int, j: int)
  {
    0 <= i < j < |c| ==> c[i] < c[j]
  }

  /** Every chain lists its slots in increasing order. */
  ghost predicate Ascending(chains: seq<seq<nat>>)
  {
    forall b, i, j {:trigger InOrder(chains[b], i, j)} :: 0 <= b < |chains| ==> InOrder(chains[b], i, j)
  }

  /** The first pass of `rehash`: every chain link is cleared, nothing else
      changes. */
  method ClearLinks<K, T>(nodes: map<nat, Node<K, T>>, bound: nat) returns (nodes': map<nat, Node<K, T>>)
    requires forall y :: y in nodes ==> y < bound
    ensures nodes'.Keys == nodes.Keys
    ensures forall y :: y in nodes ==> nodes'[y] == Strip(nodes[y])
  {
    nodes' := nodes;
    var k := 0;
    while k < bound
      invariant k <= bound && nodes'.Keys == nodes.Keys
      invariant forall y :: y in nodes ==> nodes'[y] == if y < k then Strip(nodes[y]) else nodes[y]
    {
      if k in nodes' {
        nodes' := nodes'[k := nodes'[k].(next := None)];
      }
      k := k + 1;
    }
  }

  /** The state of `rehash`'s second pass over a table of `n` buckets once
      every slot below `k` has been linked: the records are those of `orig`
      with their links replaced, the slots below `k` sit in their buckets'
      chains in increasing order, and the slots from `k` on are not linked
      yet. */
  ghost predicate Relinking<K, T>(orig: map<nat, Node<K, T>>, nodes: map<nat, Node<K, T>>,
                                  table: seq<Option<nat>>, chains: seq<seq<nat>>, k: nat, n: nat)
  {
    && n > 0 && |table| == n
    && nodes.Keys == orig.Keys
    && Linked(nodes, table, chains)
    && (forall y :: y in nodes ==> Alike(nodes[y], orig[y]))
    && (forall y :: y in nodes && y >= k ==> nodes[y].next == None)
    && (forall b, i :: 0 <= b < |chains| && 0 <= i < |chains[b]| ==> chains[b][i] < k)
    && (forall y :: y in nodes && y < k ==> y in chains[nodes[y].hash % n])
    && Ascending(chains)
  }

  /** The second pass starts from an empty table and unlinked records. */
  lemma RelinkStart<K, T>(orig: map<nat, Node<K, T>>, nodes: map<nat, Node<K, T>>, n: nat)
    requires n > 0 && nodes.Keys == orig.Keys
    requires forall y :: y in orig ==> nodes[y] == Strip(orig[y])
    ensures Relinking(orig, nodes, seq(n, _ => None), seq(n, _ => []), 0, n)
  {
    EmptyTable(nodes, n);
  }

  /** Appending slot `k` to one chain, when every chain member is below `k`,
      keeps every member below `k + 1` and every chain increasing. */
  lemma AppendAscending(chains: seq<seq<nat>>, b: nat, k: nat)
    requires b < |chains| && Ascending(chains)
    requires forall b', i :: 0 <= b' < |chains| && 0 <= i < |chains[b']| ==> chains[b'][i] < k
    ensures var chains' := chains[b := chains[b] + [k]];
            && (forall b', i :: 0 <= b' < |chains'| && 0 <= i < |chains'[b']| ==> chains'[b'][i] < k + 1)
            && Ascending(chains')
  {
    var chains' := chains[b := chains[b] + [k]];
    forall b', i | 0 <= b' < |chains'| && 0 <= i < |chains'[b']| ensures chains'[b'][i] < k + 1 {
      if b' == b && i == |chains[b]| {
      } else {
        assert chains'[b'][i] == chains[b'][i];
      }
    }
    forall b', i, j | 0 <= b' < |chains'| ensures InOrder(chains'[b'], i, j) {
      if 0 <= i < j < |chains'[b']| {
        if b' == b && j == |chains[b]| {
          assert chains'[b'][i] == chains[b][i];
        } else {
          assert InOrder(chains[b'], i, j);
          assert chains'[b'][i] == chains[b'][i] && chains'[b'][j] == chains[b'][j];
        }
      }
    }
  }

  /** After slot `k` joins the chain its hash picks, every slot up to `k` is
      in its bucket's chain. */
  lemma AppendCovers<K, T>(nodes: map<nat, Node<K, T>>, nodes': map<nat, Node<K, T>>,
                           chains: seq<seq<nat>>, k: nat, n: nat)
    requires n > 0 && |chains| == n && k in nodes
    requires nodes'.Keys == nodes.Keys && forall y :: y in nodes ==> nodes'[y].hash == nodes[y].hash
    requires forall y :: y in nodes && y < k ==> y in chains[nodes[y].hash % n]
    ensures var b := nodes[k].hash % n;
            forall y :: y in nodes' && y < k + 1 ==> y in chains[b := chains[b] + [k]][nodes'[y].hash % n]
  {
  }

  /** Appending `k`, which only touches members of its own chain, leaves
      every slot above `k` unlinked. */
  lemma AppendLeavesRest<K, T>(nodes: map<nat, Node<K, T>>, nodes': map<nat, Node<K, T>>, c: seq<nat>, k: nat)
    requires nodes'.Keys == nodes.Keys
    requires forall i :: 0 <= i < |c| ==> c[i] < k
    requires forall y :: y in nodes && y >= k ==> nodes[y].next == None
    requires forall y :: y in nodes && y !in c ==> nodes'[y] == nodes[y]
    ensures forall y :: y in nodes' && y >= k + 1 ==> nodes'[y].next == None
  {
    forall y | y in nodes' && y >= k + 1 ensures nodes'[y].next == None {
      assert y !in c by {
        forall i | 0 <= i < |c| ensures c[i] != y {
        }
      }
    }
  }

  /** Linking slot `k` at the tail of its bucket's chain moves the second pass
      on by one slot. */
  lemma RelinkStep<K, T>(orig: map<nat, Node<K, T>>, nodes: map<nat, Node<K, T>>,
                         table: seq<Option<nat>>, chains: seq<seq<nat>>, k: nat, n: nat,
                         nodes': map<nat, Node<K, T>>, table': seq<Option<nat>>, chains': seq<seq<nat>>)
    requires Relinking(orig, nodes, table, chains, k, n) && k in nodes
    requires Linked(nodes', table', chains') && |table'| == n
    requires var b := nodes[k].hash % n; chains' == chains[b := chains[b] + [k]]
    requires Agree(nodes', nodes)
    requires forall y :: y in nodes && y !in chains[nodes[k].hash % n] ==> nodes'[y] == nodes[y]
    ensures Relinking(orig, nodes', table', chains', k + 1, n)
  {
    var b := nodes[k].hash % n;
    AppendAscending(chains, b, k);
    forall y | y in nodes ensures nodes'[y].hash == nodes[y].hash {
      assert nodes'[y].hash == nodes[y].hash;
    }
    AppendCovers(nodes, nodes', chains, k, n);
    assert forall i :: 0 <= i < |chains[b]| ==> chains[b][i] < k;
    AppendLeavesRest(nodes, nodes', chains[b], k);
  }

  /** A slot with no record leaves the second pass unchanged. */
  lemma RelinkSkip<K, T>(orig: map<nat, Node<K, T>>, nodes: map<nat, Node<K, T>>,
                         table: seq<Option<nat>>, chains: seq<seq<nat>>, k: nat, n: nat)
    requires Relinking(orig, nodes, table, chains, k, n) && k !in nodes
    ensures Relinking(orig, nodes, table, chains, k + 1, n)
  {
  }

  /** `rehash` on record store `nodes` with a table of `n` buckets: clear
      every chain link, then link every live record, in slot order, at the
      tail of its bucket's chain.  Each chain then lists its slots in
      increasing order. */
  method Rebuild<K, T>(nodes: map<nat, Node<K, T>>, bound: nat, n: nat)
    returns (nodes': map<nat, Node<K, T>>, table': seq<Option<nat>>, ghost chains': seq<seq<nat>>)
    requires n > 0 && forall y :: y in nodes ==> y < bound
    ensures Indexed(nodes', table', chains') && |table'| == n
    ensures Agree(nodes', nodes)
    ensures Ascending(chains')
  {
    nodes' := ClearLinks(nodes, bound);
    table' := seq(n, _ => None);
    chains' := seq(n, _ => []);
    RelinkStart(nodes, nodes', n);
    var k := 0;
    while k < bound
      invariant k <= bound && Relinking(nodes, nodes', table', chains', k, n)
    {
      if k in nodes' {
        var b := nodes'[k].hash % n;
        var nodes2, table2, chains2 := Append(nodes', table', chains', b, k);
        RelinkStep(nodes, nodes', table', chains', k, n, nodes2, table2, chains2);
        nodes', table', chains' := nodes2, table2, chains2;
      } else {
        RelinkSkip(nodes, nodes', table', chains', k, n);
      }
      k := k + 1;
    }
  }

  /** The walk `Unlink` makes along a chain: the member whose `next` link
      points at `f`, and its position. */
  method Predecessor<K, T>(nodes: map<nat, Node<K, T>>, ghost c: seq<nat>, first: nat, f: nat)
    returns (prev: nat, ghost i: nat)
    requires c != [] && first == c[0] && first != f && f in c
    requires forall j :: 0 <= j < |c| ==> c[j] in nodes && nodes[c[j]].next == NextIn(c, j)
    ensures i + 1 < |c| && c[i] == prev && c[i + 1] == f
  {
    ghost var k :| 0 <= k < |c| && c[k] == f;
    prev := first;
    i := 0;
    while nodes[prev].next != Some(f)
      invariant 0 <= i < k && prev == c[i]
      decreases k - i
    {
      prev := nodes[prev].next.value;
      i := i + 1;
    }
  }

  /** Unlinking the first member `f` of its bucket's chain keeps every other
      live record indexed. */
  lemma UnlinkFirst<K, T>(nodes: map<nat, Node<K, T>>, table: seq<Option<nat>>, chains: seq<seq<nat>>, f: nat)
    requires Indexed(nodes, table, chains) && f in nodes && table[nodes[f].hash % |table|] == Some(f)
    ensures var b := nodes[f].hash % |table|;
            Indexed(nodes - {f}, table[b := nodes[f].next], chains[b := RemoveAll(chains[b], f)])
  {
    var b := nodes[f].hash % |table|;
    var c := chains[b];
    DropChainHead(nodes, table, chains, b);
    RemoveAllAt(c, 0);
    assert c[..0] + c[1..] == c[1..];
    DropKeepsCoverage(nodes, table, chains, nodes - {f}, table[b := nodes[f].next], b, f, c[1..]);
  }

  /** Unlinking the member after position `i` of bucket `b`'s chain keeps
      every other live record indexed. */
  lemma UnlinkLater<K, T>(nodes: map<nat, Node<K, T>>, table: seq<Option<nat>>, chains: seq<seq<nat>>,
                          b: nat, i: nat)
    requires Indexed(nodes, table, chains) && b < |table| && i + 1 < |chains[b]|
    ensures var c := chains[b];
            var prev, f := c[i], c[i + 1];
            var nodes' := (nodes - {f})[prev := nodes[prev].(next := nodes[f].next)];
            && Indexed(nodes', table, chains[b := RemoveAll(c, f)])
            && nodes'.Keys == nodes.Keys - {f}
            && forall y :: y in nodes' ==> Alike(nodes'[y], nodes[y])
  {
    var c := chains[b];
    var prev, f := c[i], c[i + 1];
    var c' := c[..i + 1] + c[i + 2..];
    DropChainAfter(nodes, table, chains, b, i);
    RemoveAllAt(c, i + 1);
    assert prev in nodes && prev != f;
    DropKeepsCoverage(nodes, table, chains, (nodes - {f})[prev := nodes[prev].(next := nodes[f].next)],
                      table, b, f, c');
  }

  /** The links along one chain, as `Predecessor` walks them. */
  lemma ChainLinks<K, T>(nodes: map<nat, Node<K, T>>, table: seq<Option<nat>>, chains: seq<seq<nat>>, b: nat)
    requires Linked(nodes, table, chains) && b < |table|
    ensures var c := chains[b]; forall j :: 0 <= j < |c| ==> c[j] in nodes && nodes[c[j]].next == NextIn(c, j)
  {
    var c := chains[b];
    forall j | 0 <= j < |c| ensures c[j] in nodes && nodes[c[j]].next == NextIn(c, j) {
      assert NextIn(chains[b], j) == NextIn(c, j);
    }
  }

  /** Unlinking slot `f` from its bucket's chain and dropping it from the
      store: the chain loses exactly `f`, the others keep their order. */
  method Unlink<K, T>(nodes: map<nat, Node<K, T>>, table: seq<Option<nat>>, ghost chains: seq<seq<nat>>, f: nat)
    returns (nodes': map<nat, Node<K, T>>, table': seq<Option<nat>>, ghost chains': seq<seq<nat>>)
    requires Indexed(nodes, table, chains) && f in nodes
    ensures Indexed(nodes', table', chains') && |table'| == |table|
    ensures nodes'.Keys == nodes.Keys - {f} && forall y :: y in nodes' ==> Alike(nodes'[y], nodes[y])
    ensures var b := nodes[f].hash % |table|;
            chains' == chains[b := RemoveAll(chains[b], f)]
  {
    var b := nodes[f].hash % |table|;
    ghost var c := chains[b];
    if table[b] == Some(f) {
      UnlinkFirst(nodes, table, chains, f);
      return nodes - {f}, table[b := nodes[f].next], chains[b := RemoveAll(c, f)];
    }
    assert f in c && c != [];
    ChainLinks(nodes, table, chains, b);
    var prev, i := Predecessor(nodes, c, table[b].value, f);
    UnlinkLater(nodes, table, chains, b, i);
    nodes' := (nodes - {f})[prev := nodes[prev].(next := nodes[f].next)];
    table' := table;
    chains' := chains[b := RemoveAll(c, f)];
  }
}
