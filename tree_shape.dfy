/** The tree the hash-tree's records form through their `parent` and `childs`
    links.  `rank` is a ghost numbering in which every parent ranks below its
    children, which makes the links acyclic. */
module TreeShape {
  import opened Common
  import opened Records

  /** `x` has a live parent, ranked below it, that lists `x` among its children. */
  ghost predicate HasParent<K, T>(nodes: map<nat, Node<K, T>>, rank: map<nat, nat>, x: nat)
  {
    && x in nodes && x in rank
    && nodes[x].parent.Some?
    && var p := nodes[x].parent.value;
       p in nodes && p in rank && rank[p] < rank[x] && x in nodes[p].childs
  }

  /** The head is the only record without a parent (and there is no head
      exactly when the store is empty); every other record has a parent
      ranked below it that lists it as a child. */
  ghost predicate Rooted<K, T>(nodes: map<nat, Node<K, T>>, head: Option<nat>, rank: map<nat, nat>)
  {
    && rank.Keys == nodes.Keys
    && (head.None? ==> nodes == map[])
    && (head.Some? ==> head.value in nodes && nodes[head.value].parent.None?)
    && (forall x {:trigger HasParent(nodes, rank, x)} :: x in nodes && head != Some(x) ==> HasParent(nodes, rank, x))
  }

  /** Every child link points to a live record whose parent link points back. */
  ghost predicate LinksBack<K, T>(nodes: map<nat, Node<K, T>>)
  {
    forall x, c {:trigger c in nodes[x].childs} :: x in nodes && c in nodes[x].childs ==> c in nodes && nodes[c].parent == Some(x)
  }

  /** No child list repeats a slot. */
  ghost predicate ListsDistinct<K, T>(nodes: map<nat, Node<K, T>>)
  {
    forall x :: x in nodes ==> NoDup(nodes[x].childs)
  }

  /** One rooted tree, never a forest. */
  ghost predicate TreeOk<K, T>(nodes: map<nat, Node<K, T>>, head: Option<nat>, rank: map<nat, nat>)
  {
    Rooted(nodes, head, rank) && LinksBack(nodes) && ListsDistinct(nodes)
  }

  /** `x` is `a` or lies below `a`, following parent links. */
  ghost predicate Descends<K, T>(nodes: map<nat, Node<K, T>>, rank: map<nat, nat>, x: nat, a: nat)
    decreases if x in rank then rank[x] else 0
  {
    || x == a
    || (&& x in nodes && x in rank && nodes[x].parent.Some?
        && nodes[x].parent.value in rank && rank[nodes[x].parent.value] < rank[x]
        && Descends(nodes, rank, nodes[x].parent.value, a))
  }

  /** The slots of `a` and all its descendants. */
  ghost function Subtree<K, T>(nodes: map<nat, Node<K, T>>, rank: map<nat, nat>, a: nat): set<nat>
  {
    set x | x in nodes && Descends(nodes, rank, x, a)
  }

  /** Number of parent links from `x` up to the root. */
  ghost function Depth<K, T>(nodes: map<nat, Node<K, T>>, rank: map<nat, nat>, x: nat): nat
    decreases if x in rank then rank[x] else 0
  {
    if x in nodes && x in rank && nodes[x].parent.Some? && nodes[x].parent.value in rank
       && rank[nodes[x].parent.value] < rank[x]
    then Depth(nodes, rank, nodes[x].parent.value) + 1
    else 0
  }

  /** A proper descendant ranks strictly above its ancestor. */
  lemma {:induction false} DescendsRank<K, T>(nodes: map<nat, Node<K, T>>, rank: map<nat, nat>, x: nat, a: nat)
    requires Descends(nodes, rank, x, a) && x != a
    ensures x in rank && a in rank && rank[a] < rank[x]
    decreases if x in rank then rank[x] else 0
  {
    var p := nodes[x].parent.value;
    if p != a {
      DescendsRank(nodes, rank, p, a);
    }
  }

  /** Every live record lies below the head: the records form one tree. */
  lemma {:induction false} ReachesHead<K, T>(nodes: map<nat, Node<K, T>>, head: Option<nat>, rank: map<nat, nat>, x: nat)
    requires TreeOk(nodes, head, rank) && x in nodes
    ensures head.Some? && Descends(nodes, rank, x, head.value)
    decreases rank[x]
  {
    if head != Some(x) {
      assert HasParent(nodes, rank, x);
      ReachesHead(nodes, head, rank, nodes[x].parent.value);
    }
  }

  /** The first record stored becomes the head of a one-node tree. */
  lemma PlantKeepsTree<K, T>(id: nat, n: Node<K, T>)
    requires n.parent == None && n.childs == []
    ensures TreeOk(map[id := n], Some(id), map[id := 0])
  {
  }

  /** Both stores hold the same slots with the same parent and child links. */
  ghost predicate SameLinks<K, T>(nodes: map<nat, Node<K, T>>, nodes': map<nat, Node<K, T>>)
  {
    && nodes'.Keys == nodes.Keys
    && forall y :: y in nodes ==> nodes'[y].parent == nodes[y].parent && nodes'[y].childs == nodes[y].childs
  }

  /** The tree only looks at the parent and child links: two stores with the
      same view are trees alike. */
  lemma TreeFrame<K, T>(nodes: map<nat, Node<K, T>>, nodes': map<nat, Node<K, T>>, head: Option<nat>, rank: map<nat, nat>)
    requires TreeOk(nodes, head, rank) && Agree(nodes', nodes)
    ensures TreeOk(nodes', head, rank)
  {
    forall y | y in nodes ensures nodes'[y].parent == nodes[y].parent && nodes'[y].childs == nodes[y].childs {
      assert Alike(nodes'[y], nodes[y]);
    }
    FrameRooted(nodes, nodes', head, rank);
    FrameLinks(nodes, nodes');
  }

  /** The parent-link part of `TreeFrame`. */
  lemma FrameRooted<K, T>(nodes: map<nat, Node<K, T>>, nodes': map<nat, Node<K, T>>, head: Option<nat>, rank: map<nat, nat>)
    requires Rooted(nodes, head, rank) && SameLinks(nodes, nodes')
    ensures Rooted(nodes', head, rank)
  {
    forall x | x in nodes' && head != Some(x) ensures HasParent(nodes', rank, x) {
      assert HasParent(nodes, rank, x);
    }
  }

  /** The child-list part of `TreeFrame`. */
  lemma FrameLinks<K, T>(nodes: map<nat, Node<K, T>>, nodes': map<nat, Node<K, T>>)
    requires LinksBack(nodes) && ListsDistinct(nodes) && SameLinks(nodes, nodes')
    ensures LinksBack(nodes') && ListsDistinct(nodes')
  {
  }

  /** `insert` under a parent: the record `n` is stored at the fresh slot
      `id` as the last child of `p`. */
  function Adopt<K, T>(nodes: map<nat, Node<K, T>>, p: nat, id: nat, n: Node<K, T>): map<nat, Node<K, T>>
    requires p in nodes
  {
    nodes[p := nodes[p].(childs := nodes[p].childs + [id])][id := n.(parent := Some(p))]
  }

  /** The links `insert` under a parent adds for the record already stored at
      `id`: `id` becomes the last child of `p`, and `p` its parent. */
  function Link<K, T>(nodes: map<nat, Node<K, T>>, p: nat, id: nat): map<nat, Node<K, T>>
    requires p in nodes && id in nodes
  {
    nodes[p := nodes[p].(childs := nodes[p].childs + [id])][id := nodes[id].(parent := Some(p))]
  }

  /** Appending a new childless record as the last child of a live parent
      keeps one rooted tree. */
  lemma AttachKeepsTree<K, T>(nodes: map<nat, Node<K, T>>, head: Option<nat>, rank: map<nat, nat>,
                              p: nat, id: nat, n: Node<K, T>)
    requires TreeOk(nodes, head, rank) && p in nodes && id !in nodes && n.childs == []
    ensures TreeOk(Adopt(nodes, p, id, n), head, rank[id := rank[p] + 1])
  {
    var nodes' := Adopt(nodes, p, id, n);
    var rank' := rank[id := rank[p] + 1];
    forall x | x in nodes' && head != Some(x) ensures HasParent(nodes', rank', x) {
      if x != id {
        assert HasParent(nodes, rank, x);
      }
    }
    assert Rooted(nodes', head, rank');
    AttachLinks(nodes, p, id, n);
  }

  /** The child-list half of `AttachKeepsTree`. */
  lemma AttachLinks<K, T>(nodes: map<nat, Node<K, T>>, p: nat, id: nat, n: Node<K, T>)
    requires LinksBack(nodes) && ListsDistinct(nodes) && p in nodes && id !in nodes && n.childs == []
    ensures LinksBack(Adopt(nodes, p, id, n)) && ListsDistinct(Adopt(nodes, p, id, n))
  {
    assert id !in nodes[p].childs;
    AppendNoDup(nodes[p].childs, [id]);
  }

  /** `remove_child`, guarded as its callers guard it: a record with a live
      parent is dropped from that parent's child list; otherwise nothing
      changes. */
  function Detach<K, T>(nodes: map<nat, Node<K, T>>, x: nat): map<nat, Node<K, T>>
  {
    if x in nodes && nodes[x].parent.Some? && nodes[x].parent.value in nodes then
      var q := nodes[x].parent.value;
      nodes[q := nodes[q].(childs := RemoveAll(nodes[q].childs, x))]
    else
      nodes
  }

  /** An erased record lies below `x` and, unless it is `x`, its parent was
      erased before it. */
  ghost predicate ErasedOk<K, T>(tree: map<nat, Node<K, T>>, rank: map<nat, nat>, x: nat, live: set<nat>, y: nat)
  {
    y in tree && y !in live ==>
      && Descends(tree, rank, y, x)
      && (y != x ==> tree[y].parent.Some? && tree[y].parent.value !in live)
  }

  /** A queued record is live, lies below `x`, and is `x` or has an erased parent. */
  ghost predicate QueuedOk<K, T>(tree: map<nat, Node<K, T>>, rank: map<nat, nat>, x: nat, live: set<nat>, q: nat)
  {
    && q in tree && q in live && Descends(tree, rank, q, x)
    && (q != x ==> tree[q].parent.Some? && tree[q].parent.value !in live)
  }

  /** A live record below `x` that is not queued is not `x` and has a live parent. */
  ghost predicate LiveOk<K, T>(tree: map<nat, Node<K, T>>, rank: map<nat, nat>, x: nat, live: set<nat>,
                               queue: seq<nat>, y: nat)
  {
    y in tree && y in live && Descends(tree, rank, y, x) && y !in queue ==>
      y != x && tree[y].parent.Some? && tree[y].parent.value in live
  }

  /** Progress of the breadth-first deletion of the subtree of `x` from
      `tree`: `live` is what is still stored, `queue` what is pending. */
  ghost predicate CascadeInv<K, T>(tree: map<nat, Node<K, T>>, rank: map<nat, nat>, x: nat, live: set<nat>, queue: seq<nat>)
  {
    && live <= tree.Keys
    && NoDup(queue)
    && (forall y {:trigger ErasedOk(tree, rank, x, live, y)} :: ErasedOk(tree, rank, x, live, y))
    && (forall i :: 0 <= i < |queue| ==> QueuedOk(tree, rank, x, live, queue[i]))
    && (forall y {:trigger LiveOk(tree, rank, x, live, queue, y)} :: LiveOk(tree, rank, x, live, queue, y))
  }

  /** The cascade starts with everything live and only `x` queued. */
  lemma CascadeStart<K, T>(tree: map<nat, Node<K, T>>, head: Option<nat>, rank: map<nat, nat>, x: nat)
    requires TreeOk(tree, head, rank) && x in tree
    ensures CascadeInv(tree, rank, x, tree.Keys, [x])
  {
    forall y ensures LiveOk(tree, rank, x, tree.Keys, [x], y) {
    }
  }

  /** A child of the front of the queue is live, not `x`, not yet queued, and
      may be queued once the front is erased. */
  lemma KidOfFront<K, T>(tree: map<nat, Node<K, T>>, head: Option<nat>, rank: map<nat, nat>, x: nat,
                         live: set<nat>, queue: seq<nat>, c: nat)
    requires TreeOk(tree, head, rank) && x in tree
    requires CascadeInv(tree, rank, x, live, queue) && queue != []
    requires c in tree[queue[0]].childs
    ensures c != x && c != queue[0] && c in live && c !in queue
    ensures QueuedOk(tree, rank, x, live - {queue[0]}, c)
  {
    var f := queue[0];
    assert QueuedOk(tree, rank, x, live, f);
    assert c in tree && tree[c].parent == Some(f);
    assert HasParent(tree, rank, c);
    if f != x {
      DescendsRank(tree, rank, f, x);
    }
    assert ErasedOk(tree, rank, x, live, c);
  }

  /** One round of the cascade: the front of the queue is erased and its
      children are queued behind the rest. */
  lemma CascadeStep<K, T>(tree: map<nat, Node<K, T>>, head: Option<nat>, rank: map<nat, nat>, x: nat,
                          live: set<nat>, queue: seq<nat>)
    requires TreeOk(tree, head, rank) && x in tree
    requires CascadeInv(tree, rank, x, live, queue) && queue != []
    ensures CascadeInv(tree, rank, x, live - {queue[0]}, queue[1..] + tree[queue[0]].childs)
  {
    var f := queue[0];
    var live' := live - {f};
    var kids := tree[f].childs;
    var queue' := queue[1..] + kids;
    assert queue == [f] + queue[1..];
    assert QueuedOk(tree, rank, x, live, f);
    forall c | c in kids ensures c !in queue[1..] && QueuedOk(tree, rank, x, live', c) {
      KidOfFront(tree, head, rank, x, live, queue, c);
    }
    NoDupTail(queue);
    assert NoDup(kids);
    AppendNoDup(queue[1..], kids);
    forall i | 0 <= i < |queue'| ensures QueuedOk(tree, rank, x, live', queue'[i]) {
      if i < |queue| - 1 {
        DistinctAt(queue, 0, i + 1);
        assert queue'[i] == queue[i + 1] != f;
        assert QueuedOk(tree, rank, x, live, queue[i + 1]);
      } else {
        assert queue'[i] in kids;
      }
    }
    forall y ensures ErasedOk(tree, rank, x, live', y) {
      assert ErasedOk(tree, rank, x, live, y);
    }
    forall y ensures LiveOk(tree, rank, x, live', queue', y) {
      assert LiveOk(tree, rank, x, live, queue, y);
      if y in tree && y in live' && Descends(tree, rank, y, x) && y !in queue' {
        assert y !in queue;
        assert HasParent(tree, rank, y);
      }
    }
  }

  /** When the queue is empty, no record below `x` (nor `x` itself) is live. */
  lemma {:induction false} CascadeDoneAt<K, T>(tree: map<nat, Node<K, T>>, head: Option<nat>, rank: map<nat, nat>, x: nat,
                                               live: set<nat>, y: nat)
    requires TreeOk(tree, head, rank) && x in tree
    requires CascadeInv(tree, rank, x, live, [])
    requires y in tree && Descends(tree, rank, y, x)
    ensures y !in live
    decreases rank[y]
  {
    assert LiveOk(tree, rank, x, live, [], y);
    if y != x && tree[y].parent.Some? && tree[y].parent.value in tree {
      var p := tree[y].parent.value;
      assert HasParent(tree, rank, y);
      CascadeDoneAt(tree, head, rank, x, live, p);
    }
  }

  /** The cascade erases exactly the subtree of `x`. */
  lemma CascadeDone<K, T>(tree: map<nat, Node<K, T>>, head: Option<nat>, rank: map<nat, nat>, x: nat, live: set<nat>)
    requires TreeOk(tree, head, rank) && x in tree
    requires CascadeInv(tree, rank, x, live, [])
    ensures live == tree.Keys - Subtree(tree, rank, x)
  {
    forall y | y in tree && Descends(tree, rank, y, x) ensures y !in live {
      CascadeDoneAt(tree, head, rank, x, live, y);
    }
    forall y | y in tree && y !in live ensures Descends(tree, rank, y, x) {
      assert ErasedOk(tree, rank, x, live, y);
    }
  }

  /** The parent of `x` is outside the subtree of `x`. */
  lemma ParentOutside<K, T>(nodes: map<nat, Node<K, T>>, head: Option<nat>, rank: map<nat, nat>, x: nat)
    requires TreeOk(nodes, head, rank) && x in nodes && head != Some(x)
    ensures nodes[x].parent.Some? && nodes[x].parent.value in nodes
    ensures nodes[x].parent.value !in Subtree(nodes, rank, x)
  {
    assert HasParent(nodes, rank, x);
    var q := nodes[x].parent.value;
    if Descends(nodes, rank, q, x) {
      DescendsRank(nodes, rank, q, x);
    }
  }

  /** Removing the subtree of a non-head `x`, after detaching `x` from its
      parent, leaves one rooted tree. */
  lemma PruneKeepsTree<K, T>(nodes: map<nat, Node<K, T>>, head: Option<nat>, rank: map<nat, nat>, x: nat)
    requires TreeOk(nodes, head, rank) && x in nodes && head != Some(x)
    ensures nodes[x].parent.Some? && nodes[x].parent.value in nodes
    ensures var s := Subtree(nodes, rank, x);
            TreeOk(Detach(nodes, x) - s, head, rank - s)
  {
    assert HasParent(nodes, rank, x);
    var s := Subtree(nodes, rank, x);
    PruneRooted(nodes, head, rank, x, s);
    PruneLinks(nodes, rank, x, s);
    PruneDistinct(nodes, x, s);
  }

  /** The parent-link part of `PruneKeepsTree`. */
  lemma PruneRooted<K, T>(nodes: map<nat, Node<K, T>>, head: Option<nat>, rank: map<nat, nat>, x: nat, s: set<nat>)
    requires TreeOk(nodes, head, rank) && x in nodes && head != Some(x) && HasParent(nodes, rank, x)
    requires s == Subtree(nodes, rank, x)
    ensures Rooted(Detach(nodes, x) - s, head, rank - s)
  {
    var nodes', rank' := Detach(nodes, x) - s, rank - s;
    ReachesHead(nodes, head, rank, x);
    assert head.value !in s;
    forall y | y in nodes' && head != Some(y) ensures HasParent(nodes', rank', y) {
      assert HasParent(nodes, rank, y);
      assert !Descends(nodes, rank, y, x);
    }
  }

  /** The child-link part of `PruneKeepsTree`. */
  lemma PruneLinks<K, T>(nodes: map<nat, Node<K, T>>, rank: map<nat, nat>, x: nat, s: set<nat>)
    requires LinksBack(nodes) && x in nodes && nodes[x].parent.Some? && nodes[x].parent.value in nodes
    requires s == Subtree(nodes, rank, x)
    ensures LinksBack(Detach(nodes, x) - s)
  {
    var nodes' := Detach(nodes, x) - s;
    forall z, c | z in nodes' && c in nodes'[z].childs ensures c in nodes' && nodes'[c].parent == Some(z) {
      assert c in nodes[z].childs && c != x;
      assert !Descends(nodes, rank, z, x);
    }
  }

  /** The duplicate-free part of `PruneKeepsTree`. */
  lemma PruneDistinct<K, T>(nodes: map<nat, Node<K, T>>, x: nat, s: set<nat>)
    requires ListsDistinct(nodes) && x in nodes && nodes[x].parent.Some? && nodes[x].parent.value in nodes
    ensures ListsDistinct(Detach(nodes, x) - s)
  {
    var q := nodes[x].parent.value;
    RemoveAllNoDup(nodes[q].childs, x);
  }

  /** `_set_parent`: detach `x` from its parent, insert it into `p`'s child
      list at offset `pos`, and point its parent link at `p`. */
  function Reparent<K, T>(nodes: map<nat, Node<K, T>>, x: nat, p: nat, pos: nat): map<nat, Node<K, T>>
    requires x in nodes && p in nodes && pos <= |Detach(nodes, x)[p].childs|
  {
    var n1 := Detach(nodes, x);
    var n2 := n1[p := n1[p].(childs := InsertAt(n1[p].childs, pos, x))];
    n2[x := n2[x].(parent := Some(p))]
  }

  /** The offset just past the last child of `p` once `x` has left its old
      parent: where `set_parent` without an offset puts `x`. */
  function EndOffset<K, T>(nodes: map<nat, Node<K, T>>, x: nat, p: nat): nat
    requires p in nodes
  {
    DetachFields(nodes, x);
    |Detach(nodes, x)[p].childs|
  }

  /** The ranks after moving the subtree of `x` under `p`: the whole subtree
      is lifted just enough to rank above `p`. */
  ghost function Lift<K, T>(nodes: map<nat, Node<K, T>>, rank: map<nat, nat>, x: nat, p: nat): map<nat, nat>
    requires x in rank && p in rank
  {
    var delta := if rank[p] + 1 > rank[x] then rank[p] + 1 - rank[x] else 0;
    map y | y in rank :: if Descends(nodes, rank, y, x) then rank[y] + delta else rank[y]
  }

  /** Moving `x` under a parent `p` that is not below `x` keeps one rooted
      tree; in particular `x` is not the head. */
  lemma ReparentKeepsTree<K, T>(nodes: map<nat, Node<K, T>>, head: Option<nat>, rank: map<nat, nat>,
                                x: nat, p: nat, pos: nat)
    requires TreeOk(nodes, head, rank) && x in nodes && p in nodes && !Descends(nodes, rank, p, x)
    ensures head != Some(x) && nodes[x].parent.Some? && nodes[x].parent.value in nodes
    ensures pos <= |Detach(nodes, x)[p].childs| ==>
              TreeOk(Reparent(nodes, x, p, pos), head, Lift(nodes, rank, x, p))
  {
    ReachesHead(nodes, head, rank, p);
    assert head != Some(x);
    assert HasParent(nodes, rank, x);
    if pos <= |Detach(nodes, x)[p].childs| {
      ReparentRooted(nodes, head, rank, x, p, pos);
      ReparentLinks(nodes, x, p, pos);
      ReparentDistinct(nodes, x, p, pos);
    }
  }

  /** The parent-link part of `ReparentKeepsTree`. */
  lemma ReparentRooted<K, T>(nodes: map<nat, Node<K, T>>, head: Option<nat>, rank: map<nat, nat>,
                             x: nat, p: nat, pos: nat)
    requires Rooted(nodes, head, rank) && x in nodes && p in nodes && !Descends(nodes, rank, p, x)
    requires head != Some(x) && HasParent(nodes, rank, x)
    requires pos <= |Detach(nodes, x)[p].childs|
    ensures Rooted(Reparent(nodes, x, p, pos), head, Lift(nodes, rank, x, p))
  {
    var nodes', rank' := Reparent(nodes, x, p, pos), Lift(nodes, rank, x, p);
    forall y | y in nodes' && head != Some(y) ensures HasParent(nodes', rank', y) {
      if y == x {
        assert rank'[p] == rank[p];
        assert x in nodes'[p].childs;
      } else {
        ReparentOther(nodes, head, rank, x, p, pos, y);
      }
    }
  }

  /** After the move, a record other than `x` keeps its parent, which still
      ranks below it. */
  lemma ReparentOther<K, T>(nodes: map<nat, Node<K, T>>, head: Option<nat>, rank: map<nat, nat>,
                            x: nat, p: nat, pos: nat, y: nat)
    requires Rooted(nodes, head, rank) && x in nodes && p in nodes && !Descends(nodes, rank, p, x)
    requires head != Some(x) && HasParent(nodes, rank, x)
    requires pos <= |Detach(nodes, x)[p].childs|
    requires y in nodes && y != x && head != Some(y)
    ensures HasParent(Reparent(nodes, x, p, pos), Lift(nodes, rank, x, p), y)
  {
    var nodes', rank' := Reparent(nodes, x, p, pos), Lift(nodes, rank, x, p);
    assert HasParent(nodes, rank, y);
    var r := nodes[y].parent.value;
    assert nodes'[y].parent == Some(r);
    assert y in nodes'[r].childs;
    if Descends(nodes, rank, y, x) {
      assert Descends(nodes, rank, r, x);
    } else {
      assert !Descends(nodes, rank, r, x);
    }
  }

  /** The child-link part of `ReparentKeepsTree`. */
  lemma ReparentLinks<K, T>(nodes: map<nat, Node<K, T>>, x: nat, p: nat, pos: nat)
    requires LinksBack(nodes) && x in nodes && p in nodes && x != p
    requires nodes[x].parent.Some? && nodes[x].parent.value in nodes
    requires pos <= |Detach(nodes, x)[p].childs|
    ensures LinksBack(Reparent(nodes, x, p, pos))
  {
    var nodes' := Reparent(nodes, x, p, pos);
    forall z, c | z in nodes' && c in nodes'[z].childs ensures c in nodes' && nodes'[c].parent == Some(z) {
      if c != x {
        assert c in nodes[z].childs;
      }
    }
  }

  /** The duplicate-free part of `ReparentKeepsTree`. */
  lemma ReparentDistinct<K, T>(nodes: map<nat, Node<K, T>>, x: nat, p: nat, pos: nat)
    requires LinksBack(nodes) && ListsDistinct(nodes) && x in nodes && p in nodes && x != p
    requires nodes[x].parent.Some? && nodes[x].parent.value in nodes
    requires pos <= |Detach(nodes, x)[p].childs|
    ensures ListsDistinct(Reparent(nodes, x, p, pos))
  {
    var q := nodes[x].parent.value;
    var n1 := Detach(nodes, x);
    RemoveAllNoDup(nodes[q].childs, x);
    assert x !in n1[p].childs;
    InsertAtNoDup(n1[p].childs, pos, x);
  }

  /** `remove_child` on a record with a live parent `q`: `q`'s child list
      loses exactly `x`, the other children keeping their order, and every
      other record is unchanged. */
  lemma DetachEffect<K, T>(nodes: map<nat, Node<K, T>>, head: Option<nat>, rank: map<nat, nat>, x: nat)
    requires TreeOk(nodes, head, rank) && x in nodes && head != Some(x)
    ensures nodes[x].parent.Some? && nodes[x].parent.value in nodes
    ensures var q := nodes[x].parent.value;
            var s := nodes[q].childs;
            && Detach(nodes, x).Keys == nodes.Keys
            && (forall y :: y in nodes && y != q ==> Detach(nodes, x)[y] == nodes[y])
            && Detach(nodes, x)[q] == nodes[q].(childs := RemoveAll(s, x))
            && exists k :: 0 <= k < |s| && s[k] == x && RemoveAll(s, x) == s[..k] + s[k + 1..]
  {
    assert HasParent(nodes, rank, x);
    var q := nodes[x].parent.value;
    var s := nodes[q].childs;
    var k :| 0 <= k < |s| && s[k] == x;
    RemoveAllAt(s, k);
  }

  /** The store after `insert` under `p`, computed on a store `nodes` that
      holds the records of `before` plus the new childless record at `id`
      (chain links aside), agrees with `Adopt` on everything but chain links. */
  lemma AdoptView<K, T>(before: map<nat, Node<K, T>>, nodes: map<nat, Node<K, T>>, p: nat, id: nat, n: Node<K, T>)
    requires p in before && id !in before && nodes.Keys == before.Keys + {id}
    requires forall y :: y in before ==> Alike(nodes[y], before[y])
    requires Alike(nodes[id], n)
    ensures Agree(Link(nodes, p, id), Adopt(before, p, id, n))
  {
    var nodes' := Link(nodes, p, id);
    var adopted := Adopt(before, p, id, n);
    forall y | y in nodes' ensures Alike(nodes'[y], adopted[y]) {
      if y == p {
        assert nodes[p].childs == before[p].childs;
      }
    }
  }

  /** The walk `set_parent` needs to refuse a cycle: follow parent links up
      from `y` until `a` or the root is reached. */
  method IsBelow<K, T>(nodes: map<nat, Node<K, T>>, ghost head: Option<nat>, ghost rank: map<nat, nat>,
                       y: nat, a: nat) returns (below: bool)
    requires TreeOk(nodes, head, rank) && y in nodes
    ensures below <==> Descends(nodes, rank, y, a)
  {
    var cur := y;
    while cur != a && nodes[cur].parent.Some?
      invariant cur in nodes
      invariant Descends(nodes, rank, y, a) <==> Descends(nodes, rank, cur, a)
      decreases rank[cur]
    {
      assert HasParent(nodes, rank, cur);
      cur := nodes[cur].parent.value;
    }
    below := cur == a;
  }

  /** `remove_child` changes tree links only. */
  lemma DetachFields<K, T>(nodes: map<nat, Node<K, T>>, x: nat)
    ensures SameRecords(nodes, Detach(nodes, x))
  {
  }

  /** `_set_parent` changes tree links only. */
  lemma ReparentFields<K, T>(nodes: map<nat, Node<K, T>>, x: nat, p: nat, pos: nat)
    requires x in nodes && p in nodes && pos <= |Detach(nodes, x)[p].childs|
    ensures SameRecords(nodes, Reparent(nodes, x, p, pos))
  {
    var n1 := Detach(nodes, x);
    DetachFields(nodes, x);
    var n2 := n1[p := n1[p].(childs := InsertAt(n1[p].childs, pos, x))];
    assert SameRecords(n1, n2);
  }
}
