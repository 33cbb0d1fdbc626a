/** The breadth-first walk the hash-tree iterator performs: a visit list that
    starts at the head, and an index into it; each step appends the children
    of the record at the index and moves the index on by one. */
module BreadthFirst {
  import opened Common
  import opened Records
  import opened TreeShape

  /** The visit list a walk starts with: the head alone, or nothing for an
      empty tree. */
  function Start(head: Option<nat>): (visit: seq<nat>)
    ensures |visit| <= 1 && forall y :: y in visit <==> head == Some(y)
  {
    if head.Some? then [head.value] else []
  }

  /** `y` is owed a place in the visit list once the first `index` entries
      have been expanded: it is the head, or its parent is among them. */
  ghost predicate Due<K, T>(nodes: map<nat, Node<K, T>>, head: Option<nat>, visit: seq<nat>, index: nat, y: nat)
    requires y in nodes && index <= |visit|
  {
    head == Some(y) || (nodes[y].parent.Some? && nodes[y].parent.value in visit[..index])
  }

  /** The visit list holds live records and repeats none; the index lies
      within it. */
  ghost predicate Listed<K, T>(nodes: map<nat, Node<K, T>>, visit: seq<nat>, index: nat)
  {
    && index <= |visit|
    && NoDup(visit)
    && (forall i :: 0 <= i < |visit| ==> visit[i] in nodes)
  }

  /** The visit list holds exactly the records owed a place. */
  ghost predicate Owed<K, T>(nodes: map<nat, Node<K, T>>, head: Option<nat>, visit: seq<nat>, index: nat)
    requires index <= |visit|
  {
    forall y :: y in nodes ==> (y in visit <==> Due(nodes, head, visit, index, y))
  }

  /** The visit list runs in order of non-decreasing depth, and nothing in it
      lies more than one level below the record at the index. */
  ghost predicate Layered<K, T>(nodes: map<nat, Node<K, T>>, rank: map<nat, nat>, visit: seq<nat>, index: nat)
  {
    && (forall i, j :: 0 <= i <= j < |visit| ==> Depth(nodes, rank, visit[i]) <= Depth(nodes, rank, visit[j]))
    && (index < |visit| ==>
          forall j :: 0 <= j < |visit| ==> Depth(nodes, rank, visit[j]) <= Depth(nodes, rank, visit[index]) + 1)
  }

  /** The state of a breadth-first walk after `index` steps. */
  ghost predicate BfsInv<K, T>(nodes: map<nat, Node<K, T>>, head: Option<nat>, rank: map<nat, nat>,
                               visit: seq<nat>, index: nat)
  {
    Listed(nodes, visit, index) && Owed(nodes, head, visit, index) && Layered(nodes, rank, visit, index)
  }

  /** The walk from the head starts in a consistent state. */
  lemma BfsStart<K, T>(nodes: map<nat, Node<K, T>>, head: Option<nat>, rank: map<nat, nat>)
    requires TreeOk(nodes, head, rank)
    ensures BfsInv(nodes, head, rank, Start(head), 0)
  {
  }

  /** A child of an expanded record is one level below it and is not yet in
      the visit list. */
  lemma ChildIsNew<K, T>(nodes: map<nat, Node<K, T>>, head: Option<nat>, rank: map<nat, nat>,
                         visit: seq<nat>, index: nat, c: nat)
    requires TreeOk(nodes, head, rank) && Listed(nodes, visit, index) && Owed(nodes, head, visit, index)
    requires index < |visit| && c in nodes[visit[index]].childs
    ensures c in nodes && c !in visit
    ensures Depth(nodes, rank, c) == Depth(nodes, rank, visit[index]) + 1
  {
    var x := visit[index];
    assert c in nodes && nodes[c].parent == Some(x);
    assert HasParent(nodes, rank, c);
    assert x !in visit[..index] by {
      forall i | 0 <= i < index ensures visit[i] != x {
        DistinctAt(visit, i, index);
      }
    }
    assert !Due(nodes, head, visit, index, c);
  }

  /** One step of the walk (`operator++`) keeps it consistent. */
  lemma BfsStep<K, T>(nodes: map<nat, Node<K, T>>, head: Option<nat>, rank: map<nat, nat>,
                      visit: seq<nat>, index: nat)
    requires TreeOk(nodes, head, rank) && BfsInv(nodes, head, rank, visit, index) && index < |visit|
    ensures BfsInv(nodes, head, rank, visit + nodes[visit[index]].childs, index + 1)
  {
    var kids := nodes[visit[index]].childs;
    forall c | c in kids ensures c in nodes && c !in visit {
      ChildIsNew(nodes, head, rank, visit, index, c);
    }
    AppendNoDup(visit, kids);
    StepOwed(nodes, head, rank, visit, index);
    StepLayered(nodes, head, rank, visit, index);
  }

  /** The records owed a place after a step are the ones before it plus the
      children of the record expanded. */
  lemma StepOwed<K, T>(nodes: map<nat, Node<K, T>>, head: Option<nat>, rank: map<nat, nat>,
                       visit: seq<nat>, index: nat)
    requires TreeOk(nodes, head, rank) && Listed(nodes, visit, index) && Owed(nodes, head, visit, index)
    requires index < |visit|
    ensures Owed(nodes, head, visit + nodes[visit[index]].childs, index + 1)
  {
    var x := visit[index];
    var visit' := visit + nodes[x].childs;
    assert visit'[..index + 1] == visit[..index] + [x];
    forall y | y in nodes ensures (y in visit' <==> Due(nodes, head, visit', index + 1, y)) {
      assert y in visit <==> Due(nodes, head, visit, index, y);
      if nodes[y].parent == Some(x) {
        assert HasParent(nodes, rank, y);
      }
    }
  }

  /** A step keeps the visit list in order of depth. */
  lemma StepLayered<K, T>(nodes: map<nat, Node<K, T>>, head: Option<nat>, rank: map<nat, nat>,
                          visit: seq<nat>, index: nat)
    requires TreeOk(nodes, head, rank) && Listed(nodes, visit, index) && Owed(nodes, head, visit, index)
    requires Layered(nodes, rank, visit, index) && index < |visit|
    ensures Layered(nodes, rank, visit + nodes[visit[index]].childs, index + 1)
  {
    var x := visit[index];
    var kids := nodes[x].childs;
    var visit' := visit + kids;
    var d := Depth(nodes, rank, x);
    forall c | c in kids ensures Depth(nodes, rank, c) == d + 1 {
      ChildIsNew(nodes, head, rank, visit, index, c);
    }
    forall i, j | 0 <= i <= j < |visit'|
      ensures Depth(nodes, rank, visit'[i]) <= Depth(nodes, rank, visit'[j])
    {
      if j >= |visit| {
        assert visit'[j] in kids;
        if i >= |visit| {
          assert visit'[i] in kids;
        }
      }
    }
    if index + 1 < |visit'| {
      var y := visit'[index + 1];
      assert d <= Depth(nodes, rank, y) by {
        if index + 1 >= |visit| {
          assert y in kids;
        }
      }
      forall j | 0 <= j < |visit'| ensures Depth(nodes, rank, visit'[j]) <= Depth(nodes, rank, y) + 1 {
        if j >= |visit| {
          assert visit'[j] in kids;
        }
      }
    }
  }

  /** Once every entry has been expanded, every live record has been
      reached. */
  lemma {:induction false} Reached<K, T>(nodes: map<nat, Node<K, T>>, head: Option<nat>, rank: map<nat, nat>,
                                         visit: seq<nat>, y: nat)
    requires TreeOk(nodes, head, rank) && BfsInv(nodes, head, rank, visit, |visit|) && y in nodes
    ensures y in visit
    decreases rank[y]
  {
    assert visit[..|visit|] == visit;
    if head != Some(y) {
      assert HasParent(nodes, rank, y);
      Reached(nodes, head, rank, visit, nodes[y].parent.value);
    }
    assert Due(nodes, head, visit, |visit|, y);
  }

  /** The walk never runs dry early and ends exactly after one step per
      record: the index reaches the end of the visit list precisely when it
      reaches the tree's size, and then every live record has been visited
      exactly once. */
  lemma BfsEnd<K, T>(nodes: map<nat, Node<K, T>>, head: Option<nat>, rank: map<nat, nat>,
                     visit: seq<nat>, index: nat)
    requires TreeOk(nodes, head, rank) && BfsInv(nodes, head, rank, visit, index)
    ensures |visit| <= |nodes|
    ensures index == |visit| <==> index == |nodes|
    ensures index == |nodes| ==> Elems(visit) == nodes.Keys
  {
    NoDupCard(visit);
    assert Elems(visit) <= nodes.Keys;
    assert |nodes.Keys - Elems(visit)| == |nodes.Keys| - |Elems(visit)|;
    if index == |visit| {
      forall y | y in nodes ensures y in Elems(visit) {
        Reached(nodes, head, rank, visit, y);
      }
    }
    if index == |nodes| {
      SubsetCard(Elems(visit), nodes.Keys);
    }
  }
}
