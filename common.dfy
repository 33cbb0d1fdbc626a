/** Small value types and sequence helpers shared by the hash-tree model. */
module Common {

  /** A slot identifier or the empty sentinel (`_EMPTY_INDEX` in the source). */
  datatype Option<T> = None | Some(value: T)

  /** Offsets `i < j` of `s` hold different slot identifiers. */
  ghost predicate Apart(s: seq<nat>, i: int, j: int)
  {
    0 <= i < j < |s| ==> s[i] != s[j]
  }

  /** No slot identifier occurs twice. */
  ghost predicate NoDup(s: seq<nat>)
  {
    forall i, j {:trigger Apart(s, i, j)} :: Apart(s, i, j)
  }

  /** The elements of a sequence, as a set. */
  ghost function Elems(s: seq<nat>): set<nat>
  {
    set x | x in s
  }

  /** Every occurrence of `x` dropped, the other elements kept in order
      (the erase-remove idiom on a child list). */
  function RemoveAll(s: seq<nat>, x: nat): (r: seq<nat>)
    ensures forall y :: y in r <==> y in s && y != x
    ensures |r| <= |s|
    ensures x !in s ==> r == s
  {
    if s == [] then []
    else if s[0] == x then RemoveAll(s[1..], x)
    else [s[0]] + RemoveAll(s[1..], x)
  }

  /** `x` placed before the element at offset `pos` (at the end when `pos == |s|`). */
  function InsertAt(s: seq<nat>, pos: nat, x: nat): (r: seq<nat>)
    requires pos <= |s|
    ensures |r| == |s| + 1 && r[pos] == x
    ensures r[..pos] == s[..pos] && r[pos + 1..] == s[pos..]
    ensures forall y :: y in r <==> y == x || y in s
  {
    s[..pos] + [x] + s[pos..]
  }

  /** Two different offsets of a duplicate-free list hold different elements. */
  lemma DistinctAt(s: seq<nat>, i: nat, j: nat)
    requires NoDup(s) && i < |s| && j < |s| && i != j
    ensures s[i] != s[j]
  {
    if i < j {
      assert Apart(s, i, j);
    } else {
      assert Apart(s, j, i);
    }
  }

  /** The tail of a duplicate-free list is duplicate-free and misses its head. */
  lemma NoDupTail(s: seq<nat>)
    requires NoDup(s) && s != []
    ensures NoDup(s[1..]) && s[0] !in s[1..]
  {
    var t := s[1..];
    forall i, j ensures Apart(t, i, j) {
      if 0 <= i < j < |t| {
        assert Apart(s, i + 1, j + 1);
      }
    }
    forall k | 0 <= k < |t| ensures t[k] != s[0] {
      assert Apart(s, 0, k + 1);
    }
  }

  /** Removing from a list without duplicates keeps it without duplicates. */
  lemma {:induction false} RemoveAllNoDup(s: seq<nat>, x: nat)
    requires NoDup(s)
    ensures NoDup(RemoveAll(s, x))
  {
    if s != [] {
      NoDupTail(s);
      RemoveAllNoDup(s[1..], x);
      if s[0] != x {
        var t := RemoveAll(s[1..], x);
        assert s[0] !in t;
        var r := [s[0]] + t;
        forall i, j ensures Apart(r, i, j) {
          if 0 < i < j < |r| {
            assert r[i] == t[i - 1] && r[j] == t[j - 1];
            assert Apart(t, i - 1, j - 1);
          } else if 0 == i < j < |r| {
            assert r[j] in t;
          }
        }
      }
    }
  }

  /** In a list without duplicates, removing a member deletes exactly its one
      position: the others keep their relative order. */
  lemma {:induction false} RemoveAllAt(s: seq<nat>, k: nat)
    requires NoDup(s) && k < |s|
    ensures RemoveAll(s, s[k]) == s[..k] + s[k + 1..]
  {
    NoDupTail(s);
    if k == 0 {
      assert s[1..] == s[..k] + s[k + 1..];
    } else {
      RemoveAllAt(s[1..], k - 1);
      DistinctAt(s, 0, k);
      assert s[1..][k - 1] == s[k];
      assert s[1..][..k - 1] + s[1..][k..] == s[1..k] + s[k + 1..];
      assert [s[0]] + (s[1..k] + s[k + 1..]) == s[..k] + s[k + 1..];
    }
  }

  /** Deleting the element at offset `k`: the ones before keep their offset,
      the ones after move down by one, and no duplicate appears. */
  lemma DeleteAt(s: seq<nat>, k: nat)
    requires k < |s|
    ensures var r := s[..k] + s[k + 1..];
            && |r| == |s| - 1
            && (forall j :: 0 <= j < k ==> r[j] == s[j])
            && (forall j :: k <= j < |r| ==> r[j] == s[j + 1])
            && (NoDup(s) ==> NoDup(r))
  {
    var r := s[..k] + s[k + 1..];
    if NoDup(s) {
      forall i, j | 0 <= i < j < |r| ensures Apart(r, i, j) {
        var i0 := if i < k then i else i + 1;
        var j0 := if j < k then j else j + 1;
        assert r[i] == s[i0] && r[j] == s[j0];
        assert Apart(s, i0, j0);
      }
    }
  }

  /** Inserting an absent element keeps a list free of duplicates. */
  lemma InsertAtNoDup(s: seq<nat>, pos: nat, x: nat)
    requires NoDup(s) && pos <= |s| && x !in s
    ensures NoDup(InsertAt(s, pos, x))
  {
    var r := InsertAt(s, pos, x);
    forall i, j | 0 <= i < j < |r| ensures Apart(r, i, j) {
      var i0 := if i < pos then i else i - 1;
      var j0 := if j < pos then j else j - 1;
      if i != pos && j != pos {
        assert r[i] == s[i0] && r[j] == s[j0];
        assert Apart(s, i0, j0);
      } else if i == pos {
        assert r[j] == s[j0];
      } else {
        assert r[i] == s[i0];
      }
    }
  }

  /** Two duplicate-free lists with no common element concatenate to a
      duplicate-free list. */
  lemma AppendNoDup(a: seq<nat>, b: seq<nat>)
    requires NoDup(a) && NoDup(b)
    requires forall y :: y in a ==> y !in b
    ensures NoDup(a + b)
  {
    var r := a + b;
    forall i, j | 0 <= i < j < |r| ensures Apart(r, i, j) {
      if j < |a| {
        assert r[i] == a[i] && r[j] == a[j];
        assert Apart(a, i, j);
      } else if i >= |a| {
        assert r[i] == b[i - |a|] && r[j] == b[j - |a|];
        assert Apart(b, i - |a|, j - |a|);
      } else {
        assert r[i] == a[i] && r[j] == b[j - |a|];
        assert r[i] in a;
      }
    }
  }

  /** A list without duplicates has as many elements as its set. */
  lemma {:induction false} NoDupCard(s: seq<nat>)
    requires NoDup(s)
    ensures |Elems(s)| == |s|
  {
    if s != [] {
      NoDupTail(s);
      NoDupCard(s[1..]);
      assert Elems(s) == Elems(s[1..]) + {s[0]};
      assert s[0] !in Elems(s[1..]);
    }
  }

  /** A subset as large as its superset is the whole superset. */
  lemma SubsetCard(a: set<nat>, b: set<nat>)
    requires a <= b && |a| >= |b|
    ensures a == b
  {
    assert |b - a| == |b| - |a|;
    if b - a != {} {
      var z :| z in b - a;
    }
  }
}
