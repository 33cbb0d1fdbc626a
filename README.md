# hash_tree in Dafny

A model of `hash_tree<K, T>` from `hash_tree.h`. The container is a tree of key/value records. Each record is also reachable by key through a separate-chaining hash index. Each record (`hash_tree_node`) holds:

- its key;
- its value;
- the cached hash of its key;
- the list of its children;
- a parent link;
- a `next` link to the following record in its hash bucket's chain.

The container holds the record store, the bucket table (the first slot of each chain) and the slot of the root record (the head). Iteration walks the tree breadth first from the head.

The model is imperative, as the source is:

- `HashTreeMap.HashTree` is a class with the store, the table, the head and a slot counter as fields.
- `HashTreeMap.BfsIterator` is a class holding the visit list and a position.
- The operations that rebuild the index or the tree first compute the new fields as values, using methods with loops such as `HashIndex.Rebuild` (`rehash`), `HashIndex.Append` (`insert_map`), `HashIndex.Search` (`index`) and `HashTreeMap.Cascade` (the breadth-first loop of `erase`). They then install those fields with `Commit`.
- `Clear`, `ClearAsWritten` and the first-record branch of `Insert` assign the fields directly.

Ghost state carries the proof:

- the slots of each bucket chain, in link order (`chains`);
- a numbering in which every parent ranks below its children (`rank`), which rules out cycles.

`Valid()` holds after every public operation. It says:

- the table has at least two buckets;
- every record caches its key's hash and sits in exactly the chain of its bucket;
- the load is at most nine tenths plus one record;
- the records form one tree rooted at the head, with parent links and child lists that agree.

Modules:

- `Common`: the sequence helpers `RemoveAll` (`std::remove` followed by `erase`) and `InsertAt` (`vector::insert`).
- `Records`: the record datatype.
- `HashIndex`: the hash index on values.
- `TreeShape`: tree links, subtrees, and the effect of `remove_child` and `_set_parent`.
- `BreadthFirst`: the iterator's walk.
- `HashTreeMap`: the container and its iterator.
- `AsWritten`: the source's steps at the points where the model departs from them (see Findings).

Decisions where the source leaves behaviour undefined or is ill-formed:

- **Slots.** Slots come from a counter and are never reused. The slot store is a `map` from slot to record; `sparse_vector` is not part of this model.
- **Missing keys.** `index` answers "empty" for a missing key. `insert` with a parent, `set_parent` and `at` then index the store with that sentinel, which is undefined behaviour. `erase` also indexes the store with it when the container is not empty. When the container is empty, `index(key)` and the head are both the sentinel, so `erase` takes the `clear()` path instead, and that leaves the table without buckets (see Findings). The model refuses all of these:
  - `InsertUnder`, `Erase`, `SetParent` and `SetParentAt` return `NotFound` and change nothing, and that includes `Erase` on an empty container;
  - `At` returns `None`.
- **Parent resolved first.** `insert` with a parent looks the parent up before storing the new record, so a missing parent is refused before anything is stored. The source stores first; see Findings for what that does when the parent key is the new key.
- **Clear.** `clear` leaves a table of two empty buckets, the state a fresh container starts in. The source empties the table; see Findings.
- **Erase.** `erase` unlinks each erased record from its bucket's chain. The source does not; see Findings.
- **Cycles.** `set_parent` refuses a new parent inside the key's own subtree with `WouldCycle`. This includes moving the head, since every record lies in the head's subtree. The source has no such check; see Findings.
- **Moving a record under its current parent.** For `set_parent(k, p)` where `p` is already the parent of `k`:
  - the source takes the end iterator of `p`'s child list first;
  - `remove_child` then erases from that same vector, which invalidates the iterator;
  - so the insertion that follows is undefined.

  The model counts the end after `k` has left its old place, so `k` moves to the end of `p`'s children (`EndOffset` after `Detach`).
- **Iterator type of `_set_parent`.** `_set_parent` declares its position as an iterator over the record store, not over a child list, so the overload without a position very likely does not compile either. `SetParent` models the evident intent: insert at the end of the new parent's child list.
- **Positional `set_parent`.** The source redeclares its position parameter `_index` in the body, so that overload does not compile. It is modelled as `SetParentAt` with an explicit offset `pos` into the parent's child list. The offset is counted after the record has left its old place, and an offset past the end is refused with `BadPosition`.
- **Load limits.** `MAX_LOAD` 0.9 and `MIN_LOAD` 0.2 are compared in integers: `OverMaxLoad` is `10 * size > 9 * table_size` and `UnderMinLoad` is `5 * size < table_size`.
- **Rehash order.** `rehash` relinks records in ascending slot order. This is the order in which the store is walked.
- **Duplicate keys.** Duplicate keys are not prevented (`insert` does not look the key up first). A lookup answers with the first record in the bucket's chain that holds the key.
- **`operator[]`.** It is `Upsert`, and takes the default value `dflt` that the source builds as `T{}`.
- **`contains`.** The source calls `index()` without its argument, which does not compile. It is modelled as "a lookup of the key succeeds".

## Model

| member | source | states |
|---|---|---|
| HashIndex.FindIn | hash_tree.h:329-345 | the chain walk answers none exactly when no record of the chain matches the hash and key, and otherwise a slot of the chain that matches |
| HashIndex.Search | hash_tree.h:329-345 | the loop following `next` links from the chain's first slot answers what `FindIn` answers for the chain it walks |
| HashIndex.IndexOf | hash_tree.h:319-346 | `index` on values: an empty bucket answers none; otherwise the chain walk's answer is the lookup's answer |
| HashIndex.LookupMeaning | hash_tree.h:319-346 | a lookup comes back empty exactly when no live record holds the key; otherwise it names a live record that holds the key, caches its hash and lies in the key's bucket chain |
| HashTreeMap.HashTree.Index | hash_tree.h:319-346 | `index(key)` answers none exactly when no record holds the key, and otherwise a live record holding the key with the key's hash |
| HashIndex.Append | hash_tree.h:398-413 | `insert_map` makes the new slot the first slot of an empty bucket or links it after the chain's last record; that chain gains the slot at its tail, every other chain and every record's key, value and tree links are unchanged, and the index stays linked |
| HashIndex.ClearLinks | hash_tree.h:382-385 | the first loop of `rehash` resets every record's `next` link and nothing else |
| HashIndex.Rebuild | hash_tree.h:380-396 | `rehash(n)` leaves a table of exactly `n` buckets, every record in the chain of its cached hash modulo `n`, each chain in ascending slot order, and keys, values, hashes, parents and children unchanged |
| HashTreeMap.HashTree.Rehash | hash_tree.h:380-396 | on the container: the invariant holds, the table has `n` buckets, records agree with the old ones but for chain links, head unchanged |
| HashTreeMap.Grow | hash_tree.h:350-353 | the table doubles exactly when the load before the insertion is over nine tenths, and one more record then fits under the load bound |
| HashTreeMap.Put | hash_tree.h:355-360 | the record with the key's hash is stored at the fresh slot and appended at the tail of its bucket's chain, every other chain unchanged; the other records are unchanged |
| HashTreeMap.StoreRecord | hash_tree.h:348-361 | `_insert` on values: the table size doubles exactly when over `MAX_LOAD`, the store gains exactly the new record at the fresh slot, and the index invariant holds with the counter moved on |
| HashTreeMap.HashTree.Store | hash_tree.h:348-361 | `_insert` on the container: returns the fresh slot, the size grows by one, the table doubles exactly when the load was over nine tenths, head and tree unchanged |
| HashTreeMap.HashTree.Insert | hash_tree.h:161-173 | into an empty container the record becomes the head; otherwise it becomes the last child of the head; the size grows by one, the table doubles exactly when the load was over nine tenths, no other key or value changes, the key is then found, and for a key no record held before, found at the new slot |
| HashTreeMap.HashTree.InsertUnder | hash_tree.h:185-191 | the record becomes the last child of the record the parent key resolves to, the size grows by one, the table doubles exactly when the load was over nine tenths, and the key is found, at the new slot when no record held it before; an unknown parent is refused with nothing changed |
| HashTreeMap.HashTree.Upsert | hash_tree.h:253-264 | a key already held returns its value and leaves store, head and table unchanged; otherwise a record holding the key and the default value becomes the head of an empty container or the last child of the head, no other record changes, the table doubles exactly when the load was over nine tenths, the default value is returned, and the key is then found at the new slot |
| HashTreeMap.HashTree.At | hash_tree.h:243-246 | the value of the record a lookup finds; none exactly when no record holds the key |
| HashTreeMap.HashTree.Contains | hash_tree.h:271-274 | true exactly when some record holds the key |
| HashTreeMap.HashTree.Size | hash_tree.h:301-304 | the number of live records, zero exactly when there is no head |
| HashTreeMap.HashTree.TableSize | hash_tree.h:306-309 | the number of buckets, never below two |
| HashTreeMap.HashTree.Clear | hash_tree.h:311-316 | no records and no head, with a sound index over two empty buckets |
| HashTreeMap.HashTree.constructor | hash_tree.h:133-139 | an empty container with two empty buckets satisfies the invariant |
| HashTreeMap.HashTree.RemoveChild | hash_tree.h:374-378 | the record leaves its parent's child list; the index stays sound and nothing else changes |
| TreeShape.DetachEffect | hash_tree.h:374-378 | `remove_child` of a non-head record: only its parent's child list changes, losing exactly that record, with the other children in their old order |
| Common.RemoveAll | hash_tree.h:377 | the remove/erase idiom keeps exactly the elements other than `x`, never lengthens, and is the identity when `x` is absent |
| Common.RemoveAllAt | hash_tree.h:377 | in a list without repeats, removing the element at offset `k` is cutting that one position out |
| HashTreeMap.HashTree.Erase | hash_tree.h:193-225 | erasing the head empties the container; erasing another record removes exactly its subtree, detaches it from its parent, leaves the head and all other records as they were, shrinks the size by the subtree's size, and halves the table exactly when the load falls below one fifth; an unknown key is refused with nothing changed |
| HashTreeMap.Cascade | hash_tree.h:203-218 | the detach-and-queue loop deletes exactly the records of the subtree, leaves the other records as detaching left them, and keeps the index sound |
| HashTreeMap.EraseBelow | hash_tree.h:203-218 | on values: what is left is one rooted tree with a sound index, agreeing with the detached store minus the subtree, with at least one record |
| HashIndex.Unlink | hash_tree.h:216 | deleting a slot also takes it out of its bucket's chain: that chain loses exactly it, the other chains and records stay, and the index stays sound |
| TreeShape.PruneKeepsTree | hash_tree.h:203-218 | removing the subtree of a non-head record after detaching it leaves one rooted tree |
| TreeShape.IsBelow | hash_tree.h:363-372 | the walk up parent links decides whether the new parent lies in the moved record's subtree |
| HashTreeMap.HashTree.Relink | hash_tree.h:363-372 | `_set_parent`: the record is removed from its old parent's children, inserted at the given offset of the new parent's, and its parent link set; the invariant holds |
| TreeShape.ReparentKeepsTree | hash_tree.h:363-372 | moving a record under a parent outside its subtree keeps one rooted tree; the moved record is not the head |
| Common.InsertAt | hash_tree.h:370 | `vector::insert` at an offset: one longer, the new element at the offset, and the elements before and after it in their old order |
| HashTreeMap.HashTree.SetParent | hash_tree.h:227-233 | unknown key or parent gives `NotFound` and a parent within the key's subtree gives `WouldCycle`, both with nothing changed; otherwise the store is the old one with the record moved to the end of the new parent's children, and head and table are unchanged |
| HashTreeMap.HashTree.SetParentAt | hash_tree.h:235-241 | as `SetParent`, with the record placed at offset `pos` and an offset past the end refused with `BadPosition`; on success head and table are unchanged |
| HashTreeMap.HashTree.Begin | hash_tree.h:281-284 | a walk at position zero whose visit list is the head alone, consistent with the container |
| HashTreeMap.HashTree.End | hash_tree.h:286-289 | a walk at position `size()` |
| HashTreeMap.BfsIterator.Get | hash_tree.h:59-62 | the value of the record at the current position, which lies within the visit list |
| HashTreeMap.BfsIterator.Advance | hash_tree.h:69-78 | the current record's children are appended to the visit list and the position moves on by one; the walk stays consistent |
| HashTreeMap.BfsIterator.Equals | hash_tree.h:86-89 | two walks are equal exactly when their positions are equal |
| BreadthFirst.BfsStart | hash_tree.h:52-57 | the walk from the head starts consistent: the visit list holds exactly the records owed a place |
| BreadthFirst.BfsStep | hash_tree.h:69-78 | a step keeps the visit list free of repeats, holding exactly the head and the children of expanded records, in order of depth |
| BreadthFirst.BfsEnd | hash_tree.h:69-78 | the visit list never outgrows the store, it runs out exactly when the position reaches `size()`, and then every record has been visited exactly once |
| HashTreeMap.HashTree.ClearAsWritten | hash_tree.h:311-316 | the source's `clear`: the table is left with no bucket, so the index invariant can never hold again |
| AsWritten.InsertUnderAsWritten | hash_tree.h:185-191 | the source's order of storing before looking up: for a new key inserted under itself, the record becomes its own parent and its own child |
| AsWritten.SelfParentBreaksTree | hash_tree.h:189-190 | a record that is its own parent can belong to no rooted tree |
| AsWritten.SetParentToSelfAsWritten | hash_tree.h:227-233 | the source's `set_parent(k, k)`: the record becomes its own parent and child, and the store is no longer a tree |
| AsWritten.EraseAsWritten | hash_tree.h:203-218 | the cascade loop of the source's `erase`, before the shrink test at lines 220-224: the subtree is gone from the store, while every surviving `next` link is as it was |
| AsWritten.StaleLinkAfterErase | hash_tree.h:210-218 | erasing a record that follows another in its bucket chain leaves the survivor's `next` link naming the erased slot; one record in two buckets is not under the minimum load, so no shrinking rehash follows and no chain layout indexes what is left |

## Left out

- The `sparse_vector` slot store, with its reuse of freed slots and its `shrink_to_fit`: the store is a map, and slots come from a counter that never repeats.
- The hasher and the key-equality functor: the hash is a parameter function `K -> nat`, and key equality is Dafny's `==`.
- `load_factor` as a floating-point ratio: the two load comparisons are written in integers.
- `size_t` wrap-around: hashes and slots are unbounded naturals, and the `_EMPTY_INDEX` sentinel is `None`.
- The copy and move constructors and assignments, and the destructor: these are defaults with no logic of their own.
- `operator->` of the iterator: it does not compile (`_nodes->at[...]`), and it would read the same value as `operator*`.
- Post-increment `operator++(int)` and `operator!=`: they are defined by the modelled `operator++` and `operator==`.
- The `const` overloads of `at`, `operator[]`, `begin` and `end`, and `const_iterator`: they do the same as the modelled ones without writing.
- The iterator's `_EMPTY_INDEX` entry: the iterator constructor always pushes the start slot, so `end()`, and `begin()` on an empty container, hold a sentinel entry. `End`, and `Begin` on an empty container, start with an empty visit list instead, which has no effect on equality, since that compares positions only.
- References returned for writing (`T&` from `at`, `operator[]` and `operator*`): the model returns values, so writes through such references are not modelled.
- Atomicity: `Commit` and `Move` install all fields at once, whereas the source updates them one at a time. No intermediate state is observable in either.
- HashTreeMap.HashTree.Insert: the lookup of a key held by an earlier record still finds the earlier record, so the new slot is promised only for a key no record held before.
- HashTreeMap.HashTree.Rehash: it requires a new size of at least two that keeps the load bound. The source's only callers (`_insert` and `erase`) meet this, and other sizes are not modelled.
- Concurrency: the source is not thread-safe and the model is sequential.

## Findings

| source | as written | input that shows it | evidently intended | confidence | as-written member | corrected member |
|---|---|---|---|---|---|---|
| hash_tree.h:311-316 | `clear` empties the bucket table itself, so the next `index` or `_insert` computes `hash % table_size()` with a zero table size | `clear()` then `insert(k, v)`; `erase` of the head then any lookup; `erase(k)` on an empty container, which reaches `clear()` because the lookup and the head are both the sentinel | reset to an empty two-bucket table, as at construction | not executed | HashTreeMap.HashTree.ClearAsWritten | HashTreeMap.HashTree.Clear |
| hash_tree.h:185-191 | the new record is stored before the parent key is looked up, so a parent key equal to the new key resolves to the new record | `insert(k, v, k)` where no record holds `k` | refuse a parent that is not already in the tree | not executed | AsWritten.InsertUnderAsWritten | HashTreeMap.HashTree.InsertUnder |
| hash_tree.h:210-218 | `erase` drops records from the store without unlinking them from their bucket chains, so a survivor's `next` link or a table entry can name an erased slot. The links stay stale whenever the load after the erase is not below one fifth; a shrinking `rehash` (lines 220-223) rebuilds every chain | two records in one bucket, the second the child of the first, then `erase` of the second | remove each erased record from its chain | not executed | AsWritten.StaleLinkAfterErase | HashIndex.Unlink |
| hash_tree.h:227-233 | `set_parent` moves a record under any record, including itself or one of its own descendants | `set_parent(k, k)` for any key `k` in the tree | refuse a new parent within the key's own subtree | not executed | AsWritten.SetParentToSelfAsWritten | HashTreeMap.HashTree.SetParent |
