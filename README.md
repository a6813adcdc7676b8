# LRU cache: a verified Dafny model

This project models `javascript/lru_cache.js`, a least-recently-used cache
built from two structures that must stay in step:

- a doubly-linked list of nodes. The most recently used node is at `head` and
  the least recently used at `tail`.
- a key-to-node index (`hash`), with a `size` counter and a fixed `limit`.

`get` moves a hit to the head of the list. `put` handles two cases:

- a present key: its node's data is overwritten and the node moves to the
  head;
- a new key: when the cache is full, the tail node is evicted from both the
  list and the index first, then the new key goes in at the head.

The model has four modules.

- `sequences.dfy`, module `Sequences`: sequence helpers shared by the other
  modules. These cover sequences without repetitions, cutting an element out
  (`Remove`), moving an element to the front (`MoveToFront`) and taking a
  prefix (`Take`).
- `recency_spec.dfy`, module `RecencySpec`: the cache on values. A `Cache`
  is its recency order (keys, most recent first), its stored values and its
  limit. `Get`, `Evict`, `Insert` and `Put` are the reference definitions.
  The lemmas about them prove:
  - the capacity invariant;
  - eviction of exactly the least recently used key;
  - overwrites that keep the size;
  - that the order is always the `limit` most recently accessed keys, most
    recent first (`Recent`, `PutRecency`, `GetRecency`).
- `linked_list.dfy`, module `LinkedList`: the `Node` and `DoublyLinkedList`
  classes, with the source's fields.
  - A ghost sequence `Nodes` is the list's abstract value.
  - `Valid()` (through `LinkedAs`) ties `head`, `tail` and every `prev` and
    `next` to that sequence.
  - Each method is proved against the change it makes to `Nodes`.
- `lru_cache.dfy`, module `Lru`: the `LRUCache` class.
  - `Valid()` keeps the index, the list, the node data and `size` in step.
  - `Model()` reads the object as a `RecencySpec.Cache`.
  - `Get` and `Put` are proved to change that value exactly as
    `RecencySpec.Get` and `RecencySpec.Put` do, so every lemma about those
    carries over to the objects. This holds for the list with the corrected
    `AddHead`; see Findings for the code as written.
  - The contracts also say which node the index holds. A store under a
    present key writes into the node already indexed, and no other key
    changes its node. A node returned by `Get` therefore sees a later store
    under its key.
  - The contracts also say where the list's nodes come from. `Get` keeps the
    same nodes, and every node after a `Put` was there before or is new. A
    caller may therefore make any sequence of calls on one cache.

`put`'s branches become three helper methods: `Update` (lines 117-118),
`EvictTail` (125-129) and `InsertAtHead` (130-133). `EvictTail` removes the
tail from the list and leaves the index to `Unindex`. `InsertAtHead` allocates
the node and leaves the linking to `Link`. `Link` adds the node to the list
before it adds it to the index, where the source does the reverse. The two
steps touch disjoint state, so the order does not matter. `removeNode`'s
pointer surgery (lines 51-65) is the method `Detach`, and `RemoveNode` calls
it.

## Model

| member | source | states |
|---|---|---|
| LinkedList.Node.constructor | javascript/lru_cache.js:2-7 | a new node holds the given data and key, with no neighbours |
| LinkedList.DoublyLinkedList.constructor | javascript/lru_cache.js:11-14 | a new list is valid and empty: `head` and `tail` are null |
| LinkedList.DoublyLinkedList.AddHead | javascript/lru_cache.js:17-29 | prepends a node that is not in the list: the list stays well linked, its sequence becomes `[node] + old`, the node is `head`, and on an empty list it is also `tail` (intended version, see Findings) |
| LinkedList.DoublyLinkedList.AddHeadAsWritten | javascript/lru_cache.js:17-29 | the code as written: on a non-empty list it does what AddHead does; on an empty list the node ends up as `head` and `tail` with `next` and `prev` pointing to itself, and the list is no longer valid |
| LinkedList.LinkedNoSelfLoop | javascript/lru_cache.js:18-28 | no node of a well-linked list has itself as `next` or `prev`, so the self-loop AddHeadAsWritten leaves is never a valid list |
| LinkedList.DoublyLinkedList.RemoveTail | javascript/lru_cache.js:33-46 | on an empty list: returns null and the list stays empty. Otherwise: returns the old tail, the sequence loses exactly its last node, the predecessor becomes `tail` (with `next` null) or the list becomes empty, and the removed node's `prev` and `next` are null |
| LinkedList.DoublyLinkedList.Detach | javascript/lru_cache.js:51-65 | the four cases (sole, head, tail, interior): `head` and `tail` move past the node only where it was an end, its neighbours are linked to each other, and its own links are cleared |
| LinkedList.LinkedRemoved | javascript/lru_cache.js:51-63 | the links and ends as they are after the surgery form a well-linked list of the remaining nodes, in their old order |
| LinkedList.DoublyLinkedList.RemoveNode | javascript/lru_cache.js:50-68 | for a node anywhere in the list: returns it, the sequence becomes the old one with that node cut out of its position (others keep their order), the list stays valid, and the node's links are null |
| LinkedList.DoublyLinkedList.MoveNodeToHead | javascript/lru_cache.js:72-75 | the sequence becomes `MoveToFront(old, node)`: the node is `head`, the length, nodes and multiset are unchanged, and the others keep their relative order |
| Sequences.MoveToFrontPermutes | javascript/lru_cache.js:72-75 | moving a present element to the front of a repetition-free sequence is a permutation that keeps it repetition-free |
| RecencySpec.Empty | javascript/lru_cache.js:79-84 | the empty cache of a positive limit satisfies the cache invariant |
| RecencySpec.Get | javascript/lru_cache.js:89-100 | a hit returns the key's value and moves the key to the front; a miss returns None and changes nothing; the values and the invariant are kept |
| RecencySpec.Evict | javascript/lru_cache.js:125-129 | drops exactly the last (least recently used) key from the order and the values and keeps the invariant |
| RecencySpec.Insert | javascript/lru_cache.js:130-133 | a new key goes in front with its value into a cache with room: the order grows by that key alone and the invariant holds |
| RecencySpec.Put | javascript/lru_cache.js:109-135 | after any store the invariant holds, the limit is unchanged, the key is first in the order and maps to the new value |
| RecencySpec.GetKeepsKeys | javascript/lru_cache.js:89-100 | a lookup, hit or miss, keeps the number of keys and the multiset of keys |
| RecencySpec.PutExisting | javascript/lru_cache.js:111-118 | a store under a present key keeps the size, the key set and every other key's value, and leaves the other keys in order behind it |
| RecencySpec.PutEvictsLeastRecent | javascript/lru_cache.js:125-133 | a store of a new key into a full cache removes exactly the least recently used key, which a lookup then misses, keeps the size at the limit, and keeps every other key's value |
| RecencySpec.PutGrows | javascript/lru_cache.js:130-133 | a store of a new key into a cache with room evicts nothing: the key goes in front and the values gain only that key |
| RecencySpec.PutOverwrite | javascript/lru_cache.js:111-118 | two stores under one key equal the second store alone, and a lookup then returns the later value |
| RecencySpec.GetPromotes | javascript/lru_cache.js:89-135 | with a limit of at least two, a hit moves its key to the front, and the next store of a new key does not evict it |
| RecencySpec.PutRecency | javascript/lru_cache.js:109-135 | if the order is the `limit` most recently accessed keys of a history, then after a store it is that of the history extended by the stored key |
| RecencySpec.GetRecency | javascript/lru_cache.js:89-100 | the same correspondence after a lookup: the history is extended by the key on a hit and unchanged on a miss |
| Lru.LRUCache.Model | javascript/lru_cache.js:78-84 | the object read as a value satisfies the cache invariant (each key once, at most `limit` keys), and `size` is the number of keys |
| Lru.LRUCache.constructor | javascript/lru_cache.js:79-84 | a new cache of positive limit is valid, and its value is the empty cache of that limit |
| Lru.LRUCache.Get | javascript/lru_cache.js:89-100 | a miss returns None; a hit returns the key's own node. The index and `size` are unchanged, and the new value with the returned data is exactly `RecencySpec.Get` of the old value; the list keeps the same nodes |
| Lru.LRUCache.Put | javascript/lru_cache.js:109-135 | the cache stays valid and its new value is exactly `RecencySpec.Put` of the old value; the key's indexed node holds the new value, and every key indexed before and after keeps the same node; every node of the new list was in the old one or is freshly allocated |
| Lru.LRUCache.Update | javascript/lru_cache.js:117-118 | for a present key the index is unchanged and the node it holds gets the new data and moves to the head: the new value is `RecencySpec.Put` of the old |
| Lru.LRUCache.EvictTail | javascript/lru_cache.js:125-129 | in a full cache the tail leaves the list and the index and the size drops by one: the new value is `RecencySpec.Evict` of the old, the list is its old prefix, and every key still indexed keeps its node |
| Lru.LRUCache.Unindex | javascript/lru_cache.js:127-128 | once the former tail has left the list, its key leaves the index and the size drops by one: the cache is valid again, the index is the old one without that key, and the new value is `RecencySpec.Evict` of the value before the tail was removed |
| Lru.LRUCache.InsertAtHead | javascript/lru_cache.js:130-133 | a new key in a cache with room: a fresh node holding the value goes at the head of the list and into the index under the key, the other keys keep their nodes, and the new value is `RecencySpec.Insert` of the old |
| Lru.LRUCache.Link | javascript/lru_cache.js:131-133 | a node not yet in the cache goes at the head of the list and into the index under its key, and the size grows by one: the index becomes the old one with the key mapped to this node, the list becomes `[node] + old`, and the new value is `RecencySpec.Insert` of the old with the node's key and data |

## Left out

- The demo driver under `require.main === module` (lines 138-254) and
  `module.exports` (lines 256-260). They are console output and module
  plumbing.
- Plain-object quirks of the index `this.hash = {}`, such as string coercion
  of keys and prototype keys like `"__proto__"`. The index is a Dafny `map`,
  and the truthiness test `if (!node)` becomes `key in hash`: an indexed
  node is always an object.
- The running-time claims (constant-time operations). Only functional
  behaviour is modelled.
- The default `limit = 10` (line 79) and non-positive limits. The constructor
  requires `limit >= 1`: with `limit == 0`, `put` would dereference the null
  that `removeTail` returns on an empty list (lines 125-127).
- The optional `next`/`prev` parameters of the `Node` constructor (line 2)
  and `head`/`tail` parameters of the `DoublyLinkedList` constructor
  (line 11). The only callers (lines 83 and 130) never pass them.
- Garbage collection and the lifetime of evicted nodes.
- `get`'s result is an `Option` of the node. `None` stands for the source's
  `-1`, and `Some(node)` for the node it returns (line 99).
- LinkedList.DoublyLinkedList.RemoveNode, LinkedList.DoublyLinkedList.MoveNodeToHead
  and LinkedList.DoublyLinkedList.AddHead require the node to be in the list
  (or, for AddHead, not in it). The source does not check this, and its only
  callers pass nodes taken from the index or freshly created.
- LinkedList.DoublyLinkedList.MoveNodeToHead, Lru.LRUCache.Get, Lru.LRUCache.Put:
  their contracts are proved over the corrected `AddHead`, not over
  `AddHeadAsWritten`. With the code as written they do not hold from the first
  insertion into an empty list onwards. The consequences are traced under
  Findings.

## Findings

| source | as written | input that shows it | evidently intended | confidence | as-written member | corrected member |
|---|---|---|---|---|---|---|
| javascript/lru_cache.js:18-28 | the empty-list branch of `addHead` does not return, so lines 25-28 then run with `head == node`. They set `node.next = node` and `node.prev = node`. Downstream, with limit 1, the cache loses its invariant. After `put(1,a)`, node n1 links to itself. `put(2,b)` calls `removeTail`, which sets `tail = n1.prev = n1` (line 38), so n1 stays in the list and n2 is linked in front of it. `put(3,c)` evicts n1 again, and `delete hash[1]` (line 127) does nothing. The cache then has `size` 1 but `hash = {2: n2, 3: n3}`, and `get(2)` hits. Also, `moveNodeToHead` on a one-node list, as in a `get` on a cache holding one key, re-creates the self-loop through line 74 | `addHead(n)` on an empty list, for example the first `put` into a new cache | return after line 22, leaving `n` as the only node with null links | not executed | LinkedList.DoublyLinkedList.AddHeadAsWritten | LinkedList.DoublyLinkedList.AddHead |
