/**
 * The LRU cache: a recency list paired with an index from keys to the list's
 * nodes, a size counter and a fixed limit.
 *
 * `Valid()` keeps the index and the list in step (every indexed node is in
 * the list under its own key, and every listed node is indexed), and keeps
 * `size` equal to both their sizes and at most `limit`. `Model()` reads the
 * cache as a `RecencySpec.Cache` value, and `Get` and `Put` are proved to
 * change it exactly as `RecencySpec.Get` and `RecencySpec.Put` do, so every
 * property proved of those carries over.
 */
module Lru {
  import opened Sequences
  import opened RecencySpec
  import opened LinkedList

  /** The keys of a list of nodes with distinct keys follow a removal. */
  lemma KeysRemove<K, V>(ns: seq<Node<K, V>>, n: Node<K, V>)
    requires Distinct(Keys(ns)) && n in ns
    ensures Keys(Remove(ns, n)) == Remove(Keys(ns), n.key)
  {
    var ks := Keys(ns);
    var i :| 0 <= i < |ns| && ns[i] == n;
    assert Distinct(ns) by {
      DistinctAt(ks);
      forall a, b | 0 <= a < b < |ns| ensures ns[a] != ns[b] {
        assert ks[a] != ks[b];
      }
      DistinctAt(ns);
    }
    RemoveAt(ns, i);
    RemoveAt(ks, i);
    assert Keys(ns[..i] + ns[i + 1..]) == ks[..i] + ks[i + 1..];
  }

  /** The keys of a list of nodes with distinct keys follow a move to the front. */
  lemma KeysMoveToFront<K, V>(ns: seq<Node<K, V>>, n: Node<K, V>)
    requires Distinct(Keys(ns)) && n in ns
    ensures Keys(MoveToFront(ns, n)) == MoveToFront(Keys(ns), n.key)
  {
    KeysRemove(ns, n);
    assert Keys([n] + Remove(ns, n)) == [n.key] + Keys(Remove(ns, n));
  }

  /** The keys of a node put in front of a list. */
  lemma KeysCons<K, V>(n: Node<K, V>, ns: seq<Node<K, V>>)
    ensures Keys([n] + ns) == [n.key] + Keys(ns)
  {
  }

  /** The keys of a prefix of a list. */
  lemma KeysPrefix<K, V>(ns: seq<Node<K, V>>, n: nat)
    requires n <= |ns|
    ensures Keys(ns[..n]) == Keys(ns)[..n]
  {
  }

  /** `hash` indexes exactly the nodes of `ns`: each key maps to a node of
      `ns` carrying that key, and each node of `ns` is what its key maps to. */
  ghost predicate Indexes<K, V>(hash: map<K, Node<K, V>>, ns: seq<Node<K, V>>) {
    (forall k :: k in hash ==> hash[k] in ns && hash[k].key == k) &&
    (forall n :: n in ns ==> n.key in hash && hash[n.key] == n)
  }

  /** Over distinct nodes, the indexed keys are exactly the nodes' keys, and
      no key occurs twice. */
  lemma IndexesKeys<K, V>(hash: map<K, Node<K, V>>, ns: seq<Node<K, V>>)
    requires Indexes(hash, ns) && Distinct(ns)
    ensures Distinct(Keys(ns)) && |Keys(ns)| == |ns|
    ensures forall k :: k in hash <==> k in Keys(ns)
  {
    var ks := Keys(ns);
    DistinctAt(ns);
    forall a, b | 0 <= a < b < |ks| ensures ks[a] != ks[b] {
      assert hash[ks[a]] == ns[a] != ns[b] == hash[ks[b]];
    }
    DistinctAt(ks);
    forall k | k in hash ensures k in ks {
      var i :| 0 <= i < |ns| && ns[i] == hash[k];
      assert ks[i] == k;
    }
  }

  /** Indexing a node with a new key under that key, and putting it in front. */
  lemma IndexesInsert<K, V>(hash: map<K, Node<K, V>>, ns: seq<Node<K, V>>, n: Node<K, V>)
    requires Indexes(hash, ns) && n.key !in hash
    ensures n !in ns && Indexes(hash[n.key := n], [n] + ns)
    ensures |hash[n.key := n]| == |hash| + 1
  {
    var h := hash[n.key := n];
    forall m | m in [n] + ns ensures m.key in h && h[m.key] == m {
      if m != n {
        assert m in ns;
      }
    }
  }

  /** Dropping the last node, and its key from the index. */
  lemma IndexesEvict<K, V>(hash: map<K, Node<K, V>>, ns: seq<Node<K, V>>)
    requires Indexes(hash, ns) && Distinct(ns) && ns != []
    ensures ns[|ns| - 1].key in hash
    ensures Indexes(hash - {ns[|ns| - 1].key}, ns[..|ns| - 1])
    ensures |hash - {ns[|ns| - 1].key}| == |hash| - 1
  {
    var last := |ns| - 1;
    DistinctOther(ns, last);
    var h := hash - {ns[last].key};
    assert h.Keys == hash.Keys - {ns[last].key};
    forall k | k in h ensures h[k] in ns[..last] {
      var i :| 0 <= i < |ns| && ns[i] == hash[k];
      assert i != last;
    }
    forall m | m in ns[..last] ensures m.key in h && h[m.key] == m {
      var i :| 0 <= i < last && ns[i] == m;
      assert m != ns[last];
    }
  }

  /** Reordering the nodes keeps the index. */
  lemma IndexesSameNodes<K, V>(hash: map<K, Node<K, V>>, ns: seq<Node<K, V>>, ms: seq<Node<K, V>>)
    requires Indexes(hash, ns) && forall n :: n in ms <==> n in ns
    ensures Indexes(hash, ms)
  {
  }

  class LRUCache<K(==,!new), V> {
    const limit: nat
    var size: nat
    var hash: map<K, Node<K, V>>
    const list: DoublyLinkedList<K, V>
    /** The value stored under each key, as the nodes' data holds it. */
    ghost var Values: map<K, V>

    ghost predicate Valid()
      reads this, list, list.Nodes
    {
      list.Valid() &&
      1 <= limit &&
      Indexes(hash, list.Nodes) &&
      Values.Keys == hash.Keys &&
      (forall k :: k in hash ==> hash[k].data == Values[k]) &&
      size == |hash| == |list.Nodes| && size <= limit
    }

    /** The cache as a value: keys from most to least recently used, the
        value each key maps to, and the limit. */
    ghost function Model(): (c: Cache<K, V>)
      reads this, list, list.Nodes
      requires Valid()
      ensures Inv(c) && |c.order| == size
    {
      ModelInv();
      Cache(Keys(list.Nodes), Values, limit)
    }

    lemma ModelInv()
      requires Valid()
      ensures Inv(Cache(Keys(list.Nodes), Values, limit))
    {
      IndexesKeys(hash, list.Nodes);
    }

    /** An empty cache holding at most `limit` entries; the source's callers
        must give a positive limit. */
    constructor (limit: nat)
      requires 1 <= limit
      ensures Valid() && fresh(list)
      ensures Model() == Empty(limit)
    {
      this.limit := limit;
      size := 0;
      hash := map[];
      list := new DoublyLinkedList();
      Values := map[];
    }

    /** A lookup. A miss (None, the source's -1) changes nothing; a hit
        returns the key's node, whose data is the stored value, and makes it
        the most recently used. */
    method Get(key: K) returns (r: Option<Node<K, V>>)
      requires Valid()
      modifies list, list.Nodes`next, list.Nodes`prev
      ensures Valid()
      ensures hash == old(hash) && size == old(size)
      ensures r.Some? ==> r.value.key == key && key in hash && r.value == hash[key]
      ensures (Model(), if r.Some? then Some(r.value.data) else None) == RecencySpec.Get(old(Model()), key)
      ensures forall n :: n in list.Nodes <==> n in old(list.Nodes)
    {
      ghost var before := Model();
      if key !in hash {
        return None;
      }
      var node := hash[key];
      KeysMoveToFront(list.Nodes, node);
      list.MoveNodeToHead(node);
      r := Some(node);
      assert Valid();
    }

    /** A store. A present key gets the new value and moves to the head; a
        new key first evicts the tail (least recently used) entry from the
        list and the index when the cache is full, then goes in at the head. */
    method Put(key: K, value: V)
      requires Valid()
      modifies this, list, list.Nodes
      ensures Valid()
      ensures Model() == RecencySpec.Put(old(Model()), key, value)
      ensures key in hash && hash[key].data == value
      ensures forall k :: k in old(hash) && k in hash ==> hash[k] == old(hash)[k]
      ensures forall n :: n in list.Nodes ==> n in old(list.Nodes) || fresh(n)
    {
      if key in hash {
        Update(key, value);
      } else {
        if size == limit {
          EvictTail();
        }
        InsertAtHead(key, value);
      }
    }

    /** The update step of a store of a present key: its node gets the new
        value and moves to the head of the list. */
    method Update(key: K, value: V)
      requires Valid() && key in hash
      modifies this, list, list.Nodes
      ensures Valid() && Model() == RecencySpec.Put(old(Model()), key, value)
      ensures hash == old(hash) && hash[key].data == value
      ensures forall n :: n in list.Nodes <==> n in old(list.Nodes)
    {
      var node := hash[key];
      ghost var ns := list.Nodes;
      node.data := value;
      Values := Values[key := value];
      forall i | 0 < i < |ns| ensures ns[i].prev == ns[i - 1] {
        assert old(ns[i].prev) == ns[i - 1];
      }
      forall i | 0 <= i < |ns| - 1 ensures ns[i].next == ns[i + 1] {
        assert old(ns[i].next) == ns[i + 1];
      }
      assert list.Valid();
      forall k | k in hash ensures hash[k].data == Values[k] {
        if k != key {
          assert hash[k] != node;
        }
      }
      label Written:
      list.MoveNodeToHead(node);
      IndexesSameNodes(hash, ns, list.Nodes);
      forall k | k in hash ensures hash[k].data == Values[k] {
        var n := hash[k];
        assert n.data == old@Written(n.data);
      }
      assert Distinct(Keys(ns)) by { IndexesKeys(hash, ns); }
      KeysMoveToFront(ns, node);
    }

    /** The eviction step of a store into a full cache: the tail node leaves
        the list, its key leaves the index, and the size drops by one. */
    method EvictTail()
      requires Valid() && size == limit
      modifies this, list, list.Nodes
      ensures Valid() && Model() == Evict(old(Model()))
      ensures list.Nodes == old(list.Nodes[..|list.Nodes| - 1])
      ensures forall k :: k in hash ==> k in old(hash) && hash[k] == old(hash)[k]
      ensures forall n :: n in list.Nodes ==> n in old(list.Nodes)
    {
      ghost var ns := list.Nodes;
      var oldTail := list.RemoveTail();
      forall k | k in hash ensures hash[k].data == Values[k] {
        var n := hash[k];
        assert n.data == old(n.data);
      }
      Unindex(oldTail.key, ns);
    }

    /** The index step of an eviction: once the former tail `ns[|ns| - 1]`
        has left the list, its key leaves the index and the size drops by
        one. */
    method Unindex(key: K, ghost ns: seq<Node<K, V>>)
      requires list.Valid() && 1 <= limit && ns != [] && key == ns[|ns| - 1].key
      requires list.Nodes == ns[..|ns| - 1] && Indexes(hash, ns) && Distinct(ns)
      requires Values.Keys == hash.Keys && forall k :: k in hash ==> hash[k].data == Values[k]
      requires size == |hash| == |ns| == limit
      modifies this
      ensures Valid() && hash == old(hash) - {key}
      ensures Inv(Cache(Keys(ns), old(Values), limit))
      ensures Model() == Evict(Cache(Keys(ns), old(Values), limit))
    {
      IndexesKeys(hash, ns);
      IndexesEvict(hash, ns);
      hash, Values, size := hash - {key}, Values - {key}, size - 1;
      KeysPrefix(ns, size);
      assert Valid();
    }

    /** The insertion step of a store of a new key: a fresh node holding the
        value is made and linked in. */
    method InsertAtHead(key: K, value: V)
      requires Valid() && key !in hash && size < limit
      modifies this, list, list.Nodes
      ensures Valid() && Model() == Insert(old(Model()), key, value)
      ensures key in hash && hash == old(hash)[key := hash[key]] && fresh(hash[key])
      ensures hash[key].data == value && list.Nodes == [hash[key]] + old(list.Nodes)
      ensures forall n :: n in list.Nodes ==> n in old(list.Nodes) || fresh(n)
    {
      var newNode := new Node(value, key);
      Link(newNode);
    }

    /** Links a node that is not yet in the cache: it goes at the head of
        the list and into the index under its key, and the size grows by one.
        The list is updated before the index here; the two touch disjoint
        state, so the order does not matter. */
    method Link(node: Node<K, V>)
      requires Valid() && node.key !in hash && size < limit && node !in list.Nodes
      modifies this, list, list.Nodes, node`next, node`prev
      ensures Valid() && Model() == Insert(old(Model()), node.key, node.data)
      ensures hash == old(hash)[node.key := node] && list.Nodes == [node] + old(list.Nodes)
    {
      ghost var ns, h0 := list.Nodes, hash;
      list.AddHead(node);
      hash, Values, size := hash[node.key := node], Values[node.key := node.data], size + 1;
      IndexesInsert(h0, ns, node);
      forall k | k in hash ensures hash[k].data == Values[k] {
        if k != node.key {
          var n := h0[k];
          assert n in ns && n.data == old(n.data);
        }
      }
      KeysCons(node, ns);
    }
  }
}
