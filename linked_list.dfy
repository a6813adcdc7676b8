/**
 * The recency list: a doubly-linked list of cache entries, most recently used
 * at `head`, least recently used at `tail`.
 *
 * The ghost field `Nodes` is the abstract value of a list: its nodes from head
 * to tail. `Valid()` ties `head`, `tail` and every node's `prev` and `next`
 * links to that sequence, and each operation states its effect on it.
 */
module LinkedList {
  import opened Sequences

  /** A cache entry. Its key never changes once the node exists. */
  class Node<K, V> {
    var data: V
    const key: K
    var next: Node?<K, V>
    var prev: Node?<K, V>

    constructor (data: V, key: K)
      ensures this.data == data && this.key == key
      ensures next == null && prev == null
    {
      this.data := data;
      this.key := key;
      next := null;
      prev := null;
    }
  }

  /** `ns` is the list from `head` to `tail`: each node occurs once, `head`
      and `tail` are its ends (both null when it is empty), and each node's
      `prev` and `next` are its neighbours in `ns`, null past either end. */
  ghost predicate LinkedAs<K, V>(head: Node?<K, V>, tail: Node?<K, V>, ns: seq<Node<K, V>>)
    reads ns
  {
    Distinct(ns) &&
    (ns == [] ==> head == null && tail == null) &&
    (ns != [] ==> head == ns[0] && tail == ns[|ns| - 1]) &&
    (ns != [] ==> ns[0].prev == null && ns[|ns| - 1].next == null) &&
    (forall i {:trigger ns[i].prev} :: 0 < i < |ns| ==> ns[i].prev == ns[i - 1]) &&
    (forall i {:trigger ns[i].next} :: 0 <= i < |ns| - 1 ==> ns[i].next == ns[i + 1])
  }

  /** No node of a well-linked list points to itself: following `next` (or
      `prev`) from any node leaves it. */
  lemma LinkedNoSelfLoop<K, V>(head: Node?<K, V>, tail: Node?<K, V>, ns: seq<Node<K, V>>, i: nat)
    requires LinkedAs(head, tail, ns) && i < |ns|
    ensures ns[i].next != ns[i] && ns[i].prev != ns[i]
  {
    DistinctAt(ns);
    if i < |ns| - 1 {
      assert ns[i].next == ns[i + 1] && ns[i + 1] != ns[i];
    } else {
      assert ns[i].next == null;
    }
    if 0 < i {
      assert ns[i].prev == ns[i - 1] && ns[i - 1] != ns[i];
    } else {
      assert ns[i].prev == null;
    }
  }

  /** Where the node at position `i` of a well-linked list sits: it is `head`
      exactly when it is first, `tail` exactly when it is last, its `prev`
      and `next` are its neighbours in `ns` (null past either end), and it
      occurs nowhere else in `ns`, nor do its neighbours. */
  lemma LinkedAt<K, V>(head: Node?<K, V>, tail: Node?<K, V>, ns: seq<Node<K, V>>, i: nat)
    requires LinkedAs(head, tail, ns) && i < |ns|
    ensures ns[i] == head <==> i == 0
    ensures ns[i] == tail <==> i == |ns| - 1
    ensures ns[i].prev == if i == 0 then null else ns[i - 1]
    ensures ns[i].next == if i == |ns| - 1 then null else ns[i + 1]
    ensures forall j :: 0 <= j < |ns| && j != i ==> ns[j] != ns[i]
    ensures 0 < i ==> forall j :: 0 <= j < |ns| && j != i - 1 ==> ns[j] != ns[i - 1]
    ensures i < |ns| - 1 ==> forall j :: 0 <= j < |ns| && j != i + 1 ==> ns[j] != ns[i + 1]
  {
    DistinctOther(ns, i);
    if 0 < i {
      DistinctOther(ns, i - 1);
    }
    if i < |ns| - 1 {
      DistinctOther(ns, i + 1);
    }
  }

  /** Linking the neighbours of `ns[i]` past it leaves a well-linked list
      `ms` of the other nodes, in order: the links and ends as they are after
      the removal, stated position by position, make up LinkedAs of `ms`. */
  lemma LinkedRemoved<K, V>(head: Node?<K, V>, tail: Node?<K, V>, ns: seq<Node<K, V>>, i: nat, ms: seq<Node<K, V>>)
    requires i < |ns| && |ms| == |ns| - 1 && Distinct(ms)
    requires forall j :: 0 <= j < |ms| ==> ms[j] == ns[if j < i then j else j + 1]
    requires forall j {:trigger ns[j].prev} :: 0 < j < |ns| && j != i && j != i + 1 ==> ns[j].prev == ns[j - 1]
    requires forall j {:trigger ns[j].next} :: 0 <= j < |ns| - 1 && j != i && j != i - 1 ==> ns[j].next == ns[j + 1]
    requires i != 0 ==> ns[0].prev == null
    requires i != |ns| - 1 ==> ns[|ns| - 1].next == null
    requires i + 1 < |ns| ==> ns[i + 1].prev == if i == 0 then null else ns[i - 1]
    requires 0 < i ==> ns[i - 1].next == if i == |ns| - 1 then null else ns[i + 1]
    requires head == if i != 0 then ns[0] else if |ns| == 1 then null else ns[1]
    requires tail == if i != |ns| - 1 then ns[|ns| - 1] else if i == 0 then null else ns[i - 1]
    ensures LinkedAs(head, tail, ms)
  {
    forall j | 0 < j < |ms| ensures ms[j].prev == ms[j - 1] {
      if j < i {
        assert ms[j] == ns[j] && ms[j - 1] == ns[j - 1];
      } else if j == i {
        assert ms[j] == ns[i + 1] && ms[j - 1] == ns[i - 1];
      } else {
        assert ms[j] == ns[j + 1] && ms[j - 1] == ns[j];
      }
    }
    forall j | 0 <= j < |ms| - 1 ensures ms[j].next == ms[j + 1] {
      if j < i - 1 {
        assert ms[j] == ns[j] && ms[j + 1] == ns[j + 1];
      } else if j == i - 1 {
        assert ms[j] == ns[i - 1] && ms[j + 1] == ns[i + 1];
      } else {
        assert ms[j] == ns[j + 1] && ms[j + 1] == ns[j + 2];
      }
    }
    if ms != [] {
      assert ms[0] == if i == 0 then ns[1] else ns[0];
      assert ms[|ms| - 1] == if i == |ns| - 1 then ns[i - 1] else ns[|ns| - 1];
    }
  }

  /** The keys of a sequence of nodes, in the same order. */
  ghost function Keys<K, V>(ns: seq<Node<K, V>>): (ks: seq<K>) {
    seq(|ns|, i requires 0 <= i < |ns| => ns[i].key)
  }

  class DoublyLinkedList<K, V> {
    var head: Node?<K, V>
    var tail: Node?<K, V>
    ghost var Nodes: seq<Node<K, V>>

    ghost predicate Valid()
      reads this, Nodes
    {
      LinkedAs(head, tail, Nodes)
    }

    constructor ()
      ensures Valid() && Nodes == []
    {
      head := null;
      tail := null;
      Nodes := [];
    }

    /** Prepends `node`: it becomes `head`, and also `tail` when the list
        was empty. This is the evidently intended version, which leaves the
        method right after linking a node into an empty list. */
    method AddHead(node: Node<K, V>)
      requires Valid() && node !in Nodes
      modifies this, Nodes`prev, node`next, node`prev
      ensures Valid()
      ensures Nodes == [node] + old(Nodes)
      ensures head == node && (old(Nodes) == [] ==> tail == node)
    {
      if head == null {
        head := node;
        tail := node;
        node.next := null;
        node.prev := null;
        Nodes := [node];
        return;
      }
      ghost var N := Nodes;
      node.prev := null;
      node.next := head;
      head.prev := node;
      head := node;
      Nodes := [node] + Nodes;
      DistinctCons(node, N);
      DistinctAt(N);
      forall j | 1 <= j < |Nodes|
        ensures Nodes[j].prev == Nodes[j - 1]
        ensures j < |Nodes| - 1 ==> Nodes[j].next == Nodes[j + 1]
      {
        assert Nodes[j] == N[j - 1] && N[j - 1] != node;
        if j > 1 {
          assert N[j - 1] != N[0];
          assert old(N[j - 1].prev) == N[j - 2];
        }
        if j < |Nodes| - 1 {
          assert old(N[j - 1].next) == N[j];
        }
      }
    }

    /** The same method as the source writes it: the empty-list branch does
        not return, so the node is then linked in front of itself. The result
        is a node whose `next` and `prev` are the node itself, which no
        well-linked list has (LinkedNoSelfLoop). On a non-empty list it does
        what AddHead does. */
    method AddHeadAsWritten(node: Node<K, V>)
      requires Valid() && node !in Nodes
      modifies this, Nodes`prev, node`next, node`prev
      ensures old(Nodes) != [] ==> Valid() && Nodes == [node] + old(Nodes) && head == node
      ensures old(Nodes) == [] ==>
        head == node && tail == node && node.next == node && node.prev == node && !Valid()
    {
      if head == null {
        head := node;
        tail := node;
        node.next := null;
        node.prev := null;
      }
      ghost var N := Nodes;
      node.prev := null;
      node.next := head;
      head.prev := node;
      head := node;
      Nodes := [node] + Nodes;
      if N != [] {
        DistinctCons(node, N);
        DistinctAt(N);
        forall j | 1 <= j < |Nodes|
          ensures Nodes[j].prev == Nodes[j - 1]
          ensures j < |Nodes| - 1 ==> Nodes[j].next == Nodes[j + 1]
        {
          assert Nodes[j] == N[j - 1] && N[j - 1] != node;
          if j > 1 {
            assert N[j - 1] != N[0];
            assert old(N[j - 1].prev) == N[j - 2];
          }
          if j < |Nodes| - 1 {
            assert old(N[j - 1].next) == N[j];
          }
        }
      } else {
        assert Nodes[0].next != null;
      }
    }

    /** Detaches and returns the tail, or returns null on an empty list. The
        predecessor of the old tail becomes the tail; without one the list is
        empty afterwards. */
    method RemoveTail() returns (oldTail: Node?<K, V>)
      requires Valid()
      modifies this, Nodes`next, Nodes`prev
      ensures Valid()
      ensures old(Nodes) == [] ==> oldTail == null && Nodes == []
      ensures old(Nodes) != [] ==>
        oldTail != null && oldTail == old(Nodes[|Nodes| - 1]) &&
        Nodes == old(Nodes[..|Nodes| - 1]) &&
        oldTail.prev == null && oldTail.next == null
    {
      if tail == null {
        return null;
      }
      ghost var N := Nodes;
      ghost var last := |N| - 1;
      oldTail := tail;
      if last > 0 {
        assert oldTail.prev == N[last - 1];
      }
      tail := tail.prev;
      if tail != null {
        tail.next := null;
      } else {
        head := null;
      }
      oldTail.prev := null;
      Nodes := N[..last];
      DistinctInit(N);
      DistinctAt(N);
      forall j | 0 < j < |Nodes| ensures Nodes[j].prev == Nodes[j - 1] {
        assert Nodes[j] == N[j] != oldTail;
        assert old(N[j].prev) == N[j - 1];
      }
      forall j | 0 <= j < |Nodes| - 1 ensures Nodes[j].next == Nodes[j + 1] {
        assert Nodes[j] == N[j] != N[last - 1];
        assert old(N[j].next) == N[j + 1];
      }
    }

    /** The pointer surgery of RemoveNode: the neighbours of `node` (or
        `head` and `tail` where it has none) are linked past it, and its
        own links are cleared. */
    method Detach(node: Node<K, V>)
      requires node == head <==> node.prev == null
      requires node == tail <==> node.next == null
      requires node.prev != node && node.next != node
      modifies this`head, this`tail, node`prev, node`next
      modifies ({node.prev} - {null})`next, ({node.next} - {null})`prev
      ensures head == if old(node == head) then old(node.next) else old(head)
      ensures tail == if old(node == tail) then old(node.prev) else old(tail)
      ensures old(node != head) ==> old(node.prev).next == old(node.next)
      ensures old(node != tail) ==> old(node.next).prev == old(node.prev)
      ensures node.prev == null && node.next == null
    {
      if node == head && node == tail {
        head := null;
        tail := null;
      } else if node == head {
        head := node.next;
        node.next.prev := node.prev;
      } else if node == tail {
        tail := node.prev;
        node.prev.next := node.next;
      } else {
        node.prev.next := node.next;
        node.next.prev := node.prev;
      }
      node.prev := null;
      node.next := null;
    }

    /** Detaches `node`, wherever it is: sole node, head, tail or interior.
        The other nodes keep their relative order, and the node's own links
        are cleared. */
    method RemoveNode(node: Node<K, V>) returns (r: Node<K, V>)
      requires Valid() && node in Nodes
      modifies this, Nodes`next, Nodes`prev
      ensures Valid()
      ensures r == node && node.prev == null && node.next == null
      ensures Nodes == Remove(old(Nodes), node) && node !in Nodes
      ensures exists i ::
        0 <= i < |old(Nodes)| && old(Nodes)[i] == node && Nodes == old(Nodes)[..i] + old(Nodes)[i + 1..]
    {
      ghost var N := Nodes;
      ghost var i :| 0 <= i < |N| && N[i] == node;
      LinkedAt(head, tail, N, i);
      RemoveAt(N, i);
      RemoveMembers(N, node);
      Detach(node);
      Nodes := N[..i] + N[i + 1..];
      r := node;
      RemoveDistinct(N, node);
      LinkedRemoved(head, tail, N, i, Nodes);
    }

    /** Moves `node` to the head: the list keeps its length and its nodes,
        and the other nodes keep their relative order. */
    method MoveNodeToHead(node: Node<K, V>)
      requires Valid() && node in Nodes
      modifies this, Nodes`next, Nodes`prev
      ensures Valid()
      ensures Nodes == MoveToFront(old(Nodes), node) && head == node
      ensures |Nodes| == |old(Nodes)| && multiset(Nodes) == multiset(old(Nodes))
      ensures forall n :: n in Nodes <==> n in old(Nodes)
    {
      MoveToFrontPermutes(Nodes, node);
      RemoveMembers(Nodes, node);
      var _ := RemoveNode(node);
      AddHead(node);
    }
  }
}
