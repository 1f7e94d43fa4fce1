// linked_list<Type>: a doubly linked list of heap nodes with head_, tail_
// and a size counter. Each node records the list that owns it (list_),
// and insert/erase act only through a node whose owner is this list.
//
// The ghost sequence `nodes` lists the nodes reachable from head_ in next_
// order, and `content` their values; Valid() says how head_, tail_, size_
// and the next_/prev_ links match them.
module LinkedLists {
  class ListNode<T> {
    var value: T
    var next: ListNode?<T>
    var prev: ListNode?<T>
    var owner: LinkedList?<T>

    /** linked_list_node(const value_type &): unlinked and without an owner. */
    constructor (t: T)
      ensures value == t && next == null && prev == null && owner == null
    {
      value := t;
      next := null;
      prev := null;
      owner := null;
    }

    /** The node copy constructor: value and all three links copied. */
    constructor Copy(n: ListNode<T>)
      ensures value == n.value && next == n.next && prev == n.prev && owner == n.owner
    {
      value := n.value;
      next := n.next;
      prev := n.prev;
      owner := n.owner;
    }
  }

  /** No node occurs twice. */
  ghost predicate Distinct<T>(nodes: seq<ListNode<T>>)
  {
    forall i, j :: 0 <= i < j < |nodes| ==> nodes[i] != nodes[j]
  }

  /** The node at k occurs nowhere else. */
  lemma DistinctAt<T>(nodes: seq<ListNode<T>>, k: nat)
    requires Distinct(nodes) && k < |nodes|
    ensures forall j :: 0 <= j < |nodes| && j != k ==> nodes[j] != nodes[k]
  {
  }

  /**
   * The nodes are distinct, hold content in order, are linked forwards by
   * next_ and backwards by prev_, and the first has no predecessor. The
   * last node's next_ is left open, as it is while a copy is being built.
   */
  ghost predicate LinkedOpen<T>(nodes: seq<ListNode<T>>, content: seq<T>)
    reads nodes
  {
    |nodes| == |content| &&
    (forall i :: 0 <= i < |nodes| ==> nodes[i].value == content[i]) &&
    (forall i :: 0 <= i < |nodes| - 1 ==> nodes[i].next == nodes[i + 1]) &&
    (forall i :: 0 < i < |nodes| ==> nodes[i].prev == nodes[i - 1]) &&
    (|nodes| > 0 ==> nodes[0].prev == null) &&
    Distinct(nodes)
  }

  /** A complete chain: open, and the last node's next_ is null. */
  ghost predicate Linked<T>(nodes: seq<ListNode<T>>, content: seq<T>)
    reads nodes
  {
    LinkedOpen(nodes, content) && (|nodes| > 0 ==> nodes[|nodes| - 1].next == null)
  }

  /** The facts a chain gives about the node at position k. */
  lemma LinkedAt<T>(nodes: seq<ListNode<T>>, content: seq<T>, k: nat)
    requires LinkedOpen(nodes, content) && k < |nodes|
    ensures nodes[k].value == content[k]
    ensures k + 1 < |nodes| ==> nodes[k].next == nodes[k + 1]
    ensures nodes[k].prev == if k > 0 then nodes[k - 1] else null
    ensures forall j :: 0 <= j < |nodes| && j != k ==> nodes[j] != nodes[k]
  {
  }

  /**
   * The chain around the node at k during erase's pointer work, stated on
   * the old positions: once fwd, the predecessor's next_ skips it; once
   * bwd, the successor's prev_ skips it; every other link is as in a
   * complete chain.
   */
  ghost predicate Relinked<T>(nodes: seq<ListNode<T>>, content: seq<T>, k: nat, fwd: bool, bwd: bool)
    reads nodes
  {
    |nodes| == |content| && k < |nodes| &&
    (forall i :: 0 <= i < |nodes| ==> nodes[i].value == content[i]) &&
    (forall i :: 0 <= i < |nodes| - 1 && i != k - 1 && i != k ==> nodes[i].next == nodes[i + 1]) &&
    (forall i :: 0 < i < |nodes| && i != k && i != k + 1 ==> nodes[i].prev == nodes[i - 1]) &&
    (k != 0 ==> nodes[0].prev == null) &&
    (k != |nodes| - 1 ==> nodes[|nodes| - 1].next == null) &&
    nodes[k].next == (if k + 1 < |nodes| then nodes[k + 1] else null) &&
    nodes[k].prev == (if k > 0 then nodes[k - 1] else null) &&
    (k > 0 ==> nodes[k - 1].next == if !fwd then nodes[k] else if k + 1 < |nodes| then nodes[k + 1] else null) &&
    (k + 1 < |nodes| ==> nodes[k + 1].prev == if !bwd then nodes[k] else if k > 0 then nodes[k - 1] else null) &&
    Distinct(nodes)
  }

  /** A complete chain is one where nothing around k has been relinked yet. */
  lemma LinkedRelinked<T>(nodes: seq<ListNode<T>>, content: seq<T>, k: nat)
    requires Linked(nodes, content) && k < |nodes|
    ensures Relinked(nodes, content, k, false, false)
  {
    LinkedAt(nodes, content, k);
  }

  /** erase's relinking: once the node at k is bypassed, the other nodes form a complete chain. */
  lemma {:induction false} Unlink<T>(nodes: seq<ListNode<T>>, content: seq<T>, k: nat)
    requires Relinked(nodes, content, k, true, true)
    ensures Linked(nodes[..k] + nodes[k + 1..], content[..k] + content[k + 1..])
  {
    var ns, cs := nodes[..k] + nodes[k + 1..], content[..k] + content[k + 1..];
    forall i | 0 <= i < |ns|
      ensures ns[i].value == cs[i]
      ensures i + 1 < |ns| ==> ns[i].next == ns[i + 1]
      ensures ns[i].prev == if i > 0 then ns[i - 1] else null
      ensures forall j :: 0 <= j < i ==> ns[j] != ns[i]
    {
      var o := if i < k then i else i + 1;
      assert ns[i] == nodes[o] && cs[i] == content[o];
      if i + 1 < |ns| {
        assert ns[i + 1] == nodes[if i + 1 < k then i + 1 else i + 2];
      }
      if i > 0 {
        assert ns[i - 1] == nodes[if i - 1 < k then i - 1 else i];
      }
      forall j | 0 <= j < i
        ensures ns[j] != ns[i]
      {
        assert ns[j] == nodes[if j < k then j else j + 1];
      }
    }
  }

  /**
   * The chain around a new node n during insert's pointer work before the
   * node at k, stated on the old positions: n already points at the node
   * at k and at its predecessor; once fwd, the predecessor's next_ is n;
   * once bwd, the node's prev_ is n; every other link is as in a complete
   * chain.
   */
  ghost predicate Splicing<T>(nodes: seq<ListNode<T>>, content: seq<T>, k: nat, n: ListNode<T>, fwd: bool, bwd: bool)
    reads nodes, n
  {
    |nodes| == |content| && k < |nodes| && n !in nodes &&
    (forall i :: 0 <= i < |nodes| ==> nodes[i].value == content[i]) &&
    (forall i :: 0 <= i < |nodes| - 1 && i != k - 1 ==> nodes[i].next == nodes[i + 1]) &&
    (forall i :: 0 < i < |nodes| && i != k ==> nodes[i].prev == nodes[i - 1]) &&
    (k != 0 ==> nodes[0].prev == null) && nodes[|nodes| - 1].next == null &&
    n.next == nodes[k] && n.prev == (if k > 0 then nodes[k - 1] else null) &&
    (k > 0 ==> nodes[k - 1].next == if fwd then n else nodes[k]) &&
    nodes[k].prev == (if bwd then n else if k > 0 then nodes[k - 1] else null) &&
    Distinct(nodes)
  }

  /** insert's relinking: once n is spliced in before the node at k, the chain holds it at k. */
  lemma {:induction false} LinkBefore<T>(nodes: seq<ListNode<T>>, content: seq<T>, k: nat, n: ListNode<T>)
    requires Splicing(nodes, content, k, n, true, true) && k > 0
    ensures Linked(nodes[..k] + [n] + nodes[k..], content[..k] + [n.value] + content[k..])
  {
    var ns, cs := nodes[..k] + [n] + nodes[k..], content[..k] + [n.value] + content[k..];
    forall i | 0 <= i < |ns|
      ensures ns[i].value == cs[i]
      ensures i + 1 < |ns| ==> ns[i].next == ns[i + 1]
      ensures ns[i].prev == if i > 0 then ns[i - 1] else null
      ensures forall j :: 0 <= j < i ==> ns[j] != ns[i]
    {
      if i != k {
        var o := if i < k then i else i - 1;
        assert ns[i] == nodes[o] && cs[i] == content[o];
        if i + 1 < |ns| && i + 1 != k {
          assert ns[i + 1] == nodes[if i + 1 < k then i + 1 else i];
        }
        if i > 0 && i - 1 != k {
          assert ns[i - 1] == nodes[if i - 1 < k then i - 1 else i - 2];
        }
      }
      forall j | 0 <= j < i
        ensures ns[j] != ns[i]
      {
        if j != k {
          assert ns[j] == nodes[if j < k then j else j - 1];
        }
      }
    }
  }

  /** Every node after the first is owned by o; the copy constructor leaves the first with rhs's owner. */
  ghost predicate OwnedAfterFirst<T>(nodes: seq<ListNode<T>>, o: LinkedList<T>)
    reads nodes
  {
    forall i :: 0 < i < |nodes| ==> nodes[i].owner == o
  }

  /** The ends of a sequence once the element at k is removed. */
  lemma RemoveAtEnds<T>(s: seq<T>, k: nat)
    requires k < |s|
    ensures |s[..k] + s[k + 1..]| == |s| - 1
    ensures |s| > 1 ==> (s[..k] + s[k + 1..])[0] == (if k == 0 then s[1] else s[0])
    ensures |s| > 1 ==> (s[..k] + s[k + 1..])[|s| - 2] == (if k == |s| - 1 then s[|s| - 2] else s[|s| - 1])
  {
  }

  /** The ends of a sequence once x is inserted strictly inside it. */
  lemma InsertAtEnds<T>(s: seq<T>, k: nat, x: T)
    requires 0 < k < |s|
    ensures |s[..k] + [x] + s[k..]| == |s| + 1
    ensures (s[..k] + [x] + s[k..])[0] == s[0]
    ensures (s[..k] + [x] + s[k..])[|s|] == s[|s| - 1]
  {
  }

  /** head_ and tail_ are the first and the last node, both null for an empty chain. */
  ghost predicate Ends<T>(nodes: seq<ListNode<T>>, head: ListNode?<T>, tail: ListNode?<T>)
  {
    head == (if |nodes| == 0 then null else nodes[0]) &&
    tail == (if |nodes| == 0 then null else nodes[|nodes| - 1])
  }

  class LinkedList<T> {
    var head: ListNode?<T>
    var tail: ListNode?<T>
    var size: nat
    ghost var nodes: seq<ListNode<T>>
    ghost var content: seq<T>

    ghost predicate Valid()
      reads this, nodes
    {
      size == |nodes| && Ends(nodes, head, tail) && Linked(nodes, content)
    }

    /** linked_list(): empty. */
    constructor ()
      ensures Valid() && content == []
    {
      head := null;
      tail := null;
      size := 0;
      nodes := [];
      content := [];
    }

    /** size(). */
    function Size(): (n: nat)
      requires Valid()
      reads this, nodes
      ensures n == |content|
    {
      size
    }

    /** begin(): an iterator on head_; end() is the null iterator. */
    function Begin(): (it: ListNode?<T>)
      requires Valid()
      reads this, nodes
      ensures it == null <==> content == []
      ensures it != null ==> it == nodes[0] && it.value == content[0]
    {
      if head != null then LinkedAt(nodes, content, 0); head else null
    }

    /** push_front: a new first node owned by this list. */
    method PushFront(t: T) returns (ghost n: ListNode<T>)
      requires Valid()
      modifies this, nodes
      ensures Valid() && fresh(n) && n.owner == this
      ensures nodes == [n] + old(nodes) && content == [t] + old(content)
    {
      var node := new ListNode(t);
      node.owner := this;
      if head != null {
        LinkedAt(nodes, content, 0);
      }
      ghost var ns, cs := nodes, content;
      AttachFront(node);
      SetChain([node] + ns, [t] + cs);
      n := node;
    }

    /** push_front's pointer work: node goes before head_, and becomes tail_ too in an empty list. */
    method AttachFront(node: ListNode<T>)
      requires node != head
      modifies this, node, head
      ensures nodes == old(nodes) && content == old(content) && size == old(size) + 1
      ensures head == node && tail == (if old(tail) == null then node else old(tail))
      ensures node.next == old(head) && node.prev == old(node.prev) && node.value == old(node.value) && node.owner == old(node.owner)
      ensures old(head) != null ==>
        old(head).prev == node && old(head).next == old(head.next) &&
        old(head).value == old(head.value) && old(head).owner == old(head.owner)
    {
      if tail == null {
        tail := node;
      }
      if head != null {
        head.prev := node;
      }
      node.next := head;
      head := node;
      size := size + 1;
    }

    /** push_back: a new last node owned by this list. */
    method PushBack(t: T) returns (ghost n: ListNode<T>)
      requires Valid()
      modifies this, nodes
      ensures Valid() && fresh(n) && n.owner == this
      ensures nodes == old(nodes) + [n] && content == old(content) + [t]
    {
      var node := new ListNode(t);
      node.owner := this;
      if tail != null {
        LinkedAt(nodes, content, |nodes| - 1);
      }
      ghost var ns, cs := nodes, content;
      AttachBack(node);
      SetChain(ns + [node], cs + [t]);
      n := node;
    }

    /** push_back's pointer work: node goes after tail_, and becomes head_ too in an empty list. */
    method AttachBack(node: ListNode<T>)
      requires node != tail
      modifies this, node, tail
      ensures nodes == old(nodes) && content == old(content) && size == old(size) + 1
      ensures tail == node && head == (if old(head) == null then node else old(head))
      ensures node.prev == old(tail) && node.next == old(node.next) && node.value == old(node.value) && node.owner == old(node.owner)
      ensures old(tail) != null ==>
        old(tail).next == node && old(tail).prev == old(tail.prev) &&
        old(tail).value == old(tail.value) && old(tail).owner == old(tail.owner)
    {
      if head == null {
        head := node;
      }
      if tail != null {
        tail.next := node;
      }
      node.prev := tail;
      tail := node;
      size := size + 1;
    }

    /** Following next_ from begin() to the null end() visits the values in order. */
    method Values() returns (vs: seq<T>)
      requires Valid()
      ensures vs == content
    {
      vs := [];
      var it := head;
      while it != null
        invariant |vs| <= |nodes|
        invariant vs == content[..|vs|]
        invariant it == if |vs| < |nodes| then nodes[|vs|] else null
        decreases |nodes| - |vs|
      {
        LinkedAt(nodes, content, |vs|);
        vs := vs + [it.value];
        it := it.next;
      }
    }

    /**
     * erase: through a node owned by this list, unlinks it, moving head_ or
     * tail_ when it was first or last; through the null iterator or a node
     * owned elsewhere, nothing happens. k is the erased position, or -1.
     */
    method Erase(it: ListNode?<T>) returns (ghost k: int)
      requires Valid()
      requires it != null && it.owner == this ==> it in nodes
      modifies this, nodes
      ensures Valid()
      ensures it != null ==> it.prev == old(it.prev) && it.next == old(it.next)
      ensures it == null || old(it.owner) != this ==> k == -1 && nodes == old(nodes) && content == old(content)
      ensures it != null && old(it.owner) == this ==>
        0 <= k < |old(nodes)| && old(nodes)[k] == it &&
        nodes == old(nodes)[..k] + old(nodes)[k + 1..] && content == old(content)[..k] + old(content)[k + 1..]
    {
      k := -1;
      if it != null && it.owner == this {
        k :| 0 <= k < |nodes| && nodes[k] == it;
        EraseAt(it, k);
      }
    }

    /** erase's unlinking of the node at position k. */
    method EraseAt(it: ListNode<T>, ghost k: nat)
      requires Valid() && k < |nodes| && nodes[k] == it
      modifies this, nodes
      ensures Valid() && it.prev == old(it.prev) && it.next == old(it.next)
      ensures nodes == old(nodes)[..k] + old(nodes)[k + 1..] && content == old(content)[..k] + old(content)[k + 1..]
    {
      LinkedAt(nodes, content, k);
      Bypass(it, k);
      CommitErase(k);
    }

    /** Once the node at k is bypassed, the chain without it is linked. */
    ghost method CommitErase(k: nat)
      requires k < |nodes| && Relinked(nodes, content, k, true, true)
      requires size == |nodes| - 1 && Ends(nodes[..k] + nodes[k + 1..], head, tail)
      modifies this
      ensures Valid()
      ensures nodes == old(nodes)[..k] + old(nodes)[k + 1..] && content == old(content)[..k] + old(content)[k + 1..]
    {
      Unlink(nodes, content, k);
      nodes, content := nodes[..k] + nodes[k + 1..], content[..k] + content[k + 1..];
    }

    /** erase's pointer work: the neighbours of the node at k (or head_ and tail_) are linked past it. */
    method Bypass(it: ListNode<T>, ghost k: nat)
      requires Valid() && k < |nodes| && nodes[k] == it
      modifies this, it.prev, it.next
      ensures nodes == old(nodes) && content == old(content) && size == old(size) - 1
      ensures Ends(nodes[..k] + nodes[k + 1..], head, tail)
      ensures it.prev == old(it.prev) && it.next == old(it.next)
      ensures Relinked(nodes, content, k, true, true)
    {
      LinkedRelinked(nodes, content, k);
      RemoveAtEnds(nodes, k);
      BypassForward(it, k);
      BypassBackward(it, k);
    }

    /** The first half of erase's pointer work: the predecessor's next_, or head_, skips the node. */
    method BypassForward(it: ListNode<T>, ghost k: nat)
      requires Relinked(nodes, content, k, false, false) && nodes[k] == it
      requires head == (if k == 0 then it else nodes[0])
      modifies this, it.prev
      ensures nodes == old(nodes) && content == old(content) && size == old(size) && tail == old(tail)
      ensures head == (if k == 0 then it.next else old(head))
      ensures it.prev == old(it.prev) && it.next == old(it.next)
      ensures Relinked(nodes, content, k, true, false)
    {
      if k > 0 {
        DistinctAt(nodes, k - 1);
      }
      if it.prev == null {
        head := it.next;
      } else {
        it.prev.next := it.next;
      }
    }

    /** The second half of erase's pointer work: the successor's prev_, or tail_, skips the node. */
    method BypassBackward(it: ListNode<T>, ghost k: nat)
      requires Relinked(nodes, content, k, true, false) && nodes[k] == it
      requires tail == (if k == |nodes| - 1 then it else nodes[|nodes| - 1]) && size > 0
      modifies this, it.next
      ensures nodes == old(nodes) && content == old(content) && size == old(size) - 1 && head == old(head)
      ensures tail == (if k == |nodes| - 1 then it.prev else old(tail))
      ensures it.prev == old(it.prev) && it.next == old(it.next)
      ensures Relinked(nodes, content, k, true, true)
    {
      if k + 1 < |nodes| {
        DistinctAt(nodes, k + 1);
      }
      if it.next == null {
        tail := it.prev;
      } else {
        it.next.prev := it.prev;
      }
      size := size - 1;
    }

    /**
     * insert: through a node owned by this list, links a new unowned node
     * holding t just before it and counts it. Before the first node this
     * leaves head_ where it was, so the new node is linked backwards but
     * not reachable from begin(), and size_ no longer matches the chain.
     * k is the node's position, or -1 when nothing happens.
     */
    method Insert(it: ListNode?<T>, t: T) returns (ghost k: int, ghost n: ListNode?<T>)
      requires Valid()
      requires it != null && it.owner == this ==> it in nodes
      modifies this, nodes
      ensures it == null || old(it.owner) != this ==> k == -1 && Valid() && nodes == old(nodes) && content == old(content)
      ensures it != null && old(it.owner) == this ==>
        0 <= k < |old(nodes)| && old(nodes)[k] == it && n != null && fresh(n) && n.owner == null && n.value == t
      ensures it != null && old(it.owner) == this && k > 0 ==>
        Valid() && nodes == old(nodes)[..k] + [n] + old(nodes)[k..] && content == old(content)[..k] + [t] + old(content)[k..]
      ensures it != null && old(it.owner) == this && k == 0 ==>
        head == old(head) && it.prev == n && n.next == it && n.prev == null &&
        nodes == old(nodes) && content == old(content) && size == |nodes| + 1 && !Valid()
    {
      k, n := -1, null;
      if it != null && it.owner == this {
        k :| 0 <= k < |nodes| && nodes[k] == it;
        n := InsertAt(it, t, k);
      }
    }

    /** Records the chain the pointer work has built. */
    ghost method SetChain(ns: seq<ListNode<T>>, cs: seq<T>)
      modifies this
      ensures nodes == ns && content == cs
      ensures head == old(head) && tail == old(tail) && size == old(size)
    {
      nodes, content := ns, cs;
    }

    /** insert's linking of a new node before the node at position k. */
    method InsertAt(it: ListNode<T>, t: T, ghost k: nat) returns (ghost n: ListNode<T>)
      requires Valid() && k < |nodes| && nodes[k] == it
      modifies this, nodes
      ensures fresh(n) && n.owner == null && n.value == t
      ensures k > 0 ==>
        Valid() && nodes == old(nodes)[..k] + [n] + old(nodes)[k..] && content == old(content)[..k] + [t] + old(content)[k..]
      ensures k == 0 ==>
        head == old(head) && it.prev == n && n.next == it && n.prev == null &&
        nodes == old(nodes) && content == old(content) && size == |nodes| + 1
    {
      LinkedAt(nodes, content, k);
      var node := new ListNode(t);
      ghost var ns, cs := nodes, content;
      Splice(it, node, k);
      n := node;
      if k > 0 {
        CommitInsert(node, k);
      }
    }

    /** Once a node is spliced in after the head, the chain is linked again and includes it. */
    ghost method CommitInsert(node: ListNode<T>, k: nat)
      requires 0 < k < |nodes| && Splicing(nodes, content, k, node, true, true)
      requires size == |nodes| + 1 && head == nodes[0] && tail == nodes[|nodes| - 1]
      modifies this
      ensures Valid()
      ensures nodes == old(nodes)[..k] + [node] + old(nodes)[k..]
      ensures content == old(content)[..k] + [node.value] + old(content)[k..]
    {
      LinkBefore(nodes, content, k, node);
      InsertAtEnds(nodes, k, node);
      nodes, content := nodes[..k] + [node] + nodes[k..], content[..k] + [node.value] + content[k..];
    }

    /** insert's pointer work: node goes between the node at k and its predecessor; head_ is left alone. */
    method Splice(it: ListNode<T>, node: ListNode<T>, ghost k: nat)
      requires Valid() && k < |nodes| && nodes[k] == it && node !in nodes
      modifies this, node, it, it.prev
      ensures nodes == old(nodes) && content == old(content) && size == old(size) + 1
      ensures head == old(head) && tail == old(tail)
      ensures node.value == old(node.value) && node.owner == old(node.owner)
      ensures Splicing(nodes, content, k, node, true, true)
    {
      LinkedAt(nodes, content, k);
      DistinctAt(nodes, k);
      node.next := it;
      node.prev := it.prev;
      SpliceForward(it, node, k);
      SpliceBackward(it, node, k);
    }

    /** The predecessor's next_, if there is one, becomes the new node. */
    method SpliceForward(it: ListNode<T>, node: ListNode<T>, ghost k: nat)
      requires Splicing(nodes, content, k, node, false, false) && nodes[k] == it
      modifies it.prev
      ensures it.prev == old(it.prev)
      ensures Splicing(nodes, content, k, node, true, false)
    {
      if k > 0 {
        DistinctAt(nodes, k - 1);
      }
      if it.prev != null {
        it.prev.next := node;
      }
    }

    /** The node's prev_ becomes the new node, which is counted. */
    method SpliceBackward(it: ListNode<T>, node: ListNode<T>, ghost k: nat)
      requires Splicing(nodes, content, k, node, true, false) && nodes[k] == it
      modifies this, it
      ensures nodes == old(nodes) && content == old(content) && size == old(size) + 1
      ensures head == old(head) && tail == old(tail)
      ensures Splicing(nodes, content, k, node, true, true)
    {
      DistinctAt(nodes, k);
      it.prev := node;
      size := size + 1;
    }

    /**
     * clear: erases at begin() and steps back with --. The erased head has
     * no predecessor, so the loop ends after one erase: only the first
     * node is removed, and none when the head is owned by another list,
     * as a copy's head is.
     */
    method Clear()
      requires Valid()
      modifies this, nodes
      ensures Valid()
      ensures old(nodes) == [] || old(nodes[0].owner) != this ==> nodes == old(nodes) && content == old(content)
      ensures old(nodes) != [] && old(nodes[0].owner) == this ==> nodes == old(nodes)[1..] && content == old(content)[1..]
    {
      var it := head;
      ghost var erased := false;
      while it != null
        invariant Valid()
        invariant !erased ==> it == old(head) && nodes == old(nodes) && content == old(content)
        invariant !erased && it != null ==> it.owner == old(it.owner)
        invariant erased ==> it == null && old(head) != null
        invariant erased && old(head.owner) == this ==> nodes == old(nodes)[1..] && content == old(content)[1..]
        invariant erased && old(head.owner) != this ==> nodes == old(nodes) && content == old(content)
        decreases if erased then 0 else 1
      {
        LinkedAt(nodes, content, 0);
        var k := Erase(it);
        it := it.prev;
        erased := true;
      }
    }

    /**
     * operator=: copy-and-swap. A copy of rhs trades head_, tail_ and size_
     * with this. The copied nodes after the first are owned by that
     * temporary copy, not by this list, so erase and insert through them
     * do nothing afterwards.
     */
    method Assign(rhs: LinkedList<T>)
      requires Valid() && rhs.Valid()
      modifies this
      ensures Valid() && content == old(rhs.content)
      ensures forall i :: 0 <= i < |nodes| ==> fresh(nodes[i])
      ensures forall i :: 0 < i < |nodes| ==> nodes[i].owner != this
      ensures |nodes| > 0 ==> |old(rhs.nodes)| > 0 && nodes[0].owner == old(rhs.nodes[0].owner)
      ensures rhs != this ==> rhs.Valid() && rhs.content == old(rhs.content)
    {
      var tmp := CopyList(rhs);
      Swap(tmp);
    }

    /** The three std::swap calls of operator=, with the chains they exchange. */
    method Swap(other: LinkedList<T>)
      modifies this, other
      ensures head == old(other.head) && tail == old(other.tail) && size == old(other.size)
      ensures nodes == old(other.nodes) && content == old(other.content)
      ensures other != this ==> other.head == old(head) && other.tail == old(tail) && other.size == old(size)
      ensures other != this ==> other.nodes == old(nodes) && other.content == old(content)
    {
      head, other.head := other.head, head;
      tail, other.tail := other.tail, tail;
      size, other.size := other.size, size;
      nodes, other.nodes := other.nodes, nodes;
      content, other.content := other.content, content;
    }
  }

  /**
   * The copy loop's step: a copy of src, owned by o, linked after prev,
   * the last node of the chain built so far, which it extends.
   */
  method AppendCopy<T>(prev: ListNode<T>, src: ListNode<T>, o: LinkedList<T>, ghost ns: seq<ListNode<T>>, ghost cs: seq<T>)
      returns (curr: ListNode<T>)
    requires LinkedOpen(ns, cs) && OwnedAfterFirst(ns, o) && |ns| > 0 && prev == ns[|ns| - 1]
    modifies prev
    ensures fresh(curr) && curr.value == old(src.value) && curr.next == old(src.next) && curr.owner == o
    ensures LinkedOpen(ns + [curr], cs + [curr.value]) && OwnedAfterFirst(ns + [curr], o)
    ensures ns[0].owner == old(ns[0].owner)
  {
    curr := new ListNode.Copy(src);
    prev.next := curr;
    curr.prev := prev;
    curr.owner := o;
    var ns', cs' := ns + [curr], cs + [curr.value];
    forall i | 0 <= i < |ns'|
      ensures ns'[i].value == cs'[i] && ns'[i].prev == (if i > 0 then ns'[i - 1] else null)
      ensures i + 1 < |ns'| ==> ns'[i].next == ns'[i + 1]
      ensures i > 0 ==> ns'[i].owner == o
    {
      if i < |ns| {
        assert ns'[i] == ns[i];
        if i > 0 {
          assert ns'[i - 1] == ns[i - 1];
        }
      }
    }
  }

  /**
   * The copy constructor: size_ from rhs, the head node copied whole
   * (including its owner, still rhs's), then each further node copied,
   * linked after the last and given this list as owner.
   */
  method CopyList<T>(rhs: LinkedList<T>) returns (l: LinkedList<T>)
    requires rhs.Valid()
    ensures fresh(l) && l.Valid() && l.content == rhs.content
    ensures forall i :: 0 <= i < |l.nodes| ==> fresh(l.nodes[i])
    ensures |l.nodes| > 0 ==> l.nodes[0].owner == rhs.nodes[0].owner
    ensures OwnedAfterFirst(l.nodes, l)
  {
    l := new LinkedList();
    l.size := rhs.size;
    if l.size > 0 {
      var first, last, ns, cs := CopyNodes(rhs, l);
      l.head, l.tail := first, last;
      l.nodes, l.content := ns, cs;
    }
  }

  /** The copy constructor's node loop: fresh copies of rhs's nodes, linked in order, the later ones owned by l. */
  method CopyNodes<T>(rhs: LinkedList<T>, l: LinkedList<T>)
      returns (first: ListNode<T>, last: ListNode<T>, ghost ns: seq<ListNode<T>>, ghost cs: seq<T>)
    requires rhs.Valid() && |rhs.nodes| > 0
    ensures Linked(ns, cs) && cs == rhs.content && Ends(ns, first, last)
    ensures forall i :: 0 <= i < |ns| ==> fresh(ns[i])
    ensures first.owner == rhs.nodes[0].owner && OwnedAfterFirst(ns, l)
  {
    LinkedAt(rhs.nodes, rhs.content, 0);
    first := new ListNode.Copy(rhs.head);
    ns, cs := [first], [first.value];
    var prev := first;
    var i := rhs.head.next;
    while i != null
      invariant 1 <= |ns| <= |rhs.nodes| && cs == rhs.content[..|ns|]
      invariant i == if |ns| < |rhs.nodes| then rhs.nodes[|ns|] else null
      invariant prev == ns[|ns| - 1] && prev.next == i
      invariant LinkedOpen(ns, cs) && OwnedAfterFirst(ns, l)
      invariant ns[0] == first && first.owner == rhs.nodes[0].owner
      invariant forall j :: 0 <= j < |ns| ==> fresh(ns[j])
      decreases |rhs.nodes| - |ns|
    {
      LinkedAt(rhs.nodes, rhs.content, |ns|);
      var curr := AppendCopy(prev, i, l, ns, cs);
      ns, cs := ns + [curr], cs + [curr.value];
      prev := curr;
      i := i.next;
    }
    last := prev;
  }
}
