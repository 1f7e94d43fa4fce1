// basic_xml_element_node::iterator and erase: a pre-order walk over an
// element tree that keeps its position in explicit frames instead of
// recursion, and the removal of the list cell under the cursor.
//
// The tree is the value held by the element begin() was called on. The
// iterator's pointers are positions in that tree: the current node and
// its list cell are paths, a frame is the element whose children are
// being walked and the index of its next child (end is the length of
// that list), and the trail of saved frames has its top first, as the
// entries of Stacks.Stack do. A step the C++ code takes through a null
// pointer or an end iterator is undefined there; here it sets `faulted`.
module XmlIterator {
  import opened Wrappers
  import opened XmlNodes
  import opened XmlElements

  /** iter_state: the element whose children are walked (null: None) and its cursor next_. */
  datatype Frame = Frame(host: Option<Path>, next: nat)

  /** The iterator's fields: node_ptr_, node_it_, curr_ and trail_, and whether a step was undefined. */
  datatype Cursor = Cursor(node: Option<Path>, cell: Option<Path>, curr: Frame, trail: seq<Frame>, faulted: bool)

  /** begin(): the root itself, no cell yet, a frame on the root's first child. */
  const BeginCursor := Cursor(Some([]), None, Frame(Some([]), 0), [], false)

  /** iterator(e) for the element at p: e itself, no cell yet, a frame on e's first child. */
  function PointerCursor(p: Path): (c: Cursor)
    ensures c.node == Some(p) && !c.faulted
  {
    Cursor(Some(p), None, Frame(Some(p), 0), [], false)
  }

  /** end(): iterator(nullptr). */
  const EndCursor := Cursor(None, None, Frame(None, 0), [], false)

  /** The child list of the element at host, if host names an element of root. */
  function HostChildren(root: XNode, host: Option<Path>): (r: Option<seq<XNode>>)
    ensures r.Some? ==> host.Some? && NodeAt(root, host.value).Some? && NodeAt(root, host.value).value.Elem?
    ensures r.Some? ==> r.value == NodeAt(root, host.value).value.children
  {
    if host.None? then None
    else match NodeAt(root, host.value)
      case None => None
      case Some(n) => if n.Elem? then Some(n.children) else None
  }

  /** The cursor after an undefined step. */
  function Fault(c: Cursor): (r: Cursor)
    ensures r.faulted
  {
    c.(faulted := true)
  }

  // ---------------------------------------------------------------------
  // advance
  // ---------------------------------------------------------------------

  /** `++curr_.next_`: moving an end cursor, or one with no host, is undefined. */
  function Bump(root: XNode, c: Cursor): (r: Cursor)
    ensures !r.faulted ==> r == c.(curr := Frame(c.curr.host, c.curr.next + 1))
  {
    var hc := HostChildren(root, c.curr.host);
    if hc.None? || c.curr.next >= |hc.value| then Fault(c)
    else c.(curr := c.curr.(next := c.curr.next + 1))
  }

  /**
   * The loop over the trail: pop a frame into curr_; if its cursor is not
   * at the end, step it and land on the child there, which is undefined
   * when the step reaches the end; otherwise pop the next frame. An empty
   * trail leaves the node null.
   */
  function Backtrack(root: XNode, c: Cursor): (r: Cursor)
    decreases |c.trail|
  {
    if c.trail == [] then c
    else
      var f := c.trail[0];
      var c1 := c.(curr := f, trail := c.trail[1..]);
      var hc := HostChildren(root, f.host);
      if hc.None? || f.next > |hc.value| then Fault(c1)
      else if f.next == |hc.value| then Backtrack(root, c1)
      else
        var c2 := c1.(curr := Frame(f.host, f.next + 1));
        if f.next + 1 == |hc.value| then Fault(c2)
        else c2.(node := Some(f.host.value + [f.next + 1]), cell := Some(f.host.value + [f.next + 1]))
  }

  /**
   * iterator::advance. From an element with children it moves to the first
   * child; an element child gets a frame of its own and the old frame is
   * saved with its cursor still on that child, any other child steps the
   * current frame's cursor. Otherwise it moves to the child under the
   * current frame's cursor and steps past it; at the end of that list it
   * backtracks through the trail.
   */
  function AdvanceSpec(root: XNode, c: Cursor): (r: Cursor)
  {
    if c.faulted then c
    else if c.node.None? then Fault(c)
    else
      var p := c.node.value;
      match NodeAt(root, p)
      case None => Fault(c)
      case Some(n) =>
        if n.Elem? && |n.children| > 0 then
          var c1 := c.(node := Some(p + [0]), cell := Some(p + [0]));
          if n.children[0].Elem? then c1.(trail := [c.curr] + c.trail, curr := Frame(Some(p + [0]), 0))
          else Bump(root, c1)
        else
          var hc := HostChildren(root, c.curr.host);
          if hc.None? || c.curr.next > |hc.value| then Fault(c)
          else if c.curr.next < |hc.value| then
            var q := c.curr.host.value + [c.curr.next];
            c.(node := Some(q), cell := Some(q), curr := Frame(c.curr.host, c.curr.next + 1))
          else Backtrack(root, c.(node := None))
  }

  /** The cursor after k calls of advance. */
  function Walk(root: XNode, c: Cursor, k: nat): Cursor
    decreases k
  {
    if k == 0 then c else Walk(root, AdvanceSpec(root, c), k - 1)
  }

  // ---------------------------------------------------------------------
  // erase
  // ---------------------------------------------------------------------

  /**
   * The trail loop of erase: each popped frame becomes curr_ and ep
   * becomes the element under its cursor (None if that child is not an
   * element; undefined at the end of the list), or the frame's own host
   * when that element is the current node.
   */
  function EraseLoop(root: XNode, c: Cursor, ep: Option<Path>): (r: (Cursor, Option<Path>))
    ensures !r.0.faulted ==> r.0.trail == [] && r.0.node == c.node && r.0.cell == c.cell
    decreases |c.trail|
  {
    if c.trail == [] then (c, ep)
    else
      var f := c.trail[0];
      var c1 := c.(curr := f, trail := c.trail[1..]);
      var hc := HostChildren(root, f.host);
      if hc.None? || f.next >= |hc.value| then (Fault(c1), ep)
      else
        var under := if hc.value[f.next].Elem? then Some(f.host.value + [f.next]) else None;
        EraseLoop(root, c1, if under == c.node then f.host else under)
  }

  /** The tree with the k-th child of the element at parent removed; anything else is left as it is. */
  function RemoveAt(n: XNode, parent: Path, k: nat): (r: XNode)
    ensures r.Elem? == n.Elem?
    ensures n.Elem? ==> r.name == n.name && r.value == n.value
    decreases |parent|
  {
    if !n.Elem? then n
    else if parent == [] then
      if k < |n.children| then n.(children := n.children[..k] + n.children[k + 1..]) else n
    else if parent[0] < |n.children| then
      n.(children := n.children[parent[0] := RemoveAt(n.children[parent[0]], parent[1..], k)])
    else n
  }

  /** What erase leaves: the tree and the iterator. */
  datatype Erased = Erased(root: XNode, cursor: Cursor)

  /**
   * erase(e): ep starts as the current frame's host; if that is the
   * current node, the trail loop picks ep again. Then the cell node_it_
   * is unlinked from ep's child list. linked_list::erase does nothing for
   * a null cell or a cell of another list; a null ep, or a cell whose node
   * is already gone, is undefined.
   */
  function EraseSpec(root: XNode, c: Cursor): (r: Erased)
  {
    if c.faulted then Erased(root, c)
    else
      var (c1, ep) := if c.curr.host == c.node then EraseLoop(root, c, c.curr.host) else (c, c.curr.host);
      if c1.faulted then Erased(root, c1)
      else if ep.None? then Erased(root, Fault(c1))
      else if c1.cell.None? || c1.cell.value == [] then Erased(root, c1)
      else
        var q := c1.cell.value;
        if q[..|q| - 1] != ep.value then Erased(root, c1)
        else if NodeAt(root, q).None? then Erased(root, Fault(c1))
        else Erased(RemoveAt(root, ep.value, q[|q| - 1]), c1)
  }

  // ---------------------------------------------------------------------
  // The iterator
  // ---------------------------------------------------------------------

  /** basic_xml_element_node::iterator over the tree of the element host. */
  class ElementIterator {
    const host: XmlElement
    var node: Option<Path>
    var cell: Option<Path>
    var curr: Frame
    var trail: seq<Frame>
    var faulted: bool

    /** The iterator's fields as one value. */
    function State(): (c: Cursor)
      reads this
      ensures c.node == node && c.cell == cell && c.curr == curr && c.trail == trail && c.faulted == faulted
    {
      Cursor(node, cell, curr, trail, faulted)
    }

    /** The tree being walked: host's, as it is now. */
    function Root(): (n: XNode)
      reads this, host
      ensures n == host.Tree()
    {
      host.Tree()
    }

    /** begin(): iterator(this). */
    constructor Begin(e: XmlElement)
      ensures host == e && State() == BeginCursor
    {
      host := e;
      node := Some([]);
      cell := None;
      curr := Frame(Some([]), 0);
      trail := [];
      faulted := false;
    }

    /** iterator(e) on the element at p in the tree of h. */
    constructor Pointing(h: XmlElement, p: Path)
      ensures host == h && State() == PointerCursor(p)
    {
      host := h;
      node := Some(p);
      cell := None;
      curr := Frame(Some(p), 0);
      trail := [];
      faulted := false;
    }

    /** end(): iterator(nullptr). */
    constructor End(e: XmlElement)
      ensures host == e && State() == EndCursor
    {
      host := e;
      node := None;
      cell := None;
      curr := Frame(None, 0);
      trail := [];
      faulted := false;
    }

    /**
     * operator==: compares the node pointers only, so an iterator equals
     * end() exactly when its walk has ended, whatever its trail or fault
     * flag.
     */
    predicate Equals(other: ElementIterator)
      reads this, other
      ensures node.None? ==> (Equals(other) <==> other.node.None?)
      ensures other.node.None? ==> (Equals(other) <==> node.None?)
    {
      node == other.node
    }

    /** advance (operator++). */
    method Advance()
      modifies this
      ensures State() == AdvanceSpec(Root(), old(State()))
    {
      ghost var c0 := State();
      var root := host.Tree();
      if faulted {
        return;
      }
      if node.None? {
        faulted := true;
        return;
      }
      var p := node.value;
      var n := NodeAt(root, p);
      if n.None? {
        faulted := true;
        return;
      }
      if n.value.Elem? && |n.value.children| > 0 {
        node := Some(p + [0]);
        cell := Some(p + [0]);
        if n.value.children[0].Elem? {
          trail := [curr] + trail;
          curr := Frame(Some(p + [0]), 0);
        } else {
          var hc := HostChildren(root, curr.host);
          if hc.None? || curr.next >= |hc.value| {
            faulted := true;
          } else {
            curr := curr.(next := curr.next + 1);
          }
        }
        return;
      }
      var hc := HostChildren(root, curr.host);
      if hc.None? || curr.next > |hc.value| {
        faulted := true;
        return;
      }
      if curr.next < |hc.value| {
        node := Some(curr.host.value + [curr.next]);
        cell := node;
        curr := curr.(next := curr.next + 1);
        return;
      }
      node := None;
      PopTrail(root);
    }

    /** The loop over trail_ at the end of advance. */
    method PopTrail(root: XNode)
      requires !faulted
      modifies this
      ensures State() == Backtrack(root, old(State()))
    {
      ghost var target := Backtrack(root, State());
      while |trail| > 0
        invariant !faulted && Backtrack(root, State()) == target
        decreases |trail|
      {
        var f := trail[0];
        curr := f;
        trail := trail[1..];
        var hc := HostChildren(root, f.host);
        if hc.None? || f.next > |hc.value| {
          faulted := true;
          return;
        }
        if f.next < |hc.value| {
          curr := Frame(f.host, f.next + 1);
          if f.next + 1 == |hc.value| {
            faulted := true;
            return;
          }
          node := Some(f.host.value + [f.next + 1]);
          cell := node;
          return;
        }
      }
    }
  }

  /**
   * basic_xml_element_node::erase(e). The element erase is called on
   * plays no part in it: the list that loses a cell is found from the
   * iterator alone, in the tree the iterator walks. Always returns true.
   */
  method Erase(it: ElementIterator) returns (ok: bool)
    modifies it, it.host
    ensures ok
    ensures Erased(it.Root(), it.State()) == EraseSpec(old(it.Root()), old(it.State()))
  {
    ok := true;
    var root := it.host.Tree();
    if it.faulted {
      return;
    }
    var ep := it.curr.host;
    if ep == it.node {
      ghost var target := EraseLoop(root, it.State(), ep);
      while |it.trail| > 0
        invariant !it.faulted && EraseLoop(root, it.State(), ep) == target
        invariant it.host.Tree() == root
        decreases |it.trail|
      {
        var f := it.trail[0];
        it.curr := f;
        it.trail := it.trail[1..];
        var hc := HostChildren(root, f.host);
        if hc.None? || f.next >= |hc.value| {
          it.faulted := true;
          return;
        }
        var under := if hc.value[f.next].Elem? then Some(f.host.value + [f.next]) else None;
        ep := if under == it.node then f.host else under;
      }
    }
    if ep.None? {
      it.faulted := true;
      return;
    }
    if it.cell.None? || it.cell.value == [] {
      return;
    }
    var q := it.cell.value;
    if q[..|q| - 1] != ep.value {
      return;
    }
    if NodeAt(root, q).None? {
      it.faulted := true;
      return;
    }
    it.host.children := RemoveAt(root, ep.value, q[|q| - 1]).children;
  }

  // ---------------------------------------------------------------------
  // What advance does
  // ---------------------------------------------------------------------

  /** One more advance at the end of a walk. */
  lemma {:induction false} WalkSnoc(root: XNode, c: Cursor, k: nat)
    ensures Walk(root, c, k + 1) == AdvanceSpec(root, Walk(root, c, k))
    decreases k
  {
    if k > 0 {
      WalkSnoc(root, AdvanceSpec(root, c), k - 1);
    }
  }

  /** From an element with children, advance moves to the first child. */
  lemma AdvanceToFirstChild(root: XNode, c: Cursor, p: Path)
    requires !c.faulted && c.node == Some(p)
    requires NodeAt(root, p).Some? && NodeAt(root, p).value.Elem? && |NodeAt(root, p).value.children| > 0
    ensures var r := AdvanceSpec(root, c);
      r.node == Some(p + [0]) && NodeAt(root, p + [0]) == Some(NodeAt(root, p).value.children[0])
  {
    NodeAtSnoc(root, p, 0);
  }

  /**
   * With no child to descend into, no sibling left under the current
   * frame and an empty trail, advance makes the node null: the iterator
   * now equals end().
   */
  lemma AdvanceToEnd(root: XNode, c: Cursor, p: Path)
    requires !c.faulted && c.node == Some(p) && c.trail == []
    requires NodeAt(root, p).Some? && |ChildrenOf(NodeAt(root, p).value)| == 0
    requires HostChildren(root, c.curr.host).Some? && c.curr.next == |HostChildren(root, c.curr.host).value|
    ensures var r := AdvanceSpec(root, c); !r.faulted && r.node == EndCursor.node
  {
  }

  /** An iterator that is at end() cannot be advanced: that dereferences null. */
  lemma AdvanceFromEnd(root: XNode, c: Cursor)
    requires c.node.None?
    ensures AdvanceSpec(root, c).faulted
  {
  }

  /** Whether every child is an attribute or text. */
  predicate NoElementChildren(cs: seq<XNode>)
  {
    forall i :: 0 <= i < |cs| ==> !cs[i].Elem?
  }

  /**
   * An element whose children are all attributes or text is walked
   * in list order: the k-th advance is on child k - 1.
   */
  lemma {:induction false} FlatWalk(root: XNode, k: nat)
    requires root.Elem? && NoElementChildren(root.children) && 1 <= k <= |root.children|
    ensures Walk(root, BeginCursor, k) == Cursor(Some([k - 1]), Some([k - 1]), Frame(Some([]), k), [], false)
    ensures NodeAt(root, [k - 1]) == Some(root.children[k - 1])
  {
    NodeAtSnoc(root, [], k - 1);
    assert [] + [k - 1] == [k - 1];
    WalkSnoc(root, BeginCursor, k - 1);
    assert HostChildren(root, Some([])) == Some(root.children);
    if k == 1 {
      assert [] + [0] == [0];
    } else {
      FlatWalk(root, k - 1);
      assert !root.children[k - 2].Elem?;
    }
  }

  /** After the last child of such an element, the walk reaches end(). */
  lemma FlatWalkEnds(root: XNode)
    requires root.Elem? && NoElementChildren(root.children)
    ensures var r := Walk(root, BeginCursor, |root.children| + 1); !r.faulted && r.node.None?
  {
    var n := |root.children|;
    WalkSnoc(root, BeginCursor, n);
    if n > 0 {
      FlatWalk(root, n);
      NodeAtSnoc(root, [n - 1], 0);
    }
  }

  /** The tree a(b, d): two childless elements under a. */
  const TwoLeaves := Elem("a", "", [Elem("b", "", []), Elem("d", "", [])])

  /**
   * Defect: the frame saved on descending into b keeps its cursor on b,
   * while the sibling step has already moved past d when d is reached
   * again, so a, b, d, d is visited, then end().
   */
  lemma TwoLeavesVisitsLastTwice()
    ensures Walk(TwoLeaves, BeginCursor, 1).node == Some([0])
    ensures Walk(TwoLeaves, BeginCursor, 2).node == Some([1])
    ensures Walk(TwoLeaves, BeginCursor, 3).node == Some([1])
    ensures Walk(TwoLeaves, BeginCursor, 4).node.None? && !Walk(TwoLeaves, BeginCursor, 4).faulted
  {
    var c1 := Cursor(Some([0]), Some([0]), Frame(Some([0]), 0), [Frame(Some([]), 0)], false);
    var c2 := Cursor(Some([1]), Some([1]), Frame(Some([]), 1), [], false);
    var c3 := Cursor(Some([1]), Some([1]), Frame(Some([]), 2), [], false);
    var c4 := Cursor(None, Some([1]), Frame(Some([]), 2), [], false);
    assert [] + [0] == [0];
    assert [] + [1] == [1];
    assert NodeAt(TwoLeaves, [0]) == Some(Elem("b", "", []));
    assert NodeAt(TwoLeaves, [1]) == Some(Elem("d", "", []));
    assert AdvanceSpec(TwoLeaves, BeginCursor) == c1;
    assert AdvanceSpec(TwoLeaves, c1) == c2;
    assert AdvanceSpec(TwoLeaves, c2) == c3;
    assert AdvanceSpec(TwoLeaves, c3) == c4;
    WalkSnoc(TwoLeaves, BeginCursor, 0);
    WalkSnoc(TwoLeaves, BeginCursor, 1);
    WalkSnoc(TwoLeaves, BeginCursor, 2);
    WalkSnoc(TwoLeaves, BeginCursor, 3);
  }

  /** The tree a(b(c)): a chain of three elements. */
  const Chain := Elem("a", "", [Elem("b", "", [Elem("c", "", [])])])

  /**
   * Defect: backtracking steps the popped cursor and dereferences it
   * without testing for the end again, so leaving c steps b's frame onto
   * the end of a's list: undefined.
   */
  lemma ChainFaultsOnBacktrack()
    ensures Walk(Chain, BeginCursor, 2).node == Some([0, 0]) && !Walk(Chain, BeginCursor, 2).faulted
    ensures Walk(Chain, BeginCursor, 3).faulted
  {
    var c1 := Cursor(Some([0]), Some([0]), Frame(Some([0]), 0), [Frame(Some([]), 0)], false);
    var c2 := Cursor(Some([0, 0]), Some([0, 0]), Frame(Some([0, 0]), 0), [Frame(Some([0]), 0), Frame(Some([]), 0)], false);
    assert [] + [0] == [0];
    assert [0] + [0] == [0, 0];
    assert NodeAt(Chain, [0]) == Some(Elem("b", "", [Elem("c", "", [])]));
    assert NodeAt(Chain, [0, 0]) == Some(Elem("c", "", [])) by {
      assert [0, 0][1..] == [0];
    }
    assert AdvanceSpec(Chain, BeginCursor) == c1;
    assert AdvanceSpec(Chain, c1) == c2;
    assert AdvanceSpec(Chain, c2).faulted;
    WalkSnoc(Chain, BeginCursor, 0);
    WalkSnoc(Chain, BeginCursor, 1);
    WalkSnoc(Chain, BeginCursor, 2);
  }

  // ---------------------------------------------------------------------
  // What erase does
  // ---------------------------------------------------------------------

  /** RemoveAt takes out exactly the k-th child of the element at parent, keeping the others in order. */
  lemma {:induction false} RemoveAtRemoves(root: XNode, parent: Path, k: nat)
    requires NodeAt(root, parent).Some? && NodeAt(root, parent).value.Elem?
    requires k < |NodeAt(root, parent).value.children|
    ensures var m := NodeAt(root, parent).value;
      NodeAt(RemoveAt(root, parent, k), parent) == Some(m.(children := m.children[..k] + m.children[k + 1..]))
    decreases |parent|
  {
    if parent != [] {
      RemoveAtRemoves(root.children[parent[0]], parent[1..], k);
    }
  }

  /** erase always leaves the iterator's node and cell as they were: the iterator is not repaired. */
  lemma EraseKeepsCursor(root: XNode, c: Cursor)
    ensures var r := EraseSpec(root, c); r.cursor.node == c.node && r.cursor.cell == c.cell
  {
    if !c.faulted && c.curr.host == c.node {
      var (c1, ep) := EraseLoop(root, c, c.curr.host);
      assert c1.node == c.node && c1.cell == c.cell by {
        EraseLoopKeeps(root, c, c.curr.host);
      }
    }
  }

  /** The trail loop of erase changes only curr_, the trail and the fault flag. */
  lemma {:induction false} EraseLoopKeeps(root: XNode, c: Cursor, ep: Option<Path>)
    ensures var r := EraseLoop(root, c, ep).0; r.node == c.node && r.cell == c.cell
    decreases |c.trail|
  {
    if c.trail != [] {
      var f := c.trail[0];
      var c1 := c.(curr := f, trail := c.trail[1..]);
      var hc := HostChildren(root, f.host);
      if !(hc.None? || f.next >= |hc.value|) {
        var under := if hc.value[f.next].Elem? then Some(f.host.value + [f.next]) else None;
        EraseLoopKeeps(root, c1, if under == c.node then f.host else under);
      }
    }
  }

  /**
   * When the current frame is not on the node itself, ep is that frame's
   * host; if the cell lies in ep's list, that one child is removed and the
   * tree is otherwise the same; if it lies in another list, nothing changes.
   */
  lemma EraseInHostList(root: XNode, c: Cursor, parent: Path, k: nat)
    requires !c.faulted && c.curr.host == Some(parent) && c.node != Some(parent)
    requires c.cell == Some(parent + [k]) && NodeAt(root, parent + [k]).Some?
    ensures NodeAt(root, parent).Some?
    ensures var m := NodeAt(root, parent).value;
      m.Elem? && k < |m.children| &&
      NodeAt(EraseSpec(root, c).root, parent) == Some(m.(children := m.children[..k] + m.children[k + 1..]))
  {
    NodeAtSnoc(root, parent, k);
    var q := parent + [k];
    assert q[..|q| - 1] == parent;
    RemoveAtRemoves(root, parent, k);
  }

  /** A cell that does not lie in ep's list: erase leaves the tree unchanged. */
  lemma EraseOtherList(root: XNode, c: Cursor, q: Path)
    requires !c.faulted && c.curr.host.Some? && c.node != c.curr.host
    requires c.cell == Some(q) && q != [] && q[..|q| - 1] != c.curr.host.value
    ensures EraseSpec(root, c).root == root && !EraseSpec(root, c).cursor.faulted
  {
  }

  /** The tree a(b(c(d))): a chain of four elements. */
  const DeepChain := Elem("a", "", [Elem("b", "", [Elem("c", "", [Elem("d", "", [])])])])

  /**
   * Defect: after descending to d, erase's trail loop ends with ep on b,
   * the element under the bottom frame's cursor, not on d's parent c, so
   * the cell is not in ep's list and nothing is removed; erase still
   * returns true.
   */
  lemma EraseDeepIsNoOp()
    ensures Walk(DeepChain, BeginCursor, 3).node == Some([0, 0, 0])
    ensures var r := EraseSpec(DeepChain, Walk(DeepChain, BeginCursor, 3)); r.root == DeepChain && !r.cursor.faulted
  {
    var fa := Frame(Some([]), 0);
    var fb := Frame(Some([0]), 0);
    var fc := Frame(Some([0, 0]), 0);
    var c1 := Cursor(Some([0]), Some([0]), fb, [fa], false);
    var c2 := Cursor(Some([0, 0]), Some([0, 0]), fc, [fb, fa], false);
    var c3 := Cursor(Some([0, 0, 0]), Some([0, 0, 0]), Frame(Some([0, 0, 0]), 0), [fc, fb, fa], false);
    assert [] + [0] == [0];
    assert [0] + [0] == [0, 0];
    assert [0, 0] + [0] == [0, 0, 0];
    var b := Elem("b", "", [Elem("c", "", [Elem("d", "", [])])]);
    var cc := Elem("c", "", [Elem("d", "", [])]);
    assert NodeAt(DeepChain, [0]) == Some(b);
    assert NodeAt(DeepChain, [0, 0]) == Some(cc) by {
      assert [0, 0][1..] == [0];
    }
    assert NodeAt(DeepChain, [0, 0, 0]) == Some(Elem("d", "", [])) by {
      assert [0, 0, 0][1..] == [0, 0];
      assert [0, 0][1..] == [0];
    }
    assert AdvanceSpec(DeepChain, BeginCursor) == c1;
    assert AdvanceSpec(DeepChain, c1) == c2;
    assert AdvanceSpec(DeepChain, c2) == c3;
    WalkSnoc(DeepChain, BeginCursor, 0);
    WalkSnoc(DeepChain, BeginCursor, 1);
    WalkSnoc(DeepChain, BeginCursor, 2);
    var e1 := c3.(curr := fc, trail := [fb, fa]);
    var e2 := c3.(curr := fb, trail := [fa]);
    var e3 := c3.(curr := fa, trail := []);
    assert EraseLoop(DeepChain, e3, Some([0])) == (e3, Some([0]));
    assert EraseLoop(DeepChain, e2, Some([0, 0])) == (e3, Some([0]));
    assert EraseLoop(DeepChain, e1, Some([0, 0])) == (e3, Some([0]));
    assert EraseLoop(DeepChain, c3, Some([0, 0, 0])) == (e3, Some([0]));
    var q := [0, 0, 0];
    assert q[..|q| - 1] == [0, 0];
  }

  /** The tree a(b): erasing b right after reaching it. */
  const OneChild := Elem("a", "", [Elem("b", "", [])])

  /** Erasing a top-level element right after advancing onto it removes it. */
  lemma EraseTopLevelChild()
    ensures Walk(OneChild, BeginCursor, 1).node == Some([0])
    ensures EraseSpec(OneChild, Walk(OneChild, BeginCursor, 1)).root == Elem("a", "", [])
  {
    var fa := Frame(Some([]), 0);
    var c1 := Cursor(Some([0]), Some([0]), Frame(Some([0]), 0), [fa], false);
    assert [] + [0] == [0];
    assert NodeAt(OneChild, [0]) == Some(Elem("b", "", []));
    assert AdvanceSpec(OneChild, BeginCursor) == c1;
    WalkSnoc(OneChild, BeginCursor, 0);
    assert EraseLoop(OneChild, c1, Some([0])) == (c1.(curr := fa, trail := []), Some([]));
    var q := [0];
    assert q[..|q| - 1] == [];
  }
}
