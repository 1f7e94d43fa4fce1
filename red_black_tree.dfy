// red_black_tree<Key, Type>: a binary search tree with node colours,
// insertion with the usual recolour-and-rotate repair, unrepaired
// deletion, and an in-order iterator that climbs through parent links.
//
// The tree is modelled as a value: a Tree datatype with coloured nodes.
// A node pointer is a position in the tree: the node's subtree (the focus)
// with the path of its ancestors, parent first. Following parent_ pops a
// frame of the path, and linking a subtree into its parent (what the
// rotations and the splice of remove do through parent_, left_ and
// right_) is Plug. Keys are modelled as int, compared with < and == as
// the source compares key_type.
module RedBlackTrees {
  import opened Wrappers

  datatype Color = Black | Red

  /** A node's key_ and val_, as the iterator yields them. */
  datatype Item<V> = Item(key: int, val: V)

  datatype Tree<V> = Leaf | Node(color: Color, left: Tree<V>, key: int, val: V, right: Tree<V>)

  /**
   * An ancestor of the focus: LeftOf when the focus is its left child,
   * RightOf when it is its right child; sibling is its other child.
   */
  datatype Frame<V> =
    | LeftOf(fcolor: Color, fkey: int, fval: V, sibling: Tree<V>)
    | RightOf(fcolor: Color, sibling: Tree<V>, fkey: int, fval: V)

  /** A node pointer: the node's subtree and its ancestors, parent first. */
  datatype Pos<V> = Pos(ctx: seq<Frame<V>>, focus: Tree<V>)

  /** A null child counts as black. */
  function ColorOf<V>(t: Tree<V>): Color
  {
    if t.Leaf? then Black else t.color
  }

  /** Sets the colour of t's root node. */
  function Paint<V>(t: Tree<V>, c: Color): Tree<V>
  {
    if t.Leaf? then t else t.(color := c)
  }

  function InOrder<V>(t: Tree<V>): seq<Item<V>>
  {
    match t
    case Leaf => []
    case Node(_, l, k, v, r) => InOrder(l) + [Item(k, v)] + InOrder(r)
  }

  /** Keys never decrease from left to right: the search-tree order, with equal keys allowed on either side. */
  ghost predicate Ordered<V>(s: seq<Item<V>>)
  {
    forall i, j :: 0 <= i < j < |s| ==> s[i].key <= s[j].key
  }

  /** Links t in as the child of f that f is missing. */
  function Attach<V>(f: Frame<V>, t: Tree<V>): Tree<V>
  {
    match f
    case LeftOf(c, k, v, r) => Node(c, t, k, v, r)
    case RightOf(c, l, k, v) => Node(c, l, k, v, t)
  }

  /** The whole tree, with t linked in below the path ctx. */
  function Plug<V>(ctx: seq<Frame<V>>, t: Tree<V>): Tree<V>
    decreases |ctx|
  {
    if ctx == [] then t else Plug(ctx[1..], Attach(ctx[0], t))
  }

  function FrameBefore<V>(f: Frame<V>): seq<Item<V>>
  {
    match f
    case LeftOf(_, _, _, _) => []
    case RightOf(_, l, k, v) => InOrder(l) + [Item(k, v)]
  }

  function FrameAfter<V>(f: Frame<V>): seq<Item<V>>
  {
    match f
    case LeftOf(_, k, v, r) => [Item(k, v)] + InOrder(r)
    case RightOf(_, _, _, _) => []
  }

  /** The items that come before the focus in in-order. */
  function CtxBefore<V>(ctx: seq<Frame<V>>): seq<Item<V>>
  {
    if ctx == [] then [] else CtxBefore(ctx[1..]) + FrameBefore(ctx[0])
  }

  /** The items that come after the focus in in-order. */
  function CtxAfter<V>(ctx: seq<Frame<V>>): seq<Item<V>>
  {
    if ctx == [] then [] else FrameAfter(ctx[0]) + CtxAfter(ctx[1..])
  }

  lemma {:induction false} PlugInOrder<V>(ctx: seq<Frame<V>>, t: Tree<V>)
    ensures InOrder(Plug(ctx, t)) == CtxBefore(ctx) + InOrder(t) + CtxAfter(ctx)
    decreases |ctx|
  {
    if ctx != [] {
      var f := ctx[0];
      PlugInOrder(ctx[1..], Attach(f, t));
      AttachInOrder(f, t);
      Regroup(InOrder(Plug(ctx, t)), CtxBefore(ctx[1..]), InOrder(Attach(f, t)), CtxAfter(ctx[1..]),
        FrameBefore(f), InOrder(t), FrameAfter(f));
    }
  }

  /** Regrouping a concatenation of four parts. */
  lemma Regroup4<T>(s: seq<T>, a: seq<T>, m: seq<T>, d: seq<T>, b: seq<T>, c: seq<T>)
    requires s == a + m + d && m == b + c
    ensures s == (a + b) + (c + d)
  {
  }

  lemma AttachInOrder<V>(f: Frame<V>, t: Tree<V>)
    ensures InOrder(Attach(f, t)) == FrameBefore(f) + InOrder(t) + FrameAfter(f)
  {
    match f
    case LeftOf(c, k, v, r) =>
      assert InOrder(Attach(f, t)) == InOrder(t) + [Item(k, v)] + InOrder(r);
    case RightOf(c, l, k, v) =>
      assert InOrder(Attach(f, t)) == InOrder(l) + [Item(k, v)] + InOrder(t);
  }

  /** Regrouping a concatenation of five parts. */
  lemma Regroup<T>(s: seq<T>, a: seq<T>, m: seq<T>, d: seq<T>, b: seq<T>, x: seq<T>, c: seq<T>)
    requires s == a + m + d && m == b + x + c
    ensures s == (a + b) + x + (c + d)
  {
  }

  /** Replacing the focus by a subtree with the same in-order leaves the whole in-order unchanged. */
  lemma PlugSameInOrder<V>(ctx: seq<Frame<V>>, a: Tree<V>, b: Tree<V>)
    requires InOrder(a) == InOrder(b)
    ensures InOrder(Plug(ctx, a)) == InOrder(Plug(ctx, b))
  {
    PlugInOrder(ctx, a);
    PlugInOrder(ctx, b);
  }

  lemma PlugTwo<V>(ctx: seq<Frame<V>>, t: Tree<V>)
    requires |ctx| >= 2
    ensures Plug(ctx, t) == Plug(ctx[2..], Attach(ctx[1], Attach(ctx[0], t)))
  {
    assert ctx[1..][1..] == ctx[2..];
  }

  // ---------------------------------------------------------------------
  // Search and rotations

  /**
   * search_internal: the node with key k met first on the descent from t
   * (equal: found, less: left, greater: right), as a position below ctx.
   */
  function Search<V>(ctx: seq<Frame<V>>, t: Tree<V>, k: int): (r: Option<Pos<V>>)
    ensures r.Some? ==> r.value.focus.Node? && r.value.focus.key == k
    ensures r.Some? ==> Plug(r.value.ctx, r.value.focus) == Plug(ctx, t)
    decreases t
  {
    if t.Leaf? then None
    else if k == t.key then Some(Pos(ctx, t))
    else if k < t.key then Search([LeftOf(t.color, t.key, t.val, t.right)] + ctx, t.left, k)
    else Search([RightOf(t.color, t.left, t.key, t.val)] + ctx, t.right, k)
  }

  /** The order splits at a node: its left items are at most its key, its right items at least. */
  lemma OrderedNode<V>(t: Tree<V>)
    requires t.Node? && Ordered(InOrder(t))
    ensures Ordered(InOrder(t.left)) && Ordered(InOrder(t.right))
    ensures forall i :: 0 <= i < |InOrder(t.left)| ==> InOrder(t.left)[i].key <= t.key
    ensures forall i :: 0 <= i < |InOrder(t.right)| ==> t.key <= InOrder(t.right)[i].key
  {
    OrderedParts(InOrder(t.left), Item(t.key, t.val), InOrder(t.right));
  }

  lemma OrderedParts<V>(l: seq<Item<V>>, x: Item<V>, r: seq<Item<V>>)
    requires Ordered(l + [x] + r)
    ensures Ordered(l) && Ordered(r)
    ensures forall i :: 0 <= i < |l| ==> l[i].key <= x.key
    ensures forall i :: 0 <= i < |r| ==> x.key <= r[i].key
  {
    assert l + [x] + r == l + ([x] + r);
    OrderedConcat(l, [x] + r);
    OrderedConcat([x], r);
    assert ([x] + r)[0] == x;
  }

  /** Both halves of an ordered sequence are ordered, and no key of the first exceeds one of the second. */
  lemma OrderedConcat<V>(u: seq<Item<V>>, w: seq<Item<V>>)
    requires Ordered(u + w)
    ensures Ordered(u) && Ordered(w)
    ensures forall i, j :: 0 <= i < |u| && 0 <= j < |w| ==> u[i].key <= w[j].key
  {
    var s := u + w;
    forall i, j | 0 <= i < j < |u|
      ensures u[i].key <= u[j].key
    {
      assert s[i] == u[i] && s[j] == u[j];
    }
    forall i, j | 0 <= i < j < |w|
      ensures w[i].key <= w[j].key
    {
      assert s[|u| + i] == w[i] && s[|u| + j] == w[j];
    }
    forall i, j | 0 <= i < |u| && 0 <= j < |w|
      ensures u[i].key <= w[j].key
    {
      assert s[i] == u[i] && s[|u| + j] == w[j];
    }
  }

  /** No item of s has key k. */
  ghost predicate NoKey<V>(s: seq<Item<V>>, k: int)
  {
    forall i :: 0 <= i < |s| ==> s[i].key != k
  }

  lemma NoKeyParts<V>(l: seq<Item<V>>, x: Item<V>, r: seq<Item<V>>, k: int)
    ensures NoKey(l + [x] + r, k) <==> NoKey(l, k) && x.key != k && NoKey(r, k)
  {
    var s := l + [x] + r;
    assert s[|l|] == x;
    forall i | 0 <= i < |l|
      ensures s[i] == l[i]
    {
    }
    forall i | 0 <= i < |r|
      ensures s[|l| + 1 + i] == r[i]
    {
    }
  }

  /** In an ordered tree, find misses only keys the tree does not hold. */
  lemma {:induction false} SearchComplete<V>(ctx: seq<Frame<V>>, t: Tree<V>, k: int)
    requires Ordered(InOrder(t))
    ensures Search(ctx, t, k).None? <==> NoKey(InOrder(t), k)
    decreases t
  {
    if t.Node? {
      OrderedNode(t);
      var l, r := InOrder(t.left), InOrder(t.right);
      NoKeyParts(l, Item(t.key, t.val), r, k);
      if k < t.key {
        SearchComplete([LeftOf(t.color, t.key, t.val, t.right)] + ctx, t.left, k);
        assert NoKey(r, k);
      } else if k > t.key {
        SearchComplete([RightOf(t.color, t.left, t.key, t.val)] + ctx, t.right, k);
        assert NoKey(l, k);
      }
    }
  }

  /** rotate_left: the right child moves up and the node becomes its left child; a node without a right child is left alone. */
  function RotateLeft<V>(t: Tree<V>): (r: Tree<V>)
    ensures InOrder(r) == InOrder(t)
    ensures t.Node? && t.right.Node? ==>
      r.Node? && r.key == t.right.key && r.color == t.right.color && r.right == t.right.right &&
      r.left == Node(t.color, t.left, t.key, t.val, t.right.left)
    ensures !(t.Node? && t.right.Node?) ==> r == t
  {
    if t.Node? && t.right.Node? then
      Node(t.right.color, Node(t.color, t.left, t.key, t.val, t.right.left), t.right.key, t.right.val, t.right.right)
    else t
  }

  /** rotate_right: the left child moves up and the node becomes its right child; a node without a left child is left alone. */
  function RotateRight<V>(t: Tree<V>): (r: Tree<V>)
    ensures InOrder(r) == InOrder(t)
    ensures t.Node? && t.left.Node? ==>
      r.Node? && r.key == t.left.key && r.color == t.left.color && r.left == t.left.left &&
      r.right == Node(t.color, t.left.right, t.key, t.val, t.right)
    ensures !(t.Node? && t.left.Node?) ==> r == t
  {
    if t.Node? && t.left.Node? then
      Node(t.left.color, t.left.left, t.left.key, t.left.val, Node(t.color, t.left.right, t.key, t.val, t.right))
    else t
  }

  /** Rotating left then right at the same place gives the tree back. */
  lemma RotateRoundTrip<V>(t: Tree<V>)
    requires t.Node? && t.right.Node?
    ensures RotateRight(RotateLeft(t)) == t
  {
  }

  // ---------------------------------------------------------------------
  // Insertion

  /**
   * insert_internal's descent: left when k is below the node's key,
   * otherwise right (equal keys go right); the path to the null link
   * where the new node is hung.
   */
  function Descend<V>(ctx: seq<Frame<V>>, t: Tree<V>, k: int): (p: seq<Frame<V>>)
    ensures Plug(p, Leaf) == Plug(ctx, t)
    decreases t
  {
    if t.Leaf? then ctx
    else if k < t.key then Descend([LeftOf(t.color, t.key, t.val, t.right)] + ctx, t.left, k)
    else Descend([RightOf(t.color, t.left, t.key, t.val)] + ctx, t.right, k)
  }

  /** Every item before the insertion point has key at most k, every item after it a key above k. */
  lemma {:induction false} DescendSplit<V>(ctx: seq<Frame<V>>, t: Tree<V>, k: int)
    requires Ordered(InOrder(t))
    requires forall i :: 0 <= i < |CtxBefore(ctx)| ==> CtxBefore(ctx)[i].key <= k
    requires forall i :: 0 <= i < |CtxAfter(ctx)| ==> CtxAfter(ctx)[i].key > k
    ensures forall i :: 0 <= i < |CtxBefore(Descend(ctx, t, k))| ==> CtxBefore(Descend(ctx, t, k))[i].key <= k
    ensures forall i :: 0 <= i < |CtxAfter(Descend(ctx, t, k))| ==> CtxAfter(Descend(ctx, t, k))[i].key > k
    decreases t
  {
    if t.Node? {
      OrderedNode(t);
      if k < t.key {
        var f := LeftOf(t.color, t.key, t.val, t.right);
        assert ([f] + ctx)[1..] == ctx;
        DescendSplit([f] + ctx, t.left, k);
      } else {
        var f := RightOf(t.color, t.left, t.key, t.val);
        assert ([f] + ctx)[1..] == ctx;
        DescendSplit([f] + ctx, t.right, k);
      }
    }
  }

  /** Sorted insertion after every item with a key at most x's: the independent account of where insert puts x. */
  function InsertSorted<V>(s: seq<Item<V>>, x: Item<V>): seq<Item<V>>
  {
    if s == [] then [x]
    else if x.key < s[0].key then [x] + s
    else [s[0]] + InsertSorted(s[1..], x)
  }

  /** insert adds exactly x to the items. */
  lemma {:induction false} InsertSortedPerm<V>(s: seq<Item<V>>, x: Item<V>)
    ensures multiset(InsertSorted(s, x)) == multiset(s) + multiset{x}
    ensures |InsertSorted(s, x)| == |s| + 1
  {
    if s != [] && x.key >= s[0].key {
      InsertSortedPerm(s[1..], x);
      assert s == [s[0]] + s[1..];
    }
  }

  /** An item placed between items at most its key and items above it keeps the order. */
  lemma OrderedSplitInsert<V>(b: seq<Item<V>>, a: seq<Item<V>>, x: Item<V>)
    requires Ordered(b + a)
    requires forall i :: 0 <= i < |b| ==> b[i].key <= x.key
    requires forall i :: 0 <= i < |a| ==> a[i].key > x.key
    ensures Ordered(b + [x] + a)
  {
    var s, r := b + a, b + [x] + a;
    forall i, j | 0 <= i < j < |r|
      ensures r[i].key <= r[j].key
    {
      if j < |b| {
        assert r[i] == s[i] && r[j] == s[j];
      } else if i > |b| {
        assert r[i] == s[i - 1] && r[j] == s[j - 1];
      } else if i < |b| && j > |b| {
        assert r[i] == b[i] && r[j] == a[j - |b| - 1];
      } else if i < |b| {
        assert r[i] == b[i] && r[j] == x;
      } else {
        assert r[i] == x && r[j] == a[j - |b| - 1];
      }
    }
  }

  /** Placing x between items at most its key and items above it is the sorted insertion. */
  lemma {:induction false} SplitIsInsertSorted<V>(b: seq<Item<V>>, a: seq<Item<V>>, x: Item<V>)
    requires forall i :: 0 <= i < |b| ==> b[i].key <= x.key
    requires forall i :: 0 <= i < |a| ==> a[i].key > x.key
    ensures InsertSorted(b + a, x) == b + [x] + a
  {
    if b != [] {
      assert (b + a)[0] == b[0];
      assert (b + a)[1..] == b[1..] + a;
      SplitIsInsertSorted(b[1..], a, x);
      assert b + [x] + a == [b[0]] + (b[1..] + [x] + a);
    } else if a != [] {
      assert (b + a)[0] == a[0];
    }
  }

  /** Black height: the black nodes on the leftmost path. */
  function BlackHeight<V>(t: Tree<V>): nat
  {
    match t
    case Leaf => 0
    case Node(c, l, _, _, _) => BlackHeight(l) + if c == Black then 1 else 0
  }

  /** Every path down from a node meets as many black nodes. */
  ghost predicate Balanced<V>(t: Tree<V>)
  {
    match t
    case Leaf => true
    case Node(_, l, _, _, r) => Balanced(l) && Balanced(r) && BlackHeight(l) == BlackHeight(r)
  }

  /** No red node has a red child. */
  ghost predicate RedFree<V>(t: Tree<V>)
  {
    match t
    case Leaf => true
    case Node(c, l, _, _, r) =>
      RedFree(l) && RedFree(r) && (c == Red ==> ColorOf(l) == Black && ColorOf(r) == Black)
  }

  /** The red-black properties: black root, no red node with a red child, equal black heights. */
  ghost predicate IsRedBlack<V>(t: Tree<V>)
  {
    ColorOf(t) == Black && RedFree(t) && Balanced(t)
  }

  /**
   * The path above a subtree of colour c and black height h fits the
   * red-black properties: each sibling is red-free and balanced with the
   * black height of its side, and a red ancestor has no red child, except
   * that the parent may be red when exempt holds.
   */
  ghost predicate CtxRedBlack<V>(ctx: seq<Frame<V>>, c: Color, h: nat, exempt: bool)
    decreases |ctx|
  {
    ctx == [] ||
    (var f := ctx[0]; var s := f.sibling;
     RedFree(s) && Balanced(s) && BlackHeight(s) == h &&
     (f.fcolor == Red ==> ColorOf(s) == Black && (c == Black || exempt)) &&
     CtxRedBlack(ctx[1..], f.fcolor, h + if f.fcolor == Black then 1 else 0, false))
  }

  /** Allowing the parent to be red only weakens the condition. */
  lemma CtxRedBlackExempt<V>(ctx: seq<Frame<V>>, c: Color, c': Color, h: nat, e: bool)
    requires CtxRedBlack(ctx, c, h, e)
    ensures CtxRedBlack(ctx, c', h, true)
  {
  }

  /** Under a black parent the exemption is not needed. */
  lemma CtxRedBlackUnderBlack<V>(ctx: seq<Frame<V>>, c: Color, c': Color, h: nat)
    requires CtxRedBlack(ctx, c, h, true)
    requires ctx == [] || ctx[0].fcolor == Black
    ensures CtxRedBlack(ctx, c', h, false)
  {
  }

  /** A red-free, balanced tree is red-free and balanced around any of its subtrees. */
  lemma {:induction false} PlugRedBlackSplit<V>(ctx: seq<Frame<V>>, t: Tree<V>)
    requires RedFree(Plug(ctx, t)) && Balanced(Plug(ctx, t))
    ensures RedFree(t) && Balanced(t) && CtxRedBlack(ctx, ColorOf(t), BlackHeight(t), false)
    decreases |ctx|
  {
    if ctx != [] {
      PlugRedBlackSplit(ctx[1..], Attach(ctx[0], t));
    }
  }

  /** Conversely, a red-free balanced subtree under a fitting path gives a red-free balanced tree. */
  lemma {:induction false} PlugRedBlackJoin<V>(ctx: seq<Frame<V>>, t: Tree<V>)
    requires RedFree(t) && Balanced(t) && CtxRedBlack(ctx, ColorOf(t), BlackHeight(t), false)
    ensures RedFree(Plug(ctx, t)) && Balanced(Plug(ctx, t))
    decreases |ctx|
  {
    if ctx != [] {
      PlugRedBlackJoin(ctx[1..], Attach(ctx[0], t));
    }
  }

  /**
   * The fix-up loop's invariant for a red-black tree: n is red with
   * non-red children, red-free and balanced below, and the path above it
   * fits, except that n's parent may be red too.
   */
  ghost predicate FixUp<V>(ctx: seq<Frame<V>>, n: Tree<V>)
  {
    n.Node? && n.color == Red && RedFree(n) && Balanced(n) &&
    CtxRedBlack(ctx, Red, BlackHeight(n), true)
  }

  /** A new red node hung on a null link of a red-black tree starts the fix-up invariant. */
  lemma FixUpStart<V>(ctx: seq<Frame<V>>, k: int, v: V)
    requires IsRedBlack(Plug(ctx, Leaf))
    ensures FixUp(ctx, Node(Red, Leaf, k, v, Leaf))
  {
    PlugRedBlackSplit(ctx, Leaf);
    CtxRedBlackExempt(ctx, Black, Red, 0, false);
  }

  /** When the loop stops, painting the root black gives a red-black tree. */
  lemma FixUpEnd<V>(ctx: seq<Frame<V>>, n: Tree<V>)
    requires FixUp(ctx, n)
    requires ctx == [] || ctx[0].fcolor == Black || |ctx| == 1
    ensures IsRedBlack(Paint(Plug(ctx, n), Black))
  {
    var h := BlackHeight(n);
    if ctx != [] && ctx[0].fcolor == Red {
      var f := ctx[0];
      assert ctx[1..] == [];
      assert Plug(ctx, n) == Attach(f, n);
      assert RedFree(f.sibling) && Balanced(f.sibling) && BlackHeight(f.sibling) == h;
      assert Paint(Attach(f, n), Black) == Attach(f.(fcolor := Black), n);
    } else {
      CtxRedBlackUnderBlack(ctx, Red, Red, h);
      PlugRedBlackJoin(ctx, n);
      var t := Plug(ctx, n);
      assert t.Node? by {
        if ctx != [] {
          assert t == Plug(ctx[1..], Attach(ctx[0], n));
          PlugNode(ctx[1..], Attach(ctx[0], n));
        }
      }
      assert Paint(t, Black) == Node(Black, t.left, t.key, t.val, t.right);
    }
  }

  lemma {:induction false} PlugNode<V>(ctx: seq<Frame<V>>, t: Tree<V>)
    requires t.Node?
    ensures Plug(ctx, t).Node?
    decreases |ctx|
  {
    if ctx != [] {
      PlugNode(ctx[1..], Attach(ctx[0], t));
    }
  }

  /** Recolouring with a red uncle on the right moves the invariant up to the grandparent. */
  lemma FixUpRecolourLeft<V>(ctx: seq<Frame<V>>, n: Tree<V>, n': Tree<V>)
    requires FixUp(ctx, n) && |ctx| >= 2 && ctx[0].fcolor == Red && ctx[1].LeftOf?
    requires ctx[1].sibling.Node? && ctx[1].sibling.color == Red
    requires n' == Node(Red, Attach(ctx[0].(fcolor := Black), n), ctx[1].fkey, ctx[1].fval, Paint(ctx[1].sibling, Black))
    ensures FixUp(ctx[2..], n')
  {
    var p, g, h := ctx[0], ctx[1], BlackHeight(n);
    Grandparent(ctx, n);
    CtxRedBlackExempt(ctx[2..], Black, Red, h + 1, false);
    var pt := Attach(p.(fcolor := Black), n);
    assert RedFree(pt) && Balanced(pt) && BlackHeight(pt) == h + 1;
    var u := Paint(g.sibling, Black);
    assert RedFree(u) && Balanced(u) && BlackHeight(u) == h + 1;
  }

  /** The mirror image: a red uncle on the left. */
  lemma FixUpRecolourRight<V>(ctx: seq<Frame<V>>, n: Tree<V>, n': Tree<V>)
    requires FixUp(ctx, n) && |ctx| >= 2 && ctx[0].fcolor == Red && ctx[1].RightOf?
    requires ctx[1].sibling.Node? && ctx[1].sibling.color == Red
    requires n' == Node(Red, Paint(ctx[1].sibling, Black), ctx[1].fkey, ctx[1].fval, Attach(ctx[0].(fcolor := Black), n))
    ensures FixUp(ctx[2..], n')
  {
    var p, g, h := ctx[0], ctx[1], BlackHeight(n);
    Grandparent(ctx, n);
    CtxRedBlackExempt(ctx[2..], Black, Red, h + 1, false);
    var pt := Attach(p.(fcolor := Black), n);
    assert RedFree(pt) && Balanced(pt) && BlackHeight(pt) == h + 1;
    var u := Paint(g.sibling, Black);
    assert RedFree(u) && Balanced(u) && BlackHeight(u) == h + 1;
  }

  /** Under a red parent, the facts the invariant gives about the parent, the grandparent and the uncle. */
  lemma Grandparent<V>(ctx: seq<Frame<V>>, n: Tree<V>)
    requires FixUp(ctx, n) && |ctx| >= 2 && ctx[0].fcolor == Red
    ensures var h := BlackHeight(n);
      RedFree(ctx[0].sibling) && Balanced(ctx[0].sibling) && BlackHeight(ctx[0].sibling) == h &&
      ColorOf(ctx[0].sibling) == Black &&
      RedFree(ctx[1].sibling) && Balanced(ctx[1].sibling) && BlackHeight(ctx[1].sibling) == h &&
      ctx[1].fcolor == Black && CtxRedBlack(ctx[2..], Black, h + 1, false)
  {
    assert ctx[1..][0] == ctx[1] && ctx[1..][1..] == ctx[2..];
    assert CtxRedBlack(ctx[1..], Red, BlackHeight(n), false);
  }

  /** With a black uncle on the right, the rotations leave n under a black parent. */
  lemma FixUpRotateLeftSide<V>(ctx: seq<Frame<V>>, n: Tree<V>, gt: Tree<V>)
    requires FixUp(ctx, n) && |ctx| >= 2 && ctx[0].fcolor == Red && ctx[1].LeftOf?
    requires ColorOf(ctx[1].sibling) == Black
    requires gt == RotateRight(Node(Red,
      Paint(if ctx[0].RightOf? then RotateLeft(Attach(ctx[0], n)) else Attach(ctx[0], n), Black),
      ctx[1].fkey, ctx[1].fval, ctx[1].sibling))
    ensures gt.Node? && FixUp([LeftOf(gt.color, gt.key, gt.val, gt.right)] + ctx[2..], gt.left)
  {
    var p, g, h := ctx[0], ctx[1], BlackHeight(n);
    Grandparent(ctx, n);
    var ctx' := [LeftOf(gt.color, gt.key, gt.val, gt.right)] + ctx[2..];
    assert ctx'[1..] == ctx[2..];
    if p.RightOf? {
      var n' := Node(Red, p.sibling, p.fkey, p.fval, n.left);
      var gr := Node(Red, n.right, g.fkey, g.fval, g.sibling);
      assert gt == Node(Black, n', n.key, n.val, gr);
      assert RedFree(n') && Balanced(n') && BlackHeight(n') == h;
      assert RedFree(gr) && Balanced(gr) && BlackHeight(gr) == h;
    } else {
      var gr := Node(Red, p.sibling, g.fkey, g.fval, g.sibling);
      assert gt == Node(Black, n, p.fkey, p.fval, gr);
      assert RedFree(gr) && Balanced(gr) && BlackHeight(gr) == h;
    }
  }

  /** The mirror image: a black uncle on the left. */
  lemma FixUpRotateRightSide<V>(ctx: seq<Frame<V>>, n: Tree<V>, gt: Tree<V>)
    requires FixUp(ctx, n) && |ctx| >= 2 && ctx[0].fcolor == Red && ctx[1].RightOf?
    requires ColorOf(ctx[1].sibling) == Black
    requires gt == RotateLeft(Node(Red, ctx[1].sibling, ctx[1].fkey, ctx[1].fval,
      Paint(if ctx[0].LeftOf? then RotateRight(Attach(ctx[0], n)) else Attach(ctx[0], n), Black)))
    ensures gt.Node? && FixUp([RightOf(gt.color, gt.left, gt.key, gt.val)] + ctx[2..], gt.right)
  {
    var p, g, h := ctx[0], ctx[1], BlackHeight(n);
    Grandparent(ctx, n);
    var ctx' := [RightOf(gt.color, gt.left, gt.key, gt.val)] + ctx[2..];
    assert ctx'[1..] == ctx[2..];
    if p.LeftOf? {
      var n' := Node(Red, n.right, p.fkey, p.fval, p.sibling);
      var gl := Node(Red, g.sibling, g.fkey, g.fval, n.left);
      assert gt == Node(Black, gl, n.key, n.val, n');
      assert RedFree(n') && Balanced(n') && BlackHeight(n') == h;
      assert RedFree(gl) && Balanced(gl) && BlackHeight(gl) == h;
    } else {
      var gl := Node(Red, g.sibling, g.fkey, g.fval, p.sibling);
      assert gt == Node(Black, gl, p.fkey, p.fval, n);
      assert RedFree(gl) && Balanced(gl) && BlackHeight(gl) == h;
    }
  }

  /**
   * One pass of the fix-up loop when n's red parent is the left child of
   * the grandparent: with a red uncle, recolour parent and uncle black and
   * the grandparent red, and continue from the grandparent; otherwise
   * rotate an inner n outwards at the parent, paint the parent black and
   * the grandparent red, and rotate right at the grandparent.
   */
  method FixUpLeftSide<V>(ctx: seq<Frame<V>>, n: Tree<V>) returns (ctx': seq<Frame<V>>, n': Tree<V>)
    requires |ctx| >= 2 && ctx[0].fcolor == Red && ctx[1].LeftOf?
    ensures |ctx'| < |ctx| && InOrder(Plug(ctx', n')) == InOrder(Plug(ctx, n))
    ensures FixUp(ctx, n) ==> FixUp(ctx', n')
  {
    var p, g := ctx[0], ctx[1];
    var uncle := g.sibling;
    PlugTwo(ctx, n);
    if uncle.Node? && uncle.color == Red {
      n' := Node(Red, Attach(p.(fcolor := Black), n), g.fkey, g.fval, Paint(uncle, Black));
      ctx' := ctx[2..];
      if FixUp(ctx, n) {
        FixUpRecolourLeft(ctx, n, n');
      }
      PlugSameInOrder(ctx', n', Attach(g, Attach(p, n)));
    } else {
      var sub := Attach(p, n);
      if p.RightOf? {
        sub := RotateLeft(sub);
      }
      var gt := RotateRight(Node(Red, Paint(sub, Black), g.fkey, g.fval, uncle));
      n', ctx' := gt.left, [LeftOf(gt.color, gt.key, gt.val, gt.right)] + ctx[2..];
      if FixUp(ctx, n) {
        FixUpRotateLeftSide(ctx, n, gt);
      }
      assert InOrder(gt) == InOrder(Attach(g, Attach(p, n))) by {
        assert InOrder(Paint(sub, Black)) == InOrder(sub) == InOrder(Attach(p, n));
      }
      assert ctx'[1..] == ctx[2..] && Attach(ctx'[0], n') == gt;
      assert Plug(ctx', n') == Plug(ctx[2..], gt);
      PlugSameInOrder(ctx[2..], gt, Attach(g, Attach(p, n)));
    }
  }

  /** The mirror image: n's red parent is the right child of the grandparent. */
  method FixUpRightSide<V>(ctx: seq<Frame<V>>, n: Tree<V>) returns (ctx': seq<Frame<V>>, n': Tree<V>)
    requires |ctx| >= 2 && ctx[0].fcolor == Red && ctx[1].RightOf?
    ensures |ctx'| < |ctx| && InOrder(Plug(ctx', n')) == InOrder(Plug(ctx, n))
    ensures FixUp(ctx, n) ==> FixUp(ctx', n')
  {
    var p, g := ctx[0], ctx[1];
    var uncle := g.sibling;
    PlugTwo(ctx, n);
    if uncle.Node? && uncle.color == Red {
      n' := Node(Red, Paint(uncle, Black), g.fkey, g.fval, Attach(p.(fcolor := Black), n));
      ctx' := ctx[2..];
      if FixUp(ctx, n) {
        FixUpRecolourRight(ctx, n, n');
      }
      PlugSameInOrder(ctx', n', Attach(g, Attach(p, n)));
    } else {
      var sub := Attach(p, n);
      if p.LeftOf? {
        sub := RotateRight(sub);
      }
      var gt := RotateLeft(Node(Red, uncle, g.fkey, g.fval, Paint(sub, Black)));
      n', ctx' := gt.right, [RightOf(gt.color, gt.left, gt.key, gt.val)] + ctx[2..];
      if FixUp(ctx, n) {
        FixUpRotateRightSide(ctx, n, gt);
      }
      assert InOrder(gt) == InOrder(Attach(g, Attach(p, n))) by {
        assert InOrder(Paint(sub, Black)) == InOrder(sub) == InOrder(Attach(p, n));
      }
      assert ctx'[1..] == ctx[2..] && Attach(ctx'[0], n') == gt;
      assert Plug(ctx', n') == Plug(ctx[2..], gt);
      PlugSameInOrder(ctx[2..], gt, Attach(g, Attach(p, n)));
    }
  }

  /**
   * The fix-up loop of insert: while n has a red parent, repair on the
   * side the parent hangs from the grandparent; stop early when the
   * parent has no parent. The in-order items never change, and on a
   * red-black tree the loop keeps its invariant.
   */
  /** The node at this place is the root or has a black parent: the fix-up loop does not run. */
  predicate UnderBlack<V>(ctx: seq<Frame<V>>)
  {
    ctx == [] || ctx[0].fcolor == Black
  }

  method FixUpLoop<V>(ctx0: seq<Frame<V>>, n0: Tree<V>) returns (ctx: seq<Frame<V>>, n: Tree<V>)
    ensures InOrder(Plug(ctx, n)) == InOrder(Plug(ctx0, n0))
    ensures FixUp(ctx0, n0) ==> FixUp(ctx, n) && (ctx == [] || ctx[0].fcolor == Black || |ctx| == 1)
    ensures UnderBlack(ctx0) ==> ctx == ctx0 && n == n0
  {
    ctx, n := ctx0, n0;
    while ctx != [] && ctx[0].fcolor == Red
      invariant InOrder(Plug(ctx, n)) == InOrder(Plug(ctx0, n0))
      invariant FixUp(ctx0, n0) ==> FixUp(ctx, n)
      invariant UnderBlack(ctx0) ==> ctx == ctx0 && n == n0
      decreases |ctx|
    {
      if |ctx| == 1 {
        break;
      }
      if ctx[1].LeftOf? {
        ctx, n := FixUpLeftSide(ctx, n);
      } else {
        ctx, n := FixUpRightSide(ctx, n);
      }
    }
  }

  /** The new node hung where insert_internal's descent ends sits at its sorted place. */
  lemma InsertPlacement<V>(t: Tree<V>, k: int, v: V)
    requires Ordered(InOrder(t))
    ensures var s := InOrder(Plug(Descend([], t, k), Node(Red, Leaf, k, v, Leaf)));
      s == InsertSorted(InOrder(t), Item(k, v)) && Ordered(s) && |s| == |InOrder(t)| + 1
  {
    var ctx := Descend([], t, k);
    var before, after, x := CtxBefore(ctx), CtxAfter(ctx), Item(k, v);
    PlugAroundSplit(ctx, Leaf, [], []);
    PlugAroundSplit(ctx, Node(Red, Leaf, k, v, Leaf), [x], []);
    assert Plug(ctx, Leaf) == t by {
      assert Plug([], t) == t;
    }
    Unpad(InOrder(t), InOrder(Plug(ctx, Node(Red, Leaf, k, v, Leaf))), before, x, after);
    DescendSplit([], t, k);
    SortedPlacement(InOrder(t), before, after, x);
  }

  /** Between the items at most its key and those above it is where sorted insertion puts x. */
  lemma SortedPlacement<V>(s: seq<Item<V>>, b: seq<Item<V>>, a: seq<Item<V>>, x: Item<V>)
    requires s == b + a && Ordered(s)
    requires forall i :: 0 <= i < |b| ==> b[i].key <= x.key
    requires forall i :: 0 <= i < |a| ==> a[i].key > x.key
    ensures b + [x] + a == InsertSorted(s, x) && Ordered(b + [x] + a) && |b + [x] + a| == |s| + 1
  {
    SplitIsInsertSorted(b, a, x);
    OrderedSplitInsert(b, a, x);
  }

  // ---------------------------------------------------------------------
  // Iteration

  /** The leftmost node of t, below ctx: begin(), and the first step of next() into a right subtree. */
  function Leftmost<V>(ctx: seq<Frame<V>>, t: Tree<V>): (p: Pos<V>)
    requires t.Node?
    ensures p.focus.Node? && p.focus.left.Leaf? && Plug(p.ctx, p.focus) == Plug(ctx, t)
    decreases t
  {
    if t.left.Leaf? then Pos(ctx, t)
    else Leftmost([LeftOf(t.color, t.key, t.val, t.right)] + ctx, t.left)
  }

  /** Climbing from t while it is a right child; the first ancestor reached from its left, or null at the root. */
  function ClimbRight<V>(ctx: seq<Frame<V>>, t: Tree<V>): (r: Option<Pos<V>>)
    ensures r.Some? ==> r.value.focus.Node? && Plug(r.value.ctx, r.value.focus) == Plug(ctx, t)
    decreases |ctx|
  {
    if ctx == [] then None
    else if ctx[0].LeftOf? then Some(Pos(ctx[1..], Attach(ctx[0], t)))
    else ClimbRight(ctx[1..], Attach(ctx[0], t))
  }

  /** iterator::next: the leftmost node of the right subtree, or else the nearest ancestor reached from the left. */
  function Successor<V>(p: Pos<V>): (r: Option<Pos<V>>)
    requires p.focus.Node?
    ensures r.Some? ==> r.value.focus.Node? && Plug(r.value.ctx, r.value.focus) == Plug(p.ctx, p.focus)
  {
    if p.focus.right.Node? then
      Some(Leftmost([RightOf(p.focus.color, p.focus.left, p.focus.key, p.focus.val)] + p.ctx, p.focus.right))
    else ClimbRight(p.ctx, p.focus)
  }

  /** The items before a position in in-order: those before its subtree and those in its left subtree. */
  function Before<V>(p: Pos<V>): seq<Item<V>>
    requires p.focus.Node?
  {
    CtxBefore(p.ctx) + InOrder(p.focus.left)
  }

  lemma {:induction false} LeftmostBefore<V>(ctx: seq<Frame<V>>, t: Tree<V>)
    requires t.Node?
    ensures Before(Leftmost(ctx, t)) == CtxBefore(ctx)
    decreases t
  {
    if t.left.Node? {
      var f := LeftOf(t.color, t.key, t.val, t.right);
      assert ([f] + ctx)[1..] == ctx;
      LeftmostBefore([f] + ctx, t.left);
    }
  }

  lemma {:induction false} ClimbRightBefore<V>(ctx: seq<Frame<V>>, t: Tree<V>)
    ensures ClimbRight(ctx, t).Some? ==> Before(ClimbRight(ctx, t).value) == CtxBefore(ctx) + InOrder(t)
    ensures ClimbRight(ctx, t).None? ==> CtxBefore(ctx) + InOrder(t) == InOrder(Plug(ctx, t))
    decreases |ctx|
  {
    if ctx != [] {
      var f := ctx[0];
      if f.LeftOf? {
        assert CtxBefore(ctx) == CtxBefore(ctx[1..]);
      } else {
        ClimbRightBefore(ctx[1..], Attach(f, t));
        AttachInOrder(f, t);
        Assoc(CtxBefore(ctx[1..]), FrameBefore(f), InOrder(t));
      }
    } else {
      assert CtxBefore(ctx) == [];
    }
  }

  lemma Assoc<T>(a: seq<T>, b: seq<T>, c: seq<T>)
    ensures a + (b + c + []) == (a + b) + c
  {
  }

  /** One ++ moves past exactly the current node: the items before the successor are those before it, then it. */
  lemma SuccessorBefore<V>(p: Pos<V>)
    requires p.focus.Node?
    ensures Successor(p).Some? ==> Before(Successor(p).value) == Before(p) + [Item(p.focus.key, p.focus.val)]
    ensures Successor(p).None? ==> Before(p) + [Item(p.focus.key, p.focus.val)] == InOrder(Plug(p.ctx, p.focus))
  {
    var t := p.focus;
    if t.right.Node? {
      var f := RightOf(t.color, t.left, t.key, t.val);
      assert ([f] + p.ctx)[1..] == p.ctx;
      LeftmostBefore([f] + p.ctx, t.right);
    } else {
      ClimbRightBefore(p.ctx, t);
    }
  }

  /** The in-order position of the current node, counted from the start. */
  lemma BeforeIsPrefix<V>(p: Pos<V>)
    requires p.focus.Node?
    ensures |Before(p)| < |InOrder(Plug(p.ctx, p.focus))|
    ensures InOrder(Plug(p.ctx, p.focus))[|Before(p)|] == Item(p.focus.key, p.focus.val)
  {
    PlugInOrder(p.ctx, p.focus);
  }

  /** red_black_tree::iterator: the current node, or null at end(). */
  class TreeIterator<V(==)> {
    var ptr: Option<Pos<V>>

    constructor (p: Option<Pos<V>>)
      ensures ptr == p
    {
      ptr := p;
    }

    /**
     * operator==: the node pointers are compared. The end iterator equals
     * exactly the iterators on no node, and equal iterators on a node
     * dereference to the same key and value.
     */
    predicate Equals(other: TreeIterator<V>)
      reads this, other
      ensures ptr.None? ==> (Equals(other) <==> other.ptr.None?)
      ensures Equals(other) && ptr.Some? && ptr.value.focus.Node? ==>
        other.ptr.Some? && other.ptr.value.focus.Node? && other.Value() == Value()
    {
      ptr == other.ptr
    }

    /** operator*: the current node's key and value. */
    function Value(): (it: Item<V>)
      requires ptr.Some? && ptr.value.focus.Node?
      reads this
      ensures it == Item(ptr.value.focus.key, ptr.value.focus.val)
    {
      Item(ptr.value.focus.key, ptr.value.focus.val)
    }

    /** operator++: next(), the in-order successor. */
    method Next()
      requires ptr.Some? && ptr.value.focus.Node?
      modifies this
      ensures ptr == Successor(old(ptr.value))
    {
      var ctx, n := ptr.value.ctx, ptr.value.focus;
      var nxt: Option<Pos<V>> := None;
      if n.right.Node? {
        ctx := [RightOf(n.color, n.left, n.key, n.val)] + ctx;
        n := n.right;
        while n.left.Node?
          invariant n.Node? && Leftmost(ctx, n) == Successor(old(ptr.value)).value
          decreases n
        {
          ctx := [LeftOf(n.color, n.key, n.val, n.right)] + ctx;
          n := n.left;
        }
        nxt := Some(Pos(ctx, n));
      } else if ctx != [] {
        if ctx[0].LeftOf? {
          nxt := Some(Pos(ctx[1..], Attach(ctx[0], n)));
        } else {
          n := Attach(ctx[0], n);
          ctx := ctx[1..];
          while ctx != [] && ctx[0].RightOf?
            invariant ClimbRight(ctx, n) == Successor(old(ptr.value))
            decreases |ctx|
          {
            n := Attach(ctx[0], n);
            ctx := ctx[1..];
          }
          if ctx != [] {
            nxt := Some(Pos(ctx[1..], Attach(ctx[0], n)));
          }
        }
      }
      ptr := nxt;
    }
  }

  // ---------------------------------------------------------------------
  // The tree object

  class RedBlackTree<V(==)> {
    var root: Tree<V>
    var count: nat
    /**
     * Set once remove has deleted a node that still had a child: the
     * node's destructor frees that child's subtree, which stays linked
     * into the tree, so every later use of the tree is undefined.
     */
    var dangling: bool

    /** The in-order keys never decrease, and count_ counts the nodes. */
    ghost predicate Valid()
      reads this
    {
      Ordered(InOrder(root)) && count == |InOrder(root)|
    }

    /** red_black_tree(): no root, count 0. */
    constructor ()
      ensures Valid() && root == Leaf && count == 0 && IsRedBlack(root) && !dangling
    {
      root := Leaf;
      count := 0;
      dangling := false;
    }

    /** find: the first node with key k on the search path, or null. */
    function Find(k: int): (r: Option<Pos<V>>)
      reads this
      ensures r.Some? ==> r.value.focus.Node? && r.value.focus.key == k && Plug(r.value.ctx, r.value.focus) == root
    {
      Search([], root, k)
    }

    /** find returns null exactly for the keys the tree does not hold. */
    lemma FindComplete(k: int)
      requires Valid()
      ensures Find(k).None? <==> NoKey(InOrder(root), k)
    {
      SearchComplete([], root, k);
    }

    /**
     * insert: the new node is hung where the descent ends, painted red,
     * and repaired upwards; the root is painted black and count_ grows.
     * The items become the sorted insertion of the new one (after every
     * equal key), and a red-black tree stays red-black.
     */
    method Insert(k: int, v: V)
      requires Valid()
      modifies this
      ensures Valid() && count == old(count) + 1
      ensures InOrder(root) == InsertSorted(old(InOrder(root)), Item(k, v))
      ensures ColorOf(root) == Black
      ensures IsRedBlack(old(root)) ==> IsRedBlack(root)
      ensures UnderBlack(Descend([], old(root), k)) ==>
        root == Paint(Plug(Descend([], old(root), k), Node(Red, Leaf, k, v, Leaf)), Black)
      ensures dangling == old(dangling)
    {
      ghost var wasRedBlack := IsRedBlack(root);
      var ctx := Descend([], root, k);
      var n := Node(Red, Leaf, k, v, Leaf);
      InsertPlacement(root, k, v);
      if wasRedBlack {
        FixUpStart(ctx, k, v);
      }
      ctx, n := FixUpLoop(ctx, n);
      if wasRedBlack {
        FixUpEnd(ctx, n);
      }
      root := Paint(Plug(ctx, n), Black);
      count := count + 1;
    }

    /**
     * remove (without the colour repair): a node with at most one child is
     * replaced by that child; otherwise its in-order successor's key and
     * value are copied into it and the successor is replaced by its right
     * child. The node's item leaves the in-order sequence and count_ drops.
     */
    method Remove(p: Option<Pos<V>>)
      requires Valid()
      requires p.Some? ==> p.value.focus.Node? && Plug(p.value.ctx, p.value.focus) == root
      modifies this
      ensures Valid()
      ensures p.None? ==> root == old(root) && count == old(count)
      ensures p.Some? ==>
        var i := |Before(p.value)|;
        i < |old(InOrder(root))| && old(InOrder(root))[i] == Item(p.value.focus.key, p.value.focus.val) &&
        InOrder(root) == old(InOrder(root))[..i] + old(InOrder(root))[i + 1..] && count == old(count) - 1
      ensures p.Some? ==> dangling == (old(dangling) || SubstituteFreed(p.value.focus))
      ensures p.None? ==> dangling == old(dangling)
    {
      if p.None? {
        return;
      }
      var ctx, n := p.value.ctx, p.value.focus;
      ghost var items := InOrder(root);
      var replacement, freed := SpliceOut(n);
      RemoveInOrder(ctx, n, replacement);
      OrderedRemove(items, |Before(p.value)|);
      root := Plug(ctx, replacement);
      count := count - 1;
      dangling := dangling || freed;
    }

    /** begin: the leftmost node, or null for an empty tree. */
    method Begin() returns (it: TreeIterator<V>)
      ensures fresh(it)
      ensures root.Leaf? ==> it.ptr.None?
      ensures root.Node? ==> it.ptr == Some(Leftmost([], root))
    {
      var p: Option<Pos<V>> := None;
      if root.Node? {
        var ctx: seq<Frame<V>> := [];
        var n := root;
        while n.left.Node?
          invariant n.Node? && Leftmost(ctx, n) == Leftmost([], root)
          decreases n
        {
          ctx := [LeftOf(n.color, n.key, n.val, n.right)] + ctx;
          n := n.left;
        }
        p := Some(Pos(ctx, n));
      }
      it := new TreeIterator(p);
    }

    /** end: the null iterator. */
    method End() returns (it: TreeIterator<V>)
      ensures fresh(it) && it.ptr.None?
    {
      it := new TreeIterator(None);
    }

    /** A loop from begin() to end(): it yields the items in order, so the keys never decrease. */
    method Walk() returns (es: seq<Item<V>>)
      requires Valid()
      ensures es == InOrder(root) && Ordered(es) && |es| == count
    {
      var it := Begin();
      var last := End();
      if root.Node? {
        LeftmostBefore([], root);
      }
      es := [];
      while !it.Equals(last)
        invariant fresh(it) && it != last && last.ptr.None?
        invariant it.ptr.Some? ==>
          it.ptr.value.focus.Node? && Plug(it.ptr.value.ctx, it.ptr.value.focus) == root && es == Before(it.ptr.value)
        invariant it.ptr.None? ==> es == InOrder(root)
        decreases |InOrder(root)| - |es|
      {
        BeforeIsPrefix(it.ptr.value);
        SuccessorBefore(it.ptr.value);
        es := es + [it.Value()];
        it.Next();
      }
    }
  }

  /**
   * Whether remove's `delete del` frees a subtree that is still linked:
   * del (the node itself, or its successor when it has two children) has
   * a child, which takes del's place and which ~red_black_tree_node then
   * deletes together with everything below it.
   */
  predicate SubstituteFreed<V>(n: Tree<V>)
    requires n.Node?
  {
    if n.left.Leaf? || n.right.Leaf? then n.left.Node? || n.right.Node?
    else Leftmost([], n.right).focus.right.Node?
  }

  /**
   * insert(2, ..) then insert(1, ..) on a new tree, then remove(find(2)):
   * node 2 has the child 1, which becomes the root and is freed with node
   * 2 by its destructor, so the tree is left pointing at freed memory.
   */
  method RemoveFreesSubstitute() returns (t: RedBlackTree<int>)
    ensures t.dangling && t.count == 1 && InOrder(t.root) == [Item(1, 10)]
  {
    t := new RedBlackTree();
    t.Insert(2, 20);
    assert t.root == Node(Black, Leaf, 2, 20, Leaf);
    t.Insert(1, 10);
    assert t.root == Node(Black, Node(Red, Leaf, 1, 10, Leaf), 2, 20, Leaf);
    var p := t.Find(2);
    assert p == Some(Pos([], t.root));
    t.Remove(p);
  }

  /**
   * The unlinking step of remove, on the removed node's subtree: a node
   * with at most one child gives way to that child; otherwise the
   * leftmost node of its right subtree (find_successor) lends its key and
   * value and is replaced by its own right child.
   */
  method SpliceOut<V>(n: Tree<V>) returns (r: Tree<V>, freed: bool)
    requires n.Node?
    ensures InOrder(r) == InOrder(n.left) + InOrder(n.right)
    ensures freed == SubstituteFreed(n)
  {
    if n.left.Leaf? || n.right.Leaf? {
      r := if n.left.Node? then n.left else n.right;
      freed := r.Node?;
    } else {
      var sctx: seq<Frame<V>> := [];
      var s := n.right;
      while s.left.Node?
        invariant s.Node? && Plug(sctx, s) == n.right && CtxBefore(sctx) == []
        invariant Leftmost(sctx, s) == Leftmost([], n.right)
        decreases s
      {
        var f := LeftOf(s.color, s.key, s.val, s.right);
        assert ([f] + sctx)[1..] == sctx;
        sctx := [f] + sctx;
        s := s.left;
      }
      var rest := Plug(sctx, s.right);
      LeftmostOut(sctx, s);
      r := Node(n.color, n.left, s.key, s.val, rest);
      freed := s.right.Node?;
      assert InOrder(r) == InOrder(n.left) + ([Item(s.key, s.val)] + InOrder(rest));
    }
  }

  /** Taking out a leftmost node, found down a path of left links, drops the first item. */
  lemma LeftmostOut<V>(ctx: seq<Frame<V>>, s: Tree<V>)
    requires CtxBefore(ctx) == [] && s.Node? && s.left.Leaf?
    ensures InOrder(Plug(ctx, s)) == [Item(s.key, s.val)] + InOrder(Plug(ctx, s.right))
  {
    var x, w := Item(s.key, s.val), InOrder(s.right);
    assert InOrder(s) == [x] + w;
    PlugAroundSplit(ctx, s, [x], w);
    PlugAroundSplit(ctx, s.right, [], w);
    DropFirst(InOrder(Plug(ctx, s)), InOrder(Plug(ctx, s.right)), CtxBefore(ctx), x, w + CtxAfter(ctx));
  }

  lemma Unpad<T>(s1: seq<T>, s2: seq<T>, b: seq<T>, x: T, a: seq<T>)
    requires s1 == (b + []) + ([] + a) && s2 == (b + [x]) + ([] + a)
    ensures s1 == b + a && s2 == b + [x] + a
  {
  }

  lemma DropFirst<T>(s1: seq<T>, s2: seq<T>, e: seq<T>, x: T, q: seq<T>)
    requires e == [] && s1 == (e + [x]) + q && s2 == (e + []) + q
    ensures s1 == [x] + s2
  {
  }

  /** Splicing a node out of its place drops exactly its item from the in-order sequence. */
  lemma RemoveInOrder<V>(ctx: seq<Frame<V>>, n: Tree<V>, r: Tree<V>)
    requires n.Node? && InOrder(r) == InOrder(n.left) + InOrder(n.right)
    ensures var s, i := InOrder(Plug(ctx, n)), |Before(Pos(ctx, n))|;
      i < |s| && s[i] == Item(n.key, n.val) && InOrder(Plug(ctx, r)) == s[..i] + s[i + 1..]
  {
    var u, w := Before(Pos(ctx, n)), InOrder(n.right) + CtxAfter(ctx);
    var x := Item(n.key, n.val);
    PlugAroundNode(ctx, n);
    PlugAroundSplit(ctx, r, InOrder(n.left), InOrder(n.right));
    SplitAround(u, x, w);
  }

  /** The in-order items around a node: those before it, its own, then its right subtree's and those after it. */
  lemma PlugAroundNode<V>(ctx: seq<Frame<V>>, n: Tree<V>)
    requires n.Node?
    ensures InOrder(Plug(ctx, n)) == Before(Pos(ctx, n)) + [Item(n.key, n.val)] + (InOrder(n.right) + CtxAfter(ctx))
  {
    PlugInOrder(ctx, n);
    Regroup(InOrder(Plug(ctx, n)), CtxBefore(ctx), InOrder(n), CtxAfter(ctx), InOrder(n.left), [Item(n.key, n.val)], InOrder(n.right));
  }

  /** The in-order items around a subtree whose items split in two. */
  lemma PlugAroundSplit<V>(ctx: seq<Frame<V>>, r: Tree<V>, b: seq<Item<V>>, c: seq<Item<V>>)
    requires InOrder(r) == b + c
    ensures InOrder(Plug(ctx, r)) == (CtxBefore(ctx) + b) + (c + CtxAfter(ctx))
  {
    PlugInOrder(ctx, r);
    Regroup4(InOrder(Plug(ctx, r)), CtxBefore(ctx), InOrder(r), CtxAfter(ctx), b, c);
  }

  lemma SplitAround<T>(u: seq<T>, x: T, w: seq<T>)
    ensures var s := u + [x] + w; s[|u|] == x && s[..|u|] == u && s[|u| + 1..] == w
  {
    var s := u + [x] + w;
    assert s[..|u|] == u;
    assert s[|u| + 1..] == w;
  }

  /** Dropping one item keeps the order. */
  lemma OrderedRemove<V>(s: seq<Item<V>>, i: nat)
    requires Ordered(s) && i < |s|
    ensures Ordered(s[..i] + s[i + 1..])
  {
    var r := s[..i] + s[i + 1..];
    forall a, b | 0 <= a < b < |r|
      ensures r[a].key <= r[b].key
    {
      var a' := if a < i then a else a + 1;
      var b' := if b < i then b else b + 1;
      assert r[a] == s[a'] && r[b] == s[b'];
    }
  }
}
