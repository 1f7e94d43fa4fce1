// The XML document (declared in json/json_document.h): a declaration line
// and a root element, written out as the declaration, a newline and the
// root's text, read back by taking the first line as the declaration and
// the rest as the root. It also resolves slash-separated paths of element
// names (at / at_recur) and searches the tree in iterator order
// (find_element).
module XmlDocuments {
  import opened Wrappers
  import opened StringUtil
  import opened StreamParsing
  import opened XmlNodes
  import opened XmlElements
  import XmlRender
  import opened XmlIterator

  /** DECL: the declaration every new document carries. */
  const Decl: string := "<?xml version=\"1.0\" encoding=\"UTF-8\"?>"

  /**
   * std::getline on a string stream over doc: the text up to the first
   * newline, which is consumed, and what follows it. Without a newline the
   * whole text is the line and nothing is left; on an empty text nothing
   * is read and the line is empty.
   */
  function GetLine(doc: string): (r: (string, string))
    ensures |r.0| + |r.1| <= |doc|
  {
    var k := Find(doc, '\n');
    if k < |doc| then (doc[..k], doc[k + 1..]) else (doc, [])
  }

  /** serialize: the declaration, a newline, the root's text at indentation 0. */
  function Serialized(root: XNode): (s: string)
    requires root.Elem?
  {
    Decl + "\n" + XmlRender.Render(root, 0)
  }

  // ---------------------------------------------------------------------
  // Path resolution
  // ---------------------------------------------------------------------

  /**
   * What at_recur leaves behind: whether it succeeded, where eptr points
   * (a path below the element it was called on) and the index p_cur of
   * the current segment.
   */
  datatype Resolved = Resolved(ok: bool, ptr: Path, cur: nat)

  /**
   * at_recur on the element e, segments segs, current segment cur. It fails
   * at the end of the segments and at a name that differs from the current
   * segment; a matching name advances the segment, and succeeds if that
   * was the last one; otherwise the element children are tried in list
   * order. The segment index is never rewound.
   */
  function AtSpec(e: XNode, segs: seq<string>, cur: nat): (r: Resolved)
    requires e.Elem? && cur <= |segs|
    ensures cur <= r.cur <= |segs|
    ensures r.ok ==> r.cur == |segs|
    decreases e, 1
  {
    if cur == |segs| || e.name != segs[cur] then Resolved(false, [], cur)
    else if cur + 1 == |segs| then Resolved(true, [], cur + 1)
    else ChildLoop(e, 0, segs, cur + 1, [])
  }

  /**
   * The child loop of at_recur from child k on, eptr at ptr: a child that
   * is not an element is skipped; eptr moves to an element child and the
   * recursion runs there; the first success ends the loop.
   */
  function ChildLoop(e: XNode, k: nat, segs: seq<string>, cur: nat, ptr: Path): (r: Resolved)
    requires e.Elem? && k <= |e.children| && cur <= |segs|
    ensures cur <= r.cur <= |segs|
    ensures r.ok ==> r.cur == |segs|
    decreases e, 0, |e.children| - k
  {
    if k == |e.children| then Resolved(false, ptr, cur)
    else if !e.children[k].Elem? then ChildLoop(e, k + 1, segs, cur, ptr)
    else
      var r := AtSpec(e.children[k], segs, cur);
      if r.ok then Resolved(true, [k] + r.ptr, r.cur)
      else ChildLoop(e, k + 1, segs, r.cur, [k] + r.ptr)
  }

  /** at(path): the element found by at_recur from the root, or None for end(). */
  function AtPath(root: XNode, path: string): (r: Option<Path>)
    requires root.Elem?
  {
    var segs := Split(path, '/');
    if |segs| < 1 then None
    else
      var r := AtSpec(root, segs, 0);
      if r.ok then Some(r.ptr) else None
  }

  /** The cursor at returns: an iterator on the element found, or end(). */
  function AtCursor(root: XNode, path: string): (c: Cursor)
    requires root.Elem?
  {
    match AtPath(root, path)
    case None => EndCursor
    case Some(p) => PointerCursor(p)
  }

  // ---------------------------------------------------------------------
  // Search
  // ---------------------------------------------------------------------

  /** Whether p names an element called s. */
  predicate NamedAt(root: XNode, p: Path, s: string)
  {
    NodeAt(root, p).Some? && NodeAt(root, p).value.Elem? && NodeAt(root, p).value.name == s
  }

  /** The test that ends find_element's loop at c: end(), or an element called s. */
  predicate Stops(root: XNode, c: Cursor, s: string)
  {
    c.node.None? || NamedAt(root, c.node.value, s)
  }

  /**
   * find_element(s, it) with at most fuel advances: the first cursor, in
   * iterator order from c, that is at end() or on an element called s.
   */
  function FindFrom(root: XNode, c: Cursor, s: string, fuel: nat): (r: Cursor)
    decreases fuel
  {
    if fuel == 0 || Stops(root, c, s) then c
    else FindFrom(root, AdvanceSpec(root, c), s, fuel - 1)
  }

  /** How many advances FindFrom makes. */
  function FindSteps(root: XNode, c: Cursor, s: string, fuel: nat): (k: nat)
    ensures k <= fuel
    decreases fuel
  {
    if fuel == 0 || Stops(root, c, s) then 0
    else 1 + FindSteps(root, AdvanceSpec(root, c), s, fuel - 1)
  }

  // ---------------------------------------------------------------------
  // The document
  // ---------------------------------------------------------------------

  /** basic_xml_document: docType_ and the root element root_. */
  class XmlDocument {
    var docType: string
    const root: XmlElement

    /** The default constructor: the declaration and an empty root. */
    constructor ()
      ensures docType == Decl && fresh(root)
      ensures root.name == "" && root.value == "" && root.children == []
    {
      docType := Decl;
      root := new XmlElement();
    }

    /** basic_xml_document(e): the declaration and a copy of e as the root. */
    constructor FromElement(e: XmlElement)
      ensures docType == Decl && fresh(root) && root.Tree() == e.Tree()
    {
      docType := Decl;
      root := new XmlElement.Copy(e);
    }

    /** serialize. */
    method Serialize() returns (s: string)
      ensures s == Serialized(root.Tree())
    {
      var body := root.ToString();
      s := Decl + "\n";
      s := s + body;
    }

    /**
     * deserialize(doc): the first line becomes docType_, then the root
     * reads itself from the rest of the stream.
     */
    method Deserialize(doc: string)
      modifies this, root
      ensures var (line, rest) := GetLine(doc);
        var r := ElementSpec(SV(rest, false));
        && docType == line
        && root.name == r.name && root.value == r.value
        && root.children == PushFronts(r.attrs, Cleared(old(root.children))) + r.nodes
    {
      var (line, rest) := GetLine(doc);
      docType := line;
      var input := new CharStream(rest);
      var ok := root.Deserialize(input);
    }

    /** begin(): an iterator on the root. */
    method Begin() returns (it: ElementIterator)
      ensures fresh(it) && it.host == root && it.State() == BeginCursor
    {
      it := new ElementIterator.Begin(root);
    }

    /** at(path). */
    method At(path: string) returns (it: ElementIterator)
      ensures fresh(it) && it.host == root && it.State() == AtCursor(root.Tree(), path)
    {
      var segs := SplitLoop(path, '/');
      if |segs| < 1 {
        it := new ElementIterator.End(root);
        return;
      }
      var ok, ptr, cur := AtRecur(root.Tree(), [], segs, 0);
      assert [] + AtSpec(root.Tree(), segs, 0).ptr == AtSpec(root.Tree(), segs, 0).ptr;
      if ok {
        it := new ElementIterator.Pointing(root, ptr);
      } else {
        it := new ElementIterator.End(root);
      }
    }

    /**
     * find_element(s, it), advancing it at most fuel times: it stops at
     * end() or at the first element called s.
     */
    method FindElement(s: string, it: ElementIterator, fuel: nat)
      requires it.host == root
      modifies it
      ensures it.State() == FindFrom(root.Tree(), old(it.State()), s, fuel)
    {
      var n := fuel;
      while n > 0 && it.node.Some? && !NamedAt(root.Tree(), it.node.value, s)
        invariant it.host == root
        invariant FindFrom(root.Tree(), it.State(), s, n) == FindFrom(root.Tree(), old(it.State()), s, fuel)
      {
        it.Advance();
        n := n - 1;
      }
    }

    /** find_element(s): the search from begin(). */
    method FindFromBegin(s: string, fuel: nat) returns (it: ElementIterator)
      ensures fresh(it) && it.host == root && it.State() == FindFrom(root.Tree(), BeginCursor, s, fuel)
    {
      it := Begin();
      FindElement(s, it, fuel);
    }
  }

  /**
   * at_recur: eptr is the element e at path at, p_cur is cur; both are
   * passed by reference and come back as ptr and cur'.
   */
  method AtRecur(e: XNode, at: Path, segs: seq<string>, cur: nat) returns (ok: bool, ptr: Path, cur': nat)
    requires e.Elem? && cur <= |segs|
    ensures var r := AtSpec(e, segs, cur); ok == r.ok && ptr == at + r.ptr && cur' == r.cur
    decreases e, 0
  {
    ptr, cur' := at, cur;
    if cur == |segs| || e.name != segs[cur] {
      assert at + [] == at;
      return false, ptr, cur';
    }
    cur' := cur + 1;
    if cur' == |segs| {
      assert at + [] == at;
      return true, ptr, cur';
    }
    var k := 0;
    ghost var rel: Path := [];
    while k < |e.children|
      invariant k <= |e.children| && cur' <= |segs| && ptr == at + rel
      invariant ChildLoop(e, k, segs, cur', rel) == ChildLoop(e, 0, segs, cur + 1, [])
      decreases |e.children| - k
    {
      if !e.children[k].Elem? {
        k := k + 1;
        continue;
      }
      ghost var r := AtSpec(e.children[k], segs, cur');
      var found;
      found, ptr, cur' := AtRecur(e.children[k], at + [k], segs, cur');
      rel := [k] + r.ptr;
      ConcatAssoc(at, [k], r.ptr);
      k := k + 1;
      if found {
        return true, ptr, cur';
      }
    }
    ok := false;
  }

  // ---------------------------------------------------------------------
  // What serialize and deserialize promise
  // ---------------------------------------------------------------------

  /** The declaration is one line. */
  lemma DeclOneLine()
    ensures '\n' !in Decl
  {
  }

  /** Reading a serialized document takes the declaration as the first line and leaves the root's text. */
  lemma GetLineSerialized(root: XNode)
    requires root.Elem?
    ensures GetLine(Serialized(root)) == (Decl, XmlRender.Render(root, 0))
  {
    var s := Serialized(root);
    DeclOneLine();
    assert s == Decl + ['\n'] + XmlRender.Render(root, 0);
    FindFirst(s, '\n', |Decl|);
    assert s[..|Decl|] == Decl;
    assert s[|Decl| + 1..] == XmlRender.Render(root, 0);
  }

  // ---------------------------------------------------------------------
  // What at promises
  // ---------------------------------------------------------------------

  /** Following a path from e through its k-th child is following the rest of the path from that child. */
  lemma NodeAtCons(e: XNode, k: nat, p: Path)
    requires e.Elem? && k < |e.children|
    ensures NodeAt(e, [k] + p) == NodeAt(e.children[k], p)
  {
    assert ([k] + p)[0] == k && ([k] + p)[1..] == p;
  }

  /** A success of at_recur leaves eptr on an element named by the last segment. */
  lemma AtSound(e: XNode, segs: seq<string>, cur: nat)
    requires e.Elem? && cur <= |segs|
    ensures var r := AtSpec(e, segs, cur); r.ok ==> |segs| > 0 && NamedAt(e, r.ptr, segs[|segs| - 1])
    decreases e, 1
  {
    if !(cur == |segs| || e.name != segs[cur]) && cur + 1 != |segs| {
      ChildLoopSound(e, 0, segs, cur + 1, []);
    }
  }

  /** The same for the child loop: a success comes from a child's subtree. */
  lemma ChildLoopSound(e: XNode, k: nat, segs: seq<string>, cur: nat, ptr: Path)
    requires e.Elem? && k <= |e.children| && cur <= |segs|
    ensures var r := ChildLoop(e, k, segs, cur, ptr); r.ok ==> |segs| > 0 && NamedAt(e, r.ptr, segs[|segs| - 1])
    decreases e, 0, |e.children| - k
  {
    if k < |e.children| {
      if !e.children[k].Elem? {
        ChildLoopSound(e, k + 1, segs, cur, ptr);
      } else {
        var r := AtSpec(e.children[k], segs, cur);
        AtSound(e.children[k], segs, cur);
        NodeAtCons(e, k, r.ptr);
        if !r.ok {
          ChildLoopSound(e, k + 1, segs, r.cur, [k] + r.ptr);
        }
      }
    }
  }

  /** Child k is the first element child called n. */
  predicate FirstNamed(cs: seq<XNode>, k: nat, n: string)
  {
    && k < |cs| && cs[k].Elem? && cs[k].name == n
    && forall j :: 0 <= j < k ==> !(cs[j].Elem? && cs[j].name == n)
  }

  /**
   * rel leads from e through elements named segs[cur], segs[cur + 1], ...,
   * up to the last segment, taking at each step the first element child
   * with the next name.
   */
  predicate LeftmostPath(e: XNode, rel: Path, segs: seq<string>, cur: nat)
    requires cur < |segs|
    decreases |rel|
  {
    && e.Elem? && e.name == segs[cur] && |rel| == |segs| - cur - 1
    && (rel != [] ==>
         && FirstNamed(e.children, rel[0], segs[cur + 1])
         && LeftmostPath(e.children[rel[0]], rel[1..], segs, cur + 1))
  }

  /**
   * The child loop passes over children that are not elements named
   * segs[cur] without moving the segment, and a success at the first
   * element so named is the loop's result.
   */
  lemma {:induction false} ChildLoopReaches(e: XNode, j: nat, k: nat, segs: seq<string>, cur: nat, ptr: Path)
    requires e.Elem? && j <= k && cur < |segs| && FirstNamed(e.children, k, segs[cur])
    requires AtSpec(e.children[k], segs, cur).ok
    ensures ChildLoop(e, j, segs, cur, ptr) == Resolved(true, [k] + AtSpec(e.children[k], segs, cur).ptr, |segs|)
    decreases k - j
  {
    if j < k {
      if e.children[j].Elem? {
        assert e.children[j].name != segs[cur];
        assert AtSpec(e.children[j], segs, cur) == Resolved(false, [], cur);
        ChildLoopReaches(e, j + 1, k, segs, cur, [j] + []);
      } else {
        ChildLoopReaches(e, j + 1, k, segs, cur, ptr);
      }
    }
  }

  /** at_recur finds the element at the end of a leftmost path that spells the segments. */
  lemma {:induction false} AtFindsLeftmost(e: XNode, rel: Path, segs: seq<string>, cur: nat)
    requires cur < |segs| && LeftmostPath(e, rel, segs, cur)
    ensures AtSpec(e, segs, cur) == Resolved(true, rel, |segs|)
    decreases |rel|
  {
    if rel != [] {
      var k := rel[0];
      AtFindsLeftmost(e.children[k], rel[1..], segs, cur + 1);
      ChildLoopReaches(e, 0, k, segs, cur + 1, []);
      assert [k] + rel[1..] == rel;
    }
  }

  /** A path of slashes only has no segment: at returns end(). */
  lemma AtOnlySlashes(root: XNode, path: string)
    requires root.Elem? && forall i :: 0 <= i < |path| ==> path[i] == '/'
    ensures AtPath(root, path).None? && AtCursor(root, path) == EndCursor
  {
    SplitOnlyDelims(path, '/');
  }

  /** Splitting a run of delimiters gives no piece. */
  lemma {:induction false} SplitOnlyDelims(s: string, d: char)
    requires forall i :: 0 <= i < |s| ==> s[i] == d
    ensures Split(s, d) == []
    decreases |s|
  {
    if s != [] {
      FindFirst(s, d, 0);
      SplitOnlyDelims(s[1..], d);
    }
  }

  /** The tree a(b, b(c)). */
  const Twins := Elem("a", "", [Elem("b", "", []), Elem("b", "", [Elem("c", "", [])])])

  /**
   * Defect: a/b/c exists in a(b, b(c)), at the second b, but the first b
   * consumes the segment "b" and fails, so the second b is compared with
   * "c" and the path is not found.
   */
  lemma AtMissesLaterSibling()
    ensures NodeAt(Twins, [1, 0]) == Some(Elem("c", "", []))
    ensures !AtSpec(Twins, ["a", "b", "c"], 0).ok
  {
    var segs := ["a", "b", "c"];
    var b0 := Twins.children[0];
    var b1 := Twins.children[1];
    assert AtSpec(b0, segs, 1) == Resolved(false, [], 2);
    assert AtSpec(b1, segs, 2) == Resolved(false, [], 2);
    assert ChildLoop(Twins, 2, segs, 2, [1]) == Resolved(false, [1], 2);
    assert ChildLoop(Twins, 1, segs, 2, [0]) == Resolved(false, [1], 2);
  }

  /** The tree a(b(x), c). */
  const Skewed := Elem("a", "", [Elem("b", "", [Elem("x", "", [])]), Elem("c", "", [])])

  /**
   * Defect: a(b(x), c) has no a/b/c, yet after b's subtree fails on "c"
   * the segment stays at "c", the sibling c matches it, and at returns
   * the element a/c.
   */
  lemma AtReturnsWrongElement()
    ensures AtSpec(Skewed, ["a", "b", "c"], 0) == Resolved(true, [1], 3)
    ensures NodeAt(Skewed, [1]) == Some(Elem("c", "", []))
  {
    var segs := ["a", "b", "c"];
    var b := Skewed.children[0];
    var x := b.children[0];
    assert AtSpec(x, segs, 2) == Resolved(false, [], 2);
    assert ChildLoop(b, 1, segs, 2, [0]) == Resolved(false, [0], 2);
    assert AtSpec(b, segs, 1) == Resolved(false, [0], 2);
    assert AtSpec(Skewed.children[1], segs, 2) == Resolved(true, [], 3);
    assert ChildLoop(Skewed, 1, segs, 2, [0, 0]) == Resolved(true, [1], 3);
  }

  /** Three names joined by '/' split back into those names. */
  lemma SplitThree(x: string, y: string, z: string)
    requires x != [] && y != [] && z != [] && '/' !in x && '/' !in y && '/' !in z
    ensures Split(x + "/" + y + "/" + z, '/') == [x, y, z]
  {
    SplitAtDelim(y, '/', z);
    SplitAtDelim(x, '/', y + "/" + z);
    SplitNoDelim(x, '/');
    SplitNoDelim(y, '/');
    SplitNoDelim(z, '/');
    assert x + "/" + y + "/" + z == x + ['/'] + (y + ['/'] + z);
  }

  /** at("a/b/c") on a(b, b(c)) is end(); on a(b(x), c) it is the element c. */
  lemma AtPathDefects()
    ensures AtPath(Twins, "a/b/c").None?
    ensures AtPath(Skewed, "a/b/c") == Some([1])
  {
    SplitThree("a", "b", "c");
    assert "a" + "/" + "b" + "/" + "c" == "a/b/c";
    AtMissesLaterSibling();
    AtReturnsWrongElement();
  }

  // ---------------------------------------------------------------------
  // What find_element promises
  // ---------------------------------------------------------------------

  /**
   * The search ends where the walk from c is after FindSteps advances;
   * none of the positions before it is end() or an element called s, and
   * unless the fuel ran out, the last one is.
   */
  lemma {:induction false} FindIsFirstStop(root: XNode, c: Cursor, s: string, fuel: nat)
    ensures var k := FindSteps(root, c, s, fuel);
      && FindFrom(root, c, s, fuel) == Walk(root, c, k)
      && (forall j :: 0 <= j < k ==> !Stops(root, Walk(root, c, j), s))
      && (k < fuel ==> Stops(root, Walk(root, c, k), s))
    decreases fuel
  {
    if !(fuel == 0 || Stops(root, c, s)) {
      var c1 := AdvanceSpec(root, c);
      FindIsFirstStop(root, c1, s, fuel - 1);
      var k := FindSteps(root, c, s, fuel);
      forall j | 0 <= j < k
        ensures !Stops(root, Walk(root, c, j), s)
      {
        if j > 0 {
          assert Walk(root, c, j) == Walk(root, c1, j - 1);
        }
      }
    }
  }

  /** Conversely, a stop after m advances, with none before and within the fuel, is where the search ends. */
  lemma {:induction false} FindReachesStop(root: XNode, c: Cursor, s: string, fuel: nat, m: nat)
    requires m <= fuel && Stops(root, Walk(root, c, m), s)
    requires forall j :: 0 <= j < m ==> !Stops(root, Walk(root, c, j), s)
    ensures FindFrom(root, c, s, fuel) == Walk(root, c, m)
    decreases m
  {
    if m > 0 {
      var c1 := AdvanceSpec(root, c);
      assert !Stops(root, Walk(root, c, 0), s);
      forall j | 0 <= j < m - 1
        ensures !Stops(root, Walk(root, c1, j), s)
      {
        assert Walk(root, c, j + 1) == Walk(root, c1, j);
      }
      FindReachesStop(root, c1, s, fuel - 1, m - 1);
    }
  }

  /**
   * In an element whose children are attributes and text only, a search
   * from begin() for another name passes the root and every child and
   * ends at end().
   */
  lemma FindInFlatElement(root: XNode, s: string, fuel: nat)
    requires root.Elem? && NoElementChildren(root.children) && root.name != s
    requires fuel > |root.children|
    ensures FindFrom(root, BeginCursor, s, fuel).node.None?
  {
    var n := |root.children|;
    forall j | 0 <= j < n + 1
      ensures !Stops(root, Walk(root, BeginCursor, j), s)
    {
      if j > 0 {
        FlatWalk(root, j);
      }
    }
    FlatWalkEnds(root);
    FindReachesStop(root, BeginCursor, s, fuel, n + 1);
  }

  /** find_element("d") on a(b, d) stops at d after two advances. */
  lemma FindInTwoLeaves()
    ensures FindFrom(TwoLeaves, BeginCursor, "d", 2) == Walk(TwoLeaves, BeginCursor, 2)
    ensures FindFrom(TwoLeaves, BeginCursor, "d", 2).node == Some([1])
  {
    TwoLeavesVisitsLastTwice();
    assert Walk(TwoLeaves, BeginCursor, 0) == BeginCursor;
    assert !NamedAt(TwoLeaves, [], "d");
    assert !NamedAt(TwoLeaves, [0], "d");
    assert NamedAt(TwoLeaves, [1], "d");
    FindReachesStop(TwoLeaves, BeginCursor, "d", 2, 2);
  }
}
