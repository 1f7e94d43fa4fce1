// to_string and to_string_recur of basic_xml_element_node: the start tag
// with the attributes, the children one per line indented three more
// spaces, then "/>" or the value and the end tag. The specification is
// Render; the method ToStringRecur appends to a string the way the C++
// code appends to the string it is passed by reference.
module XmlRender {
  import opened StringUtil
  import opened XmlNodes

  /**
   * The text one child adds in the children loop, given whether the start
   * tag is already closed. An attribute writes its own text; the first
   * text or element child closes the start tag with ">\n"; a text child
   * is written between two copies of the indentation; an element child is
   * rendered three spaces deeper.
   */
  function ChildPiece(c: XNode, level: nat, closed: bool): string
    decreases c, 1
  {
    match c
    case Attr(a) => a.ToString()
    case TextChild(t) => (if closed then "" else ">\n") + (Spaces(level) + t.ToString() + Spaces(level) + "\n")
    case Elem(_, _, _) => (if closed then "" else ">\n") + Render(c, level + 3)
  }

  /** The children loop over cs: what it appends and whether the start tag has been closed. */
  function ChildrenOut(cs: seq<XNode>, level: nat): (r: (string, bool))
    decreases cs
  {
    if cs == [] then ("", false)
    else
      var (p, closed) := ChildrenOut(cs[..|cs| - 1], level);
      var c := cs[|cs| - 1];
      (p + ChildPiece(c, level, closed), closed || !c.Attr?)
  }

  /** What follows the children: "/>", the value and the end tag, or the end tag on its own line. */
  function Close(name: string, value: string, ws: string, closed: bool): string
  {
    if !closed && value == "" then "/>\n"
    else if value != "" then ">" + value + "</" + name + ">\n"
    else ws + "</" + name + ">\n"
  }

  /** to_string_recur(s, level) appends Render(e, level) to s. */
  function Render(e: XNode, level: nat): (s: string)
    requires e.Elem?
    decreases e, 0
  {
    var ws := Spaces(level);
    var (body, closed) := ChildrenOut(e.children, level);
    ws + "<" + e.name + body + Close(e.name, e.value, ws, closed)
  }

  /** The attributes' text, in list order. */
  function AttrsText(cs: seq<XNode>): (s: string)
  {
    if cs == [] then "" else AttrsText(cs[..|cs| - 1]) + (if cs[|cs| - 1].Attr? then cs[|cs| - 1].attr.ToString() else "")
  }

  /** Only attributes: nothing closes the start tag. */
  predicate OnlyAttrs(cs: seq<XNode>)
  {
    forall i :: 0 <= i < |cs| ==> cs[i].Attr?
  }

  // ---------------------------------------------------------------------
  // The method
  // ---------------------------------------------------------------------

  /** to_string_recur: appends the element e, indented by level, to s. */
  method ToStringRecur(e: XNode, level: nat, s: string) returns (r: string)
    requires e.Elem?
    ensures r == s + Render(e, level)
    decreases e, 0
  {
    var closed := false;
    var ws := Spaces(level);
    r := s + ws + "<" + e.name;
    ghost var head := r;
    ghost var body := "";
    var i := 0;
    while i < |e.children|
      invariant i <= |e.children|
      invariant r == head + body && (body, closed) == ChildrenOut(e.children[..i], level)
    {
      ghost var piece := ChildPiece(e.children[i], level, closed);
      r, closed := AppendChild(e.children[i], level, ws, r, closed);
      ConcatAssoc(head, body, piece);
      ChildrenOutStep(e.children, i, level);
      body := body + piece;
      i := i + 1;
    }
    assert e.children[..i] == e.children;
    if !closed && e.value == "" {
      r := r + "/>\n";
    } else if e.value != "" {
      r := r + (">" + e.value + "</" + e.name + ">\n");
    } else {
      r := r + (ws + "</" + e.name + ">\n");
    }
    RenderParts(s, e, level, head, body, r);
  }

  /** One pass of the children loop: appends the child c to r. */
  method AppendChild(c: XNode, level: nat, ws: string, r: string, closed: bool) returns (r': string, closed': bool)
    requires ws == Spaces(level)
    ensures r' == r + ChildPiece(c, level, closed) && closed' == (closed || !c.Attr?)
    decreases c, 1
  {
    closed' := closed;
    match c {
      case Attr(a) =>
        r' := r + a.ToString();
      case TextChild(t) =>
        var opener := if closed then "" else ">\n";
        closed' := true;
        r' := r + opener + (ws + t.ToString() + ws + "\n");
        ConcatAssoc(r, opener, ws + t.ToString() + ws + "\n");
      case Elem(_, _, _) =>
        var opener := if closed then "" else ">\n";
        closed' := true;
        r' := ToStringRecur(c, level + 3, r + opener);
        ConcatAssoc(r, opener, Render(c, level + 3));
    }
  }

  /** One more child: the loop's text grows by that child's piece. */
  lemma ChildrenOutStep(cs: seq<XNode>, i: nat, level: nat)
    requires i < |cs|
    ensures var (body, closed) := ChildrenOut(cs[..i], level);
      ChildrenOut(cs[..i + 1], level) == (body + ChildPiece(cs[i], level, closed), closed || !cs[i].Attr?)
  {
    assert cs[..i + 1][..i] == cs[..i];
  }

  /** The start, the children and the close make the rendering. */
  lemma RenderParts(s: string, e: XNode, level: nat, head: string, body: string, r: string)
    requires e.Elem? && head == s + Spaces(level) + "<" + e.name
    requires body == ChildrenOut(e.children, level).0
    requires r == head + body + Close(e.name, e.value, Spaces(level), ChildrenOut(e.children, level).1)
    ensures r == s + Render(e, level)
  {
    var ws := Spaces(level);
    var c := Close(e.name, e.value, ws, ChildrenOut(e.children, level).1);
    calc {
      r;
      s + ws + "<" + e.name + body + c;
      { ConcatAssoc(s, ws + "<" + e.name + body, c); }
      s + (ws + "<" + e.name + body + c);
    }
  }

  // ---------------------------------------------------------------------
  // Output rules
  // ---------------------------------------------------------------------

  /** The start tag gets closed by the children loop exactly when some child is text or an element. */
  lemma {:induction false} ClosedIffContent(cs: seq<XNode>, level: nat)
    ensures ChildrenOut(cs, level).1 <==> exists i :: 0 <= i < |cs| && !cs[i].Attr?
  {
    if cs != [] {
      var init := cs[..|cs| - 1];
      ClosedIffContent(init, level);
      if ChildrenOut(init, level).1 {
        var i :| 0 <= i < |init| && !init[i].Attr?;
        assert !cs[i].Attr?;
      }
      if exists i :: 0 <= i < |cs| && !cs[i].Attr? {
        var i :| 0 <= i < |cs| && !cs[i].Attr?;
        if i < |init| {
          assert !init[i].Attr?;
        }
      }
    }
  }

  /** With attributes only, the loop writes exactly their text. */
  lemma {:induction false} AttrsOnlyOut(cs: seq<XNode>, level: nat)
    requires OnlyAttrs(cs)
    ensures ChildrenOut(cs, level) == (AttrsText(cs), false)
  {
    if cs != [] {
      AttrsOnlyOut(cs[..|cs| - 1], level);
    }
  }

  /** No text or element child and an empty value: <name attrs/> on one line. */
  lemma RenderEmpty(e: XNode, level: nat)
    requires e.Elem? && OnlyAttrs(e.children) && e.value == ""
    ensures Render(e, level) == Spaces(level) + "<" + e.name + AttrsText(e.children) + "/>\n"
  {
    AttrsOnlyOut(e.children, level);
  }

  /**
   * When some child is text or an element, the children's text is the
   * attributes before the first such child, then ">\n" closing the start
   * tag, then the rest.
   */
  lemma {:induction false} ClosedAfterAttrs(cs: seq<XNode>, level: nat, k: nat)
    requires k < |cs| && !cs[k].Attr? && OnlyAttrs(cs[..k])
    ensures exists rest :: ChildrenOut(cs, level).0 == AttrsText(cs[..k]) + ">\n" + rest
  {
    if |cs| == k + 1 {
      assert cs[..|cs| - 1] == cs[..k];
      AttrsOnlyOut(cs[..k], level);
      var c := cs[k];
      var rest := if c.TextChild? then Spaces(level) + c.txt.ToString() + Spaces(level) + "\n" else Render(c, level + 3);
      ConcatAssoc(AttrsText(cs[..k]), ">\n", rest);
      assert ChildrenOut(cs, level).0 == AttrsText(cs[..k]) + ">\n" + rest;
    } else {
      var init := cs[..|cs| - 1];
      assert init[..k] == cs[..k];
      ClosedAfterAttrs(init, level, k);
      var rest :| ChildrenOut(init, level).0 == AttrsText(cs[..k]) + ">\n" + rest;
      var piece := ChildPiece(cs[|cs| - 1], level, ChildrenOut(init, level).1);
      ConcatAssoc(AttrsText(cs[..k]) + ">\n", rest, piece);
      assert ChildrenOut(cs, level).0 == AttrsText(cs[..k]) + ">\n" + (rest + piece);
    }
  }

  /**
   * A non-empty value is written after the children as ">value</name>\n";
   * when a text or element child has already closed the start tag with
   * ">\n", the output holds a second '>' before the value.
   */
  lemma RenderValue(e: XNode, level: nat, k: nat)
    requires e.Elem? && e.value != ""
    requires k < |e.children| && !e.children[k].Attr? && OnlyAttrs(e.children[..k])
    ensures exists rest :: (Render(e, level) ==
      Spaces(level) + "<" + e.name + (AttrsText(e.children[..k]) + ">\n" + rest) + (">" + e.value + "</" + e.name + ">\n"))
  {
    ClosedAfterAttrs(e.children, level, k);
  }

  /** A non-empty value and attributes only: <name attrs>value</name> on one line. */
  lemma RenderValueInline(e: XNode, level: nat)
    requires e.Elem? && OnlyAttrs(e.children) && e.value != ""
    ensures Render(e, level) == Spaces(level) + "<" + e.name + AttrsText(e.children) + (">" + e.value + "</" + e.name + ">\n")
  {
    AttrsOnlyOut(e.children, level);
  }

  /** No value but text or element children: the end tag sits on its own line at the element's indentation. */
  lemma RenderEndTagLine(e: XNode, level: nat, k: nat)
    requires e.Elem? && e.value == ""
    requires k < |e.children| && !e.children[k].Attr? && OnlyAttrs(e.children[..k])
    ensures exists rest :: (Render(e, level) ==
      Spaces(level) + "<" + e.name + (AttrsText(e.children[..k]) + ">\n" + rest) + (Spaces(level) + "</" + e.name + ">\n"))
  {
    ClosedAfterAttrs(e.children, level, k);
    ClosedIffContent(e.children, level);
  }

  /**
   * A rendering at level 0 opens with '<' and the name; with a non-empty
   * value it closes with ">value</name>\n".
   */
  lemma RenderEnds(e: XNode, level: nat)
    requires e.Elem? && level == 0
    ensures var s := Render(e, level); var h := "<" + e.name;
      |h| <= |s| && s[..|h|] == h
    ensures e.value != "" ==> var s := Render(e, level); var t := ">" + e.value + "</" + e.name + ">\n";
      |t| <= |s| && s[|s| - |t|..] == t
  {
    var (body, closed) := ChildrenOut(e.children, level);
    var c := Close(e.name, e.value, Spaces(level), closed);
    assert Spaces(level) == "";
    assert Render(e, level) == ("<" + e.name) + body + c;
    Framed("<" + e.name, body, c);
  }

  /** The head and the tail of a concatenation are its first and last parts. */
  lemma Framed(h: string, m: string, t: string)
    ensures var s := h + m + t; |h| + |t| <= |s| && s[..|h|] == h && s[|s| - |t|..] == t
  {
    var s := h + m + t;
    assert s == h + (m + t);
  }

  /** Every rendering starts with its indentation and '<', and ends with a newline. */
  lemma RenderShape(e: XNode, level: nat)
    requires e.Elem?
    ensures var s := Render(e, level); |s| > level && s[..level] == Spaces(level) && s[level] == '<' && s[|s| - 1] == '\n'
  {
    var ws := Spaces(level);
    var (body, closed) := ChildrenOut(e.children, level);
    var c := Close(e.name, e.value, ws, closed);
    var s := Render(e, level);
    assert s == ws + ("<" + e.name + body + c);
    assert s[|s| - 1] == c[|c| - 1];
  }

  /** A child element's piece ends with its rendering, which is indented three spaces deeper than the parent. */
  lemma ChildIndent(c: XNode, level: nat, closed: bool)
    requires c.Elem?
    ensures var piece := ChildPiece(c, level, closed); var r := Render(c, level + 3);
      |piece| >= |r| && piece[|piece| - |r|..] == r && r[..level + 3] == Spaces(level + 3)
  {
    RenderShape(c, level + 3);
  }
}
