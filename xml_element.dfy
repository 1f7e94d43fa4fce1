// basic_xml_element_node: an element with a name, a value (its character
// data) and an ordered list of child nodes, which it reads from a stream,
// writes out as text and walks with a pre-order iterator.
//
// The element that the C++ code mutates is the class XmlElement; its
// children are values (XmlNodes.XNode) in a list the element owns. The C++
// copy differs on both counts: it shares the children's shared_ptrs, and
// the copied list cells keep a foreign owner, so clear and erase skip them.
// The reader is a recursive method over a shared CharStream, proved equal
// to the functional specification ElementSpec; the lemmas below it state
// what the reader accepts and what it builds.
module XmlElements {
  import opened Wrappers
  import opened Chars
  import opened StringUtil
  import opened StreamParsing
  import opened XmlNodes
  import XmlRender

  // ---------------------------------------------------------------------
  // Scanning the tag text
  // ---------------------------------------------------------------------

  predicate IsQuote(c: char) { c == '"' || c == '\'' }

  /** Index of the first quote character of t, or |t|. */
  function FindQuote(t: string): (k: nat)
    ensures k <= |t|
    ensures forall j :: 0 <= j < k ==> !IsQuote(t[j])
    ensures k < |t| ==> IsQuote(t[k])
  {
    if |t| == 0 then 0 else if IsQuote(t[0]) then 0 else 1 + FindQuote(t[1..])
  }

  /** The name loop's outcome: the name, where it stopped, and whether a '/' ended the element. */
  datatype NameScan = NameScan(name: string, used: nat, closed: bool)

  /**
   * The element name at the head of the tag text t (after the '<'):
   * characters up to the first whitespace, quotes dropped; a '/' first
   * ends the element then and there.
   */
  function ScanName(t: string): (r: NameScan)
    ensures r.used <= |t|
    ensures r.closed ==> r.used < |t| && t[r.used] == '/'
    ensures !r.closed ==> r.used == |t| || IsSpace(t[r.used])
  {
    if |t| == 0 then NameScan([], 0, false)
    else if t[0] == '/' then NameScan([], 0, true)
    else if IsQuote(t[0]) then
      var r := ScanName(t[1..]);
      NameScan(r.name, r.used + 1, r.closed)
    else if IsSpace(t[0]) then NameScan([], 0, false)
    else
      var r := ScanName(t[1..]);
      NameScan([t[0]] + r.name, r.used + 1, r.closed)
  }

  /** How the attribute loop ends: at a '/', at a malformed attribute, or at the end of the tag text. */
  datatype AttrOutcome = SelfClosed | Malformed | TagEnd

  datatype AttrScan = AttrScan(attrs: seq<AttributeNode>, outcome: AttrOutcome)

  /**
   * The attribute loop over the rest of the tag text, attributes in the
   * order they are read. Whitespace is skipped; an attribute is the text
   * up to '=', then a quote, then the value up to the next quote of either
   * kind. A value without its closing quote ends the scan.
   */
  function ScanAttrs(t: string): (r: AttrScan)
    decreases |t|
  {
    if |t| == 0 then AttrScan([], TagEnd)
    else if t[0] == '/' then AttrScan([], SelfClosed)
    else if IsSpace(t[0]) then ScanAttrs(t[1..])
    else
      match AttrAt(t)
      case None => AttrScan([], Malformed)
      case Some(one) =>
        if !one.quoted then AttrScan([one.attr], TagEnd)
        else
          var r := ScanAttrs(one.rest);
          AttrScan([one.attr] + r.attrs, r.outcome)
  }

  /** One attribute and the tag text after it; quoted is false when the value has no closing quote. */
  datatype OneAttr = OneAttr(attr: AttributeNode, quoted: bool, rest: string)

  /**
   * The attribute at the head of t: std::find for '=', the test for an
   * opening quote, std::find_if for the closing one. None when '=' or the
   * opening quote is missing (past the end the string's terminating NUL
   * is read, which is no quote).
   */
  function AttrAt(t: string): (r: Option<OneAttr>)
    ensures r.Some? ==> |r.value.rest| < |t|
  {
    var nend := Find(t, '=');
    if nend + 1 >= |t| || !IsQuote(t[nend + 1]) then None
    else
      var v := t[nend + 2..];
      var vend := FindQuote(v);
      Some(OneAttr(AttributeNode(t[..nend], v[..vend]), vend < |v|, if vend < |v| then v[vend + 1..] else []))
  }

  /** push_front of each attribute in turn onto the list base: the last one read comes first. */
  function PushFronts(attrs: seq<AttributeNode>, base: seq<XNode>): (r: seq<XNode>)
    ensures |r| == |attrs| + |base|
  {
    if attrs == [] then base else PushFronts(attrs[1..], [Attr(attrs[0])] + base)
  }

  /** linked_list::clear as written: it erases the head node and stops. */
  function Cleared(nodes: seq<XNode>): (r: seq<XNode>)
    ensures nodes != [] ==> r == nodes[1..]
    ensures nodes == [] ==> r == []
  {
    if nodes == [] then [] else nodes[1..]
  }

  // ---------------------------------------------------------------------
  // Specification of deserialize
  // ---------------------------------------------------------------------

  /** A parser just constructed over the stream: no delimiters, every switch off. */
  const Fresh := Config([], false, false, false, '\0')

  /**
   * `discard("<")` (up to the next '<', which is put back), then
   * `setdelims(">")` and `>> nxt`: the tag text from '<' up to the next
   * '>', which is consumed.
   */
  function ReadTag(cfg: Config, sv: SV): (r: (string, Config, SV))
    requires !cfg.matchAll && !cfg.keepDelim
    ensures Measure(r.2) <= Measure(sv)
    ensures !r.2.failed ==> Measure(r.2) < Measure(sv)
    ensures !r.1.matchAll && !r.1.keepDelim && r.1.skipWs == cfg.skipWs
  {
    var (cfg1, sv1) := DiscardStep(cfg, sv, StreamSizeMax, "<", true);
    var cfg2 := cfg1.(delims := ">");
    NextMatchShrinks(cfg2, sv1);
    NextMatchStep(cfg2, sv1)
  }

  /** `keepdelims(true) >> skipws >> setdelims("<") >> nxt`: the character data up to the next '<', left unread. */
  function TextRead(cfg: Config, sv: SV): (r: (string, Config, SV))
    ensures Measure(r.2) <= Measure(sv)
  {
    var c := cfg.(keepDelim := true, skipWs := true, delims := "<");
    NextMatchShrinks(c, sv);
    NextMatchStep(c, sv)
  }

  /**
   * After peek(4) saw "<!--": discard(4), then the comment body read in
   * match-all mode up to "-->", which is consumed.
   */
  function CommentRead(cfg: Config, sv: SV): (r: (string, Config, SV))
    ensures Measure(r.2) <= Measure(sv)
  {
    var (cfg1, sv1) := DiscardStep(cfg, sv, 4, "", true);
    var cfg2 := cfg1.(delims := "-->", keepDelim := false, skipWs := true, matchAll := true);
    NextMatchShrinks(cfg2, sv1);
    NextMatchStep(cfg2, sv1)
  }

  /**
   * What deserialize leaves in the element and the stream: the result,
   * the name, the value, the attributes in the order they were read, the
   * content nodes appended after them, and the stream.
   */
  datatype Parsed = Parsed(ok: bool, name: string, value: string, attrs: seq<AttributeNode>,
                           nodes: seq<XNode>, after: SV)
  {
    /** The element a fresh node holds afterwards. */
    function Node(): XNode { Elem(name, value, PushFronts(attrs, []) + nodes) }
  }

  /** A refusal before anything was built. */
  function Refused(sv: SV): Parsed { Parsed(false, "", "", [], [], sv) }

  /** The content loop's state when it ends. */
  datatype Content = Content(value: string, nodes: seq<XNode>, cfg: Config, after: SV)

  /** One round of the content loop before its child: the value, the nodes it appends, the parser and the stream. */
  datatype Round = Round(value: string, added: seq<XNode>, cfg: Config, after: SV)

  /**
   * deserialize on a stream in state sv. The tag text must hold at least
   * four characters and start with '<'; an end tag (`</`) or a comment
   * (`<!-`) is refused; a declaration (`<?`) is skipped and the next tag
   * is used without these checks.
   */
  function ElementSpec(sv: SV): (r: Parsed)
    ensures Measure(r.after) <= Measure(sv)
    ensures r.ok ==> Measure(r.after) < Measure(sv)
    decreases Measure(sv), 0
  {
    var (nxt, cfg1, sv1) := ReadTag(Fresh, sv);
    if sv1.failed || |nxt| < 4 then Refused(sv1)
    else if nxt[0] != '<' || nxt[1] == '/' || (nxt[1] == '!' && nxt[2] == '-') then Refused(sv1)
    else if nxt[1] != '?' then TagBody(cfg1, sv1, nxt[1..])
    else
      var (decl, cfg2, sv2) := ReadTag(cfg1, sv1);
      if sv2.failed then Parsed(true, "", "", [], [], sv2)
      else TagBody(cfg2, sv2, if |decl| >= 1 then decl[1..] else [])
  }

  /** The name loop, the attribute loop and the content loop over the tag text t. */
  function TagBody(cfg: Config, sv: SV, t: string): (r: Parsed)
    ensures Measure(r.after) <= Measure(sv)
    decreases Measure(sv), 4
  {
    var n := ScanName(t);
    if n.closed then Parsed(true, n.name, "", [], [], sv)
    else
      var a := ScanAttrs(t[n.used..]);
      match a.outcome
      case SelfClosed => Parsed(true, n.name, "", a.attrs, [], sv)
      case Malformed => Parsed(false, n.name, "", a.attrs, [], sv)
      case TagEnd =>
        var c := ContentLoop(cfg, sv, "", []);
        Parsed(true, n.name, c.value, a.attrs, c.nodes, c.after)
  }

  /**
   * The start of a round of the content loop: character data (a non-empty
   * run replaces the value), then, if the next four characters open a
   * comment, the comment.
   */
  function ContentRound(cfg: Config, sv: SV, value: string): (r: Round)
    ensures Measure(r.after) <= Measure(sv)
    ensures |r.added| <= 1
  {
    var (text, cfg1, sv1) := TextRead(cfg, sv);
    var value1 := if |text| > 0 then text else value;
    var (peeked, sv2) := PeekStep(sv1, 4);
    if peeked == "<!--" then
      var (text3, cfg3, sv3) := CommentRead(cfg1, sv2);
      Round(value1, [TextChild(TextNode(text3))], cfg3, sv3)
    else Round(value1, [], cfg1, sv2)
  }

  /** A round of the content loop and the child element read after it. */
  function ContentStep(cfg: Config, sv: SV, value: string): (r: (Round, Parsed))
    ensures Measure(r.0.after) <= Measure(sv)
    ensures Measure(r.1.after) <= Measure(sv)
    ensures r.1.ok ==> Measure(r.1.after) < Measure(sv)
    decreases Measure(sv), 1
  {
    var p := ContentRound(cfg, sv, value);
    (p, ElementSpec(p.after))
  }

  /**
   * The content loop, while the stream is good: a round, then a child
   * element; the first child that is refused ends the loop.
   */
  function ContentLoop(cfg: Config, sv: SV, value: string, nodes: seq<XNode>): (r: Content)
    ensures Measure(r.after) <= Measure(sv)
    decreases Measure(sv), 3
  {
    if sv.failed then Content(value, nodes, cfg, sv) else ContentPass(cfg, sv, value, nodes)
  }

  /** One pass of the content loop on a good stream: stop at a refused child, else go on after it. */
  function ContentPass(cfg: Config, sv: SV, value: string, nodes: seq<XNode>): (r: Content)
    ensures Measure(r.after) <= Measure(sv)
    decreases Measure(sv), 2
  {
    var (p, child) := ContentStep(cfg, sv, value);
    if !child.ok then Content(p.value, nodes + p.added, p.cfg, child.after)
    else ContentLoop(p.cfg, child.after, p.value, nodes + p.added + [child.Node()])
  }

  // ---------------------------------------------------------------------
  // The element
  // ---------------------------------------------------------------------

  /** basic_xml_element_node: name_, value_ and child_nodes_. */
  class XmlElement {
    var name: string
    var value: string
    var children: seq<XNode>

    /** The element as a node of a tree. */
    function Tree(): (n: XNode)
      reads this
      ensures n.Elem? && n.name == name && n.value == value && n.children == children
    {
      Elem(name, value, children)
    }

    /** The default constructor: empty name and value, no children. */
    constructor ()
      ensures name == "" && value == "" && children == []
    {
      name := "";
      value := "";
      children := [];
    }

    /** basic_xml_element_node(name): the given name, an empty value, no children. */
    constructor Named(n: string)
      ensures name == n && value == "" && children == []
    {
      name := n;
      value := "";
      children := [];
    }

    /** The copy constructor: the same name, value and children. */
    constructor Copy(e: XmlElement)
      ensures name == e.name && value == e.value && children == e.children
    {
      name := e.name;
      value := e.value;
      children := e.children;
    }

    /** get_element_name / get_name: the name to_string writes right after '<'. */
    function GetName(): (n: string)
      reads this
      ensures n == Tree().name
      ensures var s := XmlRender.Render(Tree(), 0); |n| + 1 <= |s| && s[..|n| + 1] == "<" + n
    {
      XmlRender.RenderEnds(Tree(), 0);
      name
    }

    /** get_element_value / get_value: a non-empty value is what to_string writes before the end tag. */
    function GetValue(): (v: string)
      reads this
      ensures v == Tree().value
      ensures v != "" ==> var s := XmlRender.Render(Tree(), 0); var t := ">" + v + "</" + name + ">\n";
        |t| <= |s| && s[|s| - |t|..] == t
    {
      XmlRender.RenderEnds(Tree(), 0);
      value
    }

    /** set_element_name: replaces the name only. */
    method SetName(s: string)
      modifies this`name
      ensures name == s
    {
      name := s;
    }

    /** set_element_value: replaces the value only. */
    method SetValue(s: string)
      modifies this`value
      ensures value == s
    {
      value := s;
    }

    /** add_attribute(a): push_front, so the newest attribute comes first. */
    method AddAttribute(a: AttributeNode)
      modifies this`children
      ensures children == [Attr(a)] + old(children)
    {
      children := [Attr(a)] + children;
    }

    /** add_attribute(name, val). */
    method AddAttributeNamed(n: string, v: string)
      modifies this`children
      ensures children == [Attr(AttributeNode(n, v))] + old(children)
    {
      AddAttribute(AttributeNode(n, v));
    }

    /** add_text: push_back. */
    method AddText(t: TextNode)
      modifies this`children
      ensures children == old(children) + [TextChild(t)]
    {
      children := children + [TextChild(t)];
    }

    /** add_element(e): push_back of a copy of e. */
    method AddElement(e: XmlElement)
      modifies this`children
      ensures children == old(children) + [old(e.Tree())]
    {
      children := children + [e.Tree()];
    }

    /** add_element(name): push_back of a new element with that name. */
    method AddElementNamed(n: string)
      modifies this`children
      ensures children == old(children) + [Elem(n, "", [])]
    {
      var e := new XmlElement.Named(n);
      AddElement(e);
    }

    /** get_child_elements: copies of the element children, in list order. */
    method GetChildElements() returns (el: seq<XNode>)
      ensures el == ChildElements(children)
    {
      el := [];
      var i := 0;
      while i < |children|
        invariant i <= |children| && el == ChildElements(children[..i])
      {
        if children[i].Elem? {
          el := el + [children[i]];
        }
        assert children[..i + 1][..i] == children[..i];
        i := i + 1;
      }
      assert children[..i] == children;
    }

    /** to_string: to_string_recur from level 0 into an empty string. */
    method ToString() returns (s: string)
      ensures s == XmlRender.Render(Tree(), 0)
    {
      s := XmlRender.ToStringRecur(Tree(), 0, "");
      assert "" + XmlRender.Render(Tree(), 0) == XmlRender.Render(Tree(), 0);
    }

    /** deserialize: reads one element from the stream into this one. */
    method Deserialize(input: CharStream) returns (ok: bool)
      requires input.Valid()
      modifies this, input
      ensures input.Valid()
      ensures var r := ElementSpec(old(input.View()));
        && ok == r.ok && name == r.name && value == r.value && input.View() == r.after
        && children == PushFronts(r.attrs, Cleared(old(children))) + r.nodes
      decreases Measure(input.View()), 0
    {
      name := "";
      value := "";
      children := Cleared(children);
      var parser := new StreamParser(input);
      parser.NoSkipWs();
      var nxt := ReadTagText(parser);
      if !input.Good() || |nxt| < 4 {
        return false;
      }
      if nxt[0] != '<' || nxt[1] == '/' || (nxt[1] == '!' && nxt[2] == '-') {
        return false;
      }
      var t := nxt[1..];
      if nxt[1] == '?' {
        nxt := ReadTagText(parser);
        if !input.Good() {
          // both loops over the tag text and the content loop test the stream first
          return true;
        }
        t := if |nxt| >= 1 then nxt[1..] else [];
      }
      ok := ReadTagBody(parser, t);
    }

    /** The name loop, the attribute loop and, after a tag that stays open, the content loop. */
    method ReadTagBody(parser: StreamParser, t: string) returns (ok: bool)
      requires parser.stream.Valid() && name == "" && value == ""
      modifies this`name, this`value, this`children, parser, parser.stream
      ensures parser.stream.Valid()
      ensures var r := TagBody(old(parser.Settings()), old(parser.stream.View()), t);
        && ok == r.ok && name == r.name && value == r.value && parser.stream.View() == r.after
        && children == PushFronts(r.attrs, old(children)) + r.nodes
      decreases Measure(parser.stream.View()), 5
    {
      ghost var c0 := children;
      var used, closed := ReadName(t);
      if closed {
        assert children == PushFronts([], c0) + [];
        return true;
      }
      var outcome := ReadAttributes(t[used..]);
      if outcome == SelfClosed {
        assert children == children + [];
        return true;
      } else if outcome == Malformed {
        assert children == children + [];
        return false;
      }
      ReadContent(parser);
      return true;
    }

    /** The name loop: pushes the name's characters onto name_. */
    method ReadName(t: string) returns (used: nat, closed: bool)
      modifies this`name
      ensures var n := ScanName(t); name == old(name) + n.name && used == n.used && closed == n.closed
    {
      ghost var acc: string := [];
      var i := 0;
      closed := false;
      assert t[0..] == t && acc + ScanName(t).name == ScanName(t).name;
      while i < |t|
        invariant i <= |t| && name == old(name) + acc
        invariant NameFrom(t, acc, i)
      {
        if t[i] == '/' {
          NameAtSlash(t, acc, i);
          closed := true;
          break;
        } else if IsQuote(t[i]) {
          NameAtQuote(t, acc, i);
          i := i + 1;
          continue;
        } else if IsSpace(t[i]) {
          NameAtSpace(t, acc, i);
          break;
        }
        NameAtChar(t, acc, i);
        name := name + [t[i]];
        acc := acc + [t[i]];
        i := i + 1;
      }
      if i == |t| {
        NameAtEnd(t, acc, i);
      }
      used := i;
    }

    /** The attribute loop: each attribute read is pushed to the front of the children. */
    method ReadAttributes(t: string) returns (outcome: AttrOutcome)
      modifies this`children
      ensures var a := ScanAttrs(t); outcome == a.outcome && children == PushFronts(a.attrs, old(children))
    {
      ghost var acc: seq<AttributeNode> := [];
      ghost var final := PushFronts(ScanAttrs(t).attrs, children);
      var u := t;
      outcome := TagEnd;
      assert t == u && acc + ScanAttrs(u).attrs == ScanAttrs(t).attrs;
      while |u| > 0
        invariant AttrsFrom(t, acc, u)
        invariant PushFronts(ScanAttrs(u).attrs, children) == final
        decreases |u|
      {
        if u[0] == '/' {
          AttrsAtSlash(t, acc, u);
          outcome := SelfClosed;
          return;
        }
        if IsSpace(u[0]) {
          AttrsAtSpace(t, acc, u);
          u := u[1..];
          continue;
        }
        var one := AttrAt(u);
        if one.None? {
          AttrsAtMalformed(t, acc, u);
          outcome := Malformed;
          return;
        }
        var a := one.value.attr;
        AttrsAtAttribute(t, acc, u, one.value);
        PushFrontsStep(a, ScanAttrs(u).attrs, children);
        children := [Attr(a)] + children;
        acc := acc + [a];
        if !one.value.quoted {
          return;
        }
        u := one.value.rest;
      }
      AttrsAtEnd(t, acc, u);
    }

    /** The content loop: character data, comments and child elements until a child is refused. */
    method ReadContent(parser: StreamParser)
      requires parser.stream.Valid()
      modifies this`value, this`children, parser, parser.stream
      ensures parser.stream.Valid()
      ensures var r := ContentLoop(old(parser.Settings()), old(parser.stream.View()), old(value), []);
        && value == r.value && children == old(children) + r.nodes
        && parser.Settings() == r.cfg && parser.stream.View() == r.after
      decreases Measure(parser.stream.View()), 3
    {
      ghost var r0 := ContentLoop(parser.Settings(), parser.stream.View(), value, []);
      ghost var nodes: seq<XNode> := [];
      ghost var c0 := children;
      while parser.stream.Good()
        invariant parser.stream.Valid()
        invariant children == c0 + nodes
        invariant ContentLoop(parser.Settings(), parser.stream.View(), value, nodes) == r0
        invariant Measure(parser.stream.View()) <= Measure(old(parser.stream.View()))
        decreases Measure(parser.stream.View())
      {
        var ok;
        ghost var added;
        ok, added := ReadContentStep(parser, nodes);
        nodes := nodes + added;
        if !ok {
          return;
        }
      }
      ContentLoopEnds(parser.Settings(), parser.stream.View(), value, nodes);
    }

    /** One pass of the content loop's body: a round, then a child element, appended when it is accepted. */
    method ReadContentStep(parser: StreamParser, ghost nodes: seq<XNode>) returns (ok: bool, ghost added: seq<XNode>)
      requires parser.stream.Valid() && !parser.stream.View().failed
      modifies this`value, this`children, parser, parser.stream
      ensures parser.stream.Valid()
      ensures children == old(children) + added
      ensures var r := ContentLoop(old(parser.Settings()), old(parser.stream.View()), old(value), nodes);
        if ok then
          && r == ContentLoop(parser.Settings(), parser.stream.View(), value, nodes + added)
          && Measure(parser.stream.View()) < Measure(old(parser.stream.View()))
        else r == Content(value, nodes + added, parser.Settings(), parser.stream.View())
      decreases Measure(parser.stream.View()), 2
    {
      ghost var s := ContentStep(parser.Settings(), parser.stream.View(), value);
      ContentLoopUnfolds(parser.Settings(), parser.stream.View(), value, nodes);
      ReadRound(parser);
      var e := new XmlElement();
      ok := e.Deserialize(parser.stream);
      if ok {
        assert e.Tree() == s.1.Node();
        children := children + [e.Tree()];
        added := s.0.added + [s.1.Node()];
        assert nodes + added == nodes + s.0.added + [s.1.Node()];
      } else {
        added := s.0.added;
      }
    }

    /** A round of the content loop: the character data, then a comment if one follows. */
    method ReadRound(parser: StreamParser)
      requires parser.stream.Valid()
      modifies this`value, this`children, parser, parser.stream
      ensures parser.stream.Valid()
      ensures var r := ContentRound(old(parser.Settings()), old(parser.stream.View()), old(value));
        && value == r.value && children == old(children) + r.added
        && parser.Settings() == r.cfg && parser.stream.View() == r.after
    {
      ghost var cfgA := parser.Settings();
      ghost var svA := parser.stream.View();
      ghost var valueA := value;
      var text := ReadCharData(parser);
      if |text| > 0 {
        value := text;
      }
      ghost var cfg1 := parser.Settings();
      var peeked := parser.Peek(4);
      ghost var sv2 := parser.stream.View();
      if peeked == "<!--" {
        var comment := ReadComment(parser);
        children := children + [TextChild(TextNode(comment))];
      } else {
        assert children == children + [];
      }
    }
  }

  /** `keepdelims(true) >> skipws >> setdelims("<") >> nxt` on the parser. */
  method ReadCharData(parser: StreamParser) returns (text: string)
    requires parser.stream.Valid()
    modifies parser, parser.stream
    ensures parser.stream.Valid()
    ensures (text, parser.Settings(), parser.stream.View()) == TextRead(old(parser.Settings()), old(parser.stream.View()))
  {
    parser.SetKeepDelims(true);
    parser.SkipWs();
    parser.SetDelims("<");
    text := parser.NextMatch();
  }

  /** The comment branch of the content loop on the parser. */
  method ReadComment(parser: StreamParser) returns (text: string)
    requires parser.stream.Valid()
    modifies parser, parser.stream
    ensures parser.stream.Valid()
    ensures (text, parser.Settings(), parser.stream.View()) == CommentRead(old(parser.Settings()), old(parser.stream.View()))
  {
    ghost var cfg0 := parser.Settings();
    ghost var sv0 := parser.stream.View();
    parser.Discard(4, "", true);
    ghost var cfgD := parser.Settings();
    ghost var svD := parser.stream.View();
    parser.SetDelims("-->");
    parser.SetKeepDelims(false);
    parser.SkipWs();
    parser.SetMatchAll(true);
    text := parser.NextMatch();
    CommentReadIs(cfg0, sv0, cfgD, svD, text, parser.Settings(), parser.stream.View());
  }

  /** CommentRead read off the discard and the match that make it up. */
  lemma CommentReadIs(cfg: Config, sv: SV, cfgD: Config, svD: SV, text: string, cfg3: Config, sv3: SV)
    requires (cfgD, svD) == DiscardStep(cfg, sv, 4, "", true)
    requires (text, cfg3, sv3) == NextMatchStep(cfgD.(delims := "-->", keepDelim := false, skipWs := true, matchAll := true), svD)
    ensures (text, cfg3, sv3) == CommentRead(cfg, sv)
  {
    var d := DiscardStep(cfg, sv, 4, "", true);
    assert d.0 == cfgD && d.1 == svD;
  }

  /** The content loop ends once the stream has failed. */
  lemma ContentLoopEnds(cfg: Config, sv: SV, value: string, nodes: seq<XNode>)
    requires sv.failed
    ensures ContentLoop(cfg, sv, value, nodes) == Content(value, nodes, cfg, sv)
  {
  }

  /** A pass of the content loop on a good stream: its step, then stop or go on. */
  lemma ContentLoopUnfolds(cfg: Config, sv: SV, value: string, nodes: seq<XNode>)
    requires !sv.failed
    ensures var s := ContentStep(cfg, sv, value);
      ContentLoop(cfg, sv, value, nodes) ==
        if !s.1.ok then Content(s.0.value, nodes + s.0.added, s.0.cfg, s.1.after)
        else ContentLoop(s.0.cfg, s.1.after, s.0.value, nodes + s.0.added + [s.1.Node()])
  {
  }

  /** The two tag reads of deserialize, on the parser's shared stream. */
  method ReadTagText(parser: StreamParser) returns (nxt: string)
    requires parser.stream.Valid() && !parser.matchAll && !parser.keepDelim
    modifies parser, parser.stream
    ensures parser.stream.Valid()
    ensures (nxt, parser.Settings(), parser.stream.View()) == ReadTag(old(parser.Settings()), old(parser.stream.View()))
  {
    parser.DiscardThrough("<", true);
    parser.SetDelims(">");
    nxt := parser.NextMatch();
  }

  /** The name loop's invariant: acc has been read from t[..i], and with the scan of the rest it makes the scan of t. */
  predicate NameFrom(t: string, acc: string, i: nat)
    requires i <= |t|
  {
    var r := ScanName(t[i..]);
    ScanName(t) == NameScan(acc + r.name, i + r.used, r.closed)
  }

  lemma NameAtSlash(t: string, acc: string, i: nat)
    requires i < |t| && NameFrom(t, acc, i) && t[i] == '/'
    ensures ScanName(t) == NameScan(acc, i, true)
  {
    assert acc + [] == acc;
  }

  lemma NameAtQuote(t: string, acc: string, i: nat)
    requires i < |t| && NameFrom(t, acc, i) && t[i] != '/' && IsQuote(t[i])
    ensures NameFrom(t, acc, i + 1)
  {
    assert t[i..][1..] == t[i + 1..];
  }

  lemma NameAtSpace(t: string, acc: string, i: nat)
    requires i < |t| && NameFrom(t, acc, i) && t[i] != '/' && !IsQuote(t[i]) && IsSpace(t[i])
    ensures ScanName(t) == NameScan(acc, i, false)
  {
    assert acc + [] == acc;
  }

  lemma NameAtChar(t: string, acc: string, i: nat)
    requires i < |t| && NameFrom(t, acc, i) && t[i] != '/' && !IsQuote(t[i]) && !IsSpace(t[i])
    ensures NameFrom(t, acc + [t[i]], i + 1)
  {
    var r := ScanName(t[i + 1..]);
    assert t[i..][1..] == t[i + 1..];
    assert ScanName(t[i..]) == NameScan([t[i]] + r.name, r.used + 1, r.closed);
    assert acc + ([t[i]] + r.name) == acc + [t[i]] + r.name;
  }

  lemma NameAtEnd(t: string, acc: string, i: nat)
    requires i == |t| && NameFrom(t, acc, i)
    ensures ScanName(t) == NameScan(acc, i, false)
  {
    assert t[i..] == [];
    assert acc + [] == acc;
  }

  /** The attribute loop's invariant: acc has been read, u is left, and together they make the scan of t. */
  predicate AttrsFrom(t: string, acc: seq<AttributeNode>, u: string)
  {
    ScanAttrs(t) == AttrScan(acc + ScanAttrs(u).attrs, ScanAttrs(u).outcome)
  }

  lemma AttrsAtSlash(t: string, acc: seq<AttributeNode>, u: string)
    requires AttrsFrom(t, acc, u) && |u| > 0 && u[0] == '/'
    ensures ScanAttrs(u).attrs == [] && ScanAttrs(t) == AttrScan(acc, SelfClosed)
  {
    assert acc + [] == acc;
  }

  lemma AttrsAtSpace(t: string, acc: seq<AttributeNode>, u: string)
    requires AttrsFrom(t, acc, u) && |u| > 0 && u[0] != '/' && IsSpace(u[0])
    ensures AttrsFrom(t, acc, u[1..])
  {
  }

  lemma AttrsAtMalformed(t: string, acc: seq<AttributeNode>, u: string)
    requires AttrsFrom(t, acc, u) && |u| > 0 && u[0] != '/' && !IsSpace(u[0]) && AttrAt(u).None?
    ensures ScanAttrs(u).attrs == [] && ScanAttrs(t) == AttrScan(acc, Malformed)
  {
    assert acc + [] == acc;
  }

  lemma AttrsAtAttribute(t: string, acc: seq<AttributeNode>, u: string, one: OneAttr)
    requires AttrsFrom(t, acc, u) && |u| > 0 && u[0] != '/' && !IsSpace(u[0]) && AttrAt(u) == Some(one)
    ensures |ScanAttrs(u).attrs| > 0 && ScanAttrs(u).attrs[0] == one.attr
    ensures ScanAttrs(u).attrs[1..] == if one.quoted then ScanAttrs(one.rest).attrs else []
    ensures !one.quoted ==> ScanAttrs(t) == AttrScan(acc + [one.attr], TagEnd)
    ensures one.quoted ==> AttrsFrom(t, acc + [one.attr], one.rest)
  {
    var r := ScanAttrs(one.rest);
    if one.quoted {
      assert ScanAttrs(u) == AttrScan([one.attr] + r.attrs, r.outcome);
      assert acc + ([one.attr] + r.attrs) == (acc + [one.attr]) + r.attrs;
    } else {
      assert ScanAttrs(u) == AttrScan([one.attr], TagEnd);
      assert [one.attr][1..] == [];
    }
  }

  lemma AttrsAtEnd(t: string, acc: seq<AttributeNode>, u: string)
    requires AttrsFrom(t, acc, u) && |u| == 0
    ensures ScanAttrs(u).attrs == [] && ScanAttrs(t) == AttrScan(acc, TagEnd)
  {
    assert acc + [] == acc;
  }

  /** Pushing the first attribute, then the rest. */
  lemma PushFrontsStep(a: AttributeNode, attrs: seq<AttributeNode>, base: seq<XNode>)
    requires |attrs| > 0 && attrs[0] == a
    ensures PushFronts(attrs, base) == PushFronts(attrs[1..], [Attr(a)] + base)
  {
  }

  // ---------------------------------------------------------------------
  // The child list
  // ---------------------------------------------------------------------

  /** The element children of cs, in order. */
  function ChildElements(cs: seq<XNode>): seq<XNode>
  {
    if cs == [] then []
    else ChildElements(cs[..|cs| - 1]) + (if cs[|cs| - 1].Elem? then [cs[|cs| - 1]] else [])
  }

  /** get_child_elements keeps exactly the elements of the list. */
  lemma {:induction false} ChildElementsMembers(cs: seq<XNode>, x: XNode)
    ensures x in ChildElements(cs) <==> x in cs && x.Elem?
  {
    if cs != [] {
      ChildElementsMembers(cs[..|cs| - 1], x);
      assert cs == cs[..|cs| - 1] + [cs[|cs| - 1]];
    }
  }

  /** get_child_elements keeps the list order: the filter distributes over concatenation. */
  lemma {:induction false} ChildElementsConcat(a: seq<XNode>, b: seq<XNode>)
    ensures ChildElements(a + b) == ChildElements(a) + ChildElements(b)
    decreases |b|
  {
    if b == [] {
      assert a + b == a;
    } else {
      var b' := b[..|b| - 1];
      assert (a + b)[..|a + b| - 1] == a + b';
      ChildElementsConcat(a, b');
      ConcatAssoc(ChildElements(a), ChildElements(b'), if b[|b| - 1].Elem? then [b[|b| - 1]] else []);
    }
  }

  /** The attributes, each as a child node, newest first: what successive push_fronts build. */
  function ReversedAttrs(attrs: seq<AttributeNode>): (r: seq<XNode>)
    ensures |r| == |attrs|
  {
    if attrs == [] then [] else ReversedAttrs(attrs[1..]) + [Attr(attrs[0])]
  }

  /** ReversedAttrs holds the j-th attribute from the end at position j. */
  lemma {:induction false} ReversedAttrsAt(attrs: seq<AttributeNode>, j: nat)
    requires j < |attrs|
    ensures ReversedAttrs(attrs)[j] == Attr(attrs[|attrs| - 1 - j])
  {
    if j < |attrs| - 1 {
      ReversedAttrsAt(attrs[1..], j);
    }
  }

  /** Pushing attributes to the front of a list puts them, in reverse order, before it. */
  lemma {:induction false} PushFrontsReverses(attrs: seq<AttributeNode>, base: seq<XNode>)
    ensures PushFronts(attrs, base) == ReversedAttrs(attrs) + base
  {
    if attrs != [] {
      PushFrontsReverses(attrs[1..], [Attr(attrs[0])] + base);
      ConcatAssoc(ReversedAttrs(attrs[1..]), [Attr(attrs[0])], base);
    }
  }

  /** Every attribute comes before every text and element child. */
  predicate AttrsFirst(cs: seq<XNode>)
  {
    forall i, j :: 0 <= i < j < |cs| && cs[j].Attr? ==> cs[i].Attr?
  }

  /** add_attribute keeps the attributes first. */
  lemma AddAttributeKeepsOrder(cs: seq<XNode>, a: AttributeNode)
    requires AttrsFirst(cs)
    ensures AttrsFirst([Attr(a)] + cs)
  {
    var r := [Attr(a)] + cs;
    forall i, j | 0 <= i < j < |r| && r[j].Attr?
      ensures r[i].Attr?
    {
      if i > 0 {
        assert r[i] == cs[i - 1] && r[j] == cs[j - 1];
      }
    }
  }

  /** add_text and add_element keep the attributes first. */
  lemma AppendKeepsOrder(cs: seq<XNode>, x: XNode)
    requires AttrsFirst(cs) && !x.Attr?
    ensures AttrsFirst(cs + [x])
  {
  }

  /**
   * An element read into a fresh node holds its attributes first, newest
   * first, then the content nodes: the text runs that were comments and
   * the child elements, in document order.
   */
  lemma DeserializedChildren(sv: SV)
    ensures var r := ElementSpec(sv); var cs := PushFronts(r.attrs, []) + r.nodes;
      |cs| == |r.attrs| + |r.nodes| &&
      (forall j :: 0 <= j < |r.attrs| ==> cs[j] == Attr(r.attrs[|r.attrs| - 1 - j])) &&
      AttrsFirst(cs)
  {
    var r := ElementSpec(sv);
    PushFrontsReverses(r.attrs, []);
    assert PushFronts(r.attrs, []) == ReversedAttrs(r.attrs);
    var cs := ReversedAttrs(r.attrs) + r.nodes;
    forall j | 0 <= j < |r.attrs|
      ensures cs[j] == Attr(r.attrs[|r.attrs| - 1 - j]) && ReversedAttrs(r.attrs)[j].Attr?
    {
      ReversedAttrsAt(r.attrs, j);
    }
    ElementNodesNoAttrs(sv);
    AttrsThenOthers(ReversedAttrs(r.attrs), r.nodes);
  }

  /** Attributes followed by nodes none of which is an attribute. */
  lemma AttrsThenOthers(a: seq<XNode>, b: seq<XNode>)
    requires forall i :: 0 <= i < |a| ==> a[i].Attr?
    requires NoAttrs(b)
    ensures AttrsFirst(a + b)
  {
  }

  /** Whether no node of cs is an attribute. */
  predicate NoAttrs(cs: seq<XNode>)
  {
    forall i :: 0 <= i < |cs| ==> !cs[i].Attr?
  }

  /** deserialize appends only text and element nodes after the attributes. */
  lemma ElementNodesNoAttrs(sv: SV)
    ensures NoAttrs(ElementSpec(sv).nodes)
    decreases Measure(sv), 0
  {
    var (nxt, cfg1, sv1) := ReadTag(Fresh, sv);
    if sv1.failed || |nxt| < 4 {
    } else if nxt[0] != '<' || nxt[1] == '/' || (nxt[1] == '!' && nxt[2] == '-') {
    } else if nxt[1] != '?' {
      TagBodyNoAttrs(cfg1, sv1, nxt[1..]);
    } else {
      var (decl, cfg2, sv2) := ReadTag(cfg1, sv1);
      if !sv2.failed {
        TagBodyNoAttrs(cfg2, sv2, if |decl| >= 1 then decl[1..] else []);
      }
    }
  }

  /** The tag body's content nodes are text and elements. */
  lemma TagBodyNoAttrs(cfg: Config, sv: SV, t: string)
    ensures NoAttrs(TagBody(cfg, sv, t).nodes)
    decreases Measure(sv), 4
  {
    var n := ScanName(t);
    if !n.closed && ScanAttrs(t[n.used..]).outcome == TagEnd {
      ContentLoopNoAttrs(cfg, sv, "", []);
    }
  }

  /** The content loop appends only text and elements. */
  lemma ContentLoopNoAttrs(cfg: Config, sv: SV, value: string, nodes: seq<XNode>)
    requires NoAttrs(nodes)
    ensures NoAttrs(ContentLoop(cfg, sv, value, nodes).nodes)
    decreases Measure(sv), 3
  {
    if !sv.failed {
      ContentPassNoAttrs(cfg, sv, value, nodes);
    }
  }

  /** One pass: a comment becomes a text node, a child becomes an element node. */
  lemma ContentPassNoAttrs(cfg: Config, sv: SV, value: string, nodes: seq<XNode>)
    requires NoAttrs(nodes)
    ensures NoAttrs(ContentPass(cfg, sv, value, nodes).nodes)
    decreases Measure(sv), 2
  {
    var (p, child) := ContentStep(cfg, sv, value);
    assert NoAttrs(p.added);
    if child.ok {
      ContentLoopNoAttrs(p.cfg, child.after, p.value, nodes + p.added + [child.Node()]);
    }
  }

  // ---------------------------------------------------------------------
  // What the reader accepts
  // ---------------------------------------------------------------------

  /** The first delimiter of p + [c] + rest is c when p holds none. */
  lemma {:induction false} FirstInAfter(p: string, c: char, rest: string, delims: seq<char>)
    requires forall j :: 0 <= j < |p| ==> p[j] !in delims
    requires c in delims
    ensures FirstIn(p + [c] + rest, delims) == |p|
  {
    if p != [] {
      assert (p + [c] + rest)[1..] == p[1..] + [c] + rest;
      FirstInAfter(p[1..], c, rest, delims);
    }
  }

  /**
   * The two tag reads on "<" + name + ">" + rest, with whitespace kept:
   * the tag text is "<" + name, and reading resumes after the '>'.
   */
  lemma ReadTagOf(cfg: Config, name: string, rest: string)
    requires !cfg.matchAll && !cfg.keepDelim && !cfg.skipWs
    requires '>' !in name && |name| + |rest| + 2 < StreamSizeMax
    ensures ReadTag(cfg, SV("<" + name + ">" + rest, false)) ==
      ("<" + name, cfg.(delims := ">", lastDelim := '>'), SV(rest, false))
  {
    var s := "<" + name + ">" + rest;
    assert FirstIn(s, "<") == 0;
    var (cfg1, sv1) := DiscardStep(cfg, SV(s, false), StreamSizeMax, "<", true);
    assert sv1 == SV(s, false) && cfg1 == cfg.(delims := "<", lastDelim := '<');
    var cfg2 := cfg1.(delims := ">");
    FirstInAfter("<" + name, '>', rest, ">");
    assert s == ("<" + name) + ['>'] + rest;
    MatchAnyClosedForm(cfg2, s);
    assert s[..|name| + 1] == "<" + name;
    assert s[|name| + 2..] == rest;
  }

  /** The settings after a tag read from a fresh parser. */
  const AfterTag := Fresh.(delims := ">", lastDelim := '>')

  /** A tag text shorter than four characters is refused: `<a>` and `<b/>` are not read. */
  lemma ShortTagRefused(name: string, rest: string)
    requires '>' !in name && |name| < 3 && |rest| < StreamSizeMax / 2
    ensures !ElementSpec(SV("<" + name + ">" + rest, false)).ok
  {
    ReadTagOf(Fresh, name, rest);
  }

  /** An end tag is refused without building anything: this is how a parent's content loop ends. */
  lemma EndTagRefused(name: string, rest: string)
    requires '>' !in name && |name| + |rest| < StreamSizeMax / 2
    ensures ElementSpec(SV("</" + name + ">" + rest, false)) == Refused(SV(rest, false))
  {
    ReadTagOf(Fresh, "/" + name, rest);
    assert "</" + name + ">" + rest == "<" + ("/" + name) + ">" + rest;
  }

  /** A tag opening with "<!-", a comment, is refused the same way. */
  lemma CommentTagRefused(body: string, rest: string)
    requires '>' !in body && |body| + |rest| < StreamSizeMax / 2
    ensures ElementSpec(SV("<!-" + body + ">" + rest, false)) == Refused(SV(rest, false))
  {
    ReadTagOf(Fresh, "!-" + body, rest);
    assert "<!-" + body + ">" + rest == "<" + ("!-" + body) + ">" + rest;
  }

  /** An element's own start tag: name of at least three characters, not an end tag, comment or declaration. */
  predicate PlainTag(name: string)
  {
    |name| >= 3 && '>' !in name && name[0] != '/' && name[0] != '?' && !(name[0] == '!' && name[1] == '-')
  }

  /** A start tag is read by the name, attribute and content loops over the text after '<'. */
  lemma StartTagRead(name: string, rest: string)
    requires PlainTag(name) && |name| + |rest| < StreamSizeMax / 2
    ensures ElementSpec(SV("<" + name + ">" + rest, false)) == TagBody(AfterTag, SV(rest, false), name)
  {
    ReadTagOf(Fresh, name, rest);
    assert ("<" + name)[1..] == name;
  }

  /** A leading declaration `<?...?>` is skipped: the element after it is read as if it came first. */
  lemma DeclarationSkipped(decl: string, name: string, rest: string)
    requires '>' !in decl && |decl| >= 2
    requires PlainTag(name) && |decl| + |name| + |rest| < StreamSizeMax / 4
    ensures ElementSpec(SV("<?" + decl + ">" + ("<" + name + ">" + rest), false)) ==
      ElementSpec(SV("<" + name + ">" + rest, false))
  {
    var tail := "<" + name + ">" + rest;
    var s := "<?" + decl + ">" + tail;
    ReadTagOf(Fresh, "?" + decl, tail);
    assert s == "<" + ("?" + decl) + ">" + tail;
    ReadTagOf(AfterTag, name, rest);
    assert AfterTag.(delims := ">", lastDelim := '>') == AfterTag;
    ElementAfterDeclaration(SV(s, false), "<" + ("?" + decl), SV(tail, false), "<" + name, SV(rest, false));
    assert ("<" + name)[1..] == name;
    StartTagRead(name, rest);
  }

  /** deserialize when the first tag is a declaration: the tag read after it is used unchecked. */
  lemma ElementAfterDeclaration(sv: SV, nxt: string, sv1: SV, decl: string, sv2: SV)
    requires ReadTag(Fresh, sv) == (nxt, AfterTag, sv1) && !sv1.failed
    requires |nxt| >= 4 && nxt[0] == '<' && nxt[1] == '?'
    requires ReadTag(AfterTag, sv1) == (decl, AfterTag, sv2) && !sv2.failed && |decl| >= 1
    ensures ElementSpec(sv) == TagBody(AfterTag, sv2, decl[1..])
  {
  }

  /** The settings the content loop's text read leaves when it stops at a '<'. */
  function TextCfg(cfg: Config): Config
  {
    cfg.(keepDelim := true, skipWs := true, delims := "<", lastDelim := '<')
  }

  /** At a '<' the text read yields nothing and leaves the '<' unread. */
  lemma TextReadAtTag(cfg: Config, u: string)
    requires !cfg.matchAll
    ensures TextRead(cfg, SV("<" + u, false)) == ("", TextCfg(cfg), SV("<" + u, false))
  {
    var c := cfg.(keepDelim := true, skipWs := true, delims := "<");
    assert FirstIn("<" + u, "<") == 0;
    MatchAnyClosedForm(c, "<" + u);
  }

  /**
   * An end tag stops the content loop whatever its name: the name is never
   * compared with the element's own, the value and nodes stay as they are,
   * and reading resumes after the '>'.
   */
  lemma EndTagEndsContent(cfg: Config, n: string, rest: string, value: string, nodes: seq<XNode>)
    requires !cfg.matchAll && '>' !in n && 1 <= |n| && |n| + |rest| < StreamSizeMax / 4
    ensures ContentLoop(cfg, SV("</" + n + ">" + rest, false), value, nodes) == Content(value, nodes, TextCfg(cfg), SV(rest, false))
  {
    var u := "/" + n + ">" + rest;
    var sv := SV("</" + n + ">" + rest, false);
    assert "</" + n + ">" + rest == "<" + u;
    TextReadAtTag(cfg, u);
    assert PeekStep(sv, 4) == (sv.rest[..4], sv);
    assert sv.rest[..4][1] == '/';
    assert ContentRound(cfg, sv, value) == Round(value, [], TextCfg(cfg), sv);
    EndTagRefused(n, rest);
    assert ContentStep(cfg, sv, value) == (Round(value, [], TextCfg(cfg), sv), Refused(SV(rest, false)));
    ContentLoopUnfolds(cfg, sv, value, nodes);
    assert nodes + [] == nodes;
  }

  /** At the end of the input the content loop's text read fails the stream, and the loop ends as it was. */
  lemma ContentAtEndOfInput(cfg: Config, value: string, nodes: seq<XNode>)
    requires !cfg.matchAll
    ensures var c := ContentLoop(cfg, SV([], false), value, nodes);
      c.value == value && c.nodes == nodes && c.after == SV([], true)
  {
    var c := cfg.(keepDelim := true, skipWs := true, delims := "<");
    MatchAnyClosedForm(c, []);
    var p := ContentRound(cfg, SV([], false), value);
    assert p.value == value && p.added == [] && p.after == SV([], true);
    assert !ElementSpec(SV([], true)).ok;
    assert nodes + [] == nodes;
  }

  /** Whether t can be an element name as it stands: no whitespace, quote or '/'. */
  predicate PlainName(t: string)
  {
    forall i :: 0 <= i < |t| ==> !IsSpace(t[i]) && !IsQuote(t[i]) && t[i] != '/'
  }

  /** The name loop takes a plain name whole. */
  lemma {:induction false} ScanNamePlain(t: string)
    requires PlainName(t)
    ensures ScanName(t) == NameScan(t, |t|, false)
  {
    if t != [] {
      ScanNamePlain(t[1..]);
      assert [t[0]] + t[1..] == t;
    }
  }

  /** A tag text that is a plain name: no attributes, and the content loop reads the rest. */
  lemma TagBodyPlain(cfg: Config, sv: SV, name: string)
    requires PlainName(name)
    ensures var c := ContentLoop(cfg, sv, "", []);
      TagBody(cfg, sv, name) == Parsed(true, name, c.value, [], c.nodes, c.after)
  {
    ScanNamePlain(name);
    assert name[|name|..] == [];
  }

  /** `<inner></other>` reads as an empty inner element, whatever name the end tag carries. */
  lemma ClosedByAnyEndTag(inner: string, other: string)
    requires PlainTag(inner) && PlainName(inner) && '>' !in other && 1 <= |other|
    requires |inner| + |other| < StreamSizeMax / 8
    ensures ElementSpec(SV("<" + inner + ">" + ("</" + other + ">"), false)) == Parsed(true, inner, "", [], [], SV([], false))
  {
    var close := "</" + other + ">";
    StartTagRead(inner, close);
    TagBodyPlain(AfterTag, SV(close, false), inner);
    EndTagEndsContent(AfterTag, other, "", "", []);
    assert close + "" == close;
  }

  /** The content loop over `<inner></other>`: the child inner, then the end of the input. */
  lemma OneChildThenEnd(inner: string, other: string)
    requires PlainTag(inner) && PlainName(inner) && '>' !in other && 1 <= |other|
    requires |inner| + |other| < StreamSizeMax / 8
    ensures ContentLoop(AfterTag, SV("<" + inner + ">" + ("</" + other + ">"), false), "", []) ==
      Content("", [Elem(inner, "", [])], TextCfg(AfterTag), SV([], true))
  {
    var text := "<" + inner + ">" + ("</" + other + ">");
    var sv := SV(text, false);
    var u := inner + ">" + ("</" + other + ">");
    assert text == "<" + u;
    TextReadAtTag(AfterTag, u);
    assert PeekStep(sv, 4) == (text[..4], sv);
    assert text[..4][1] == inner[0] && text[..4][2] == inner[1];
    assert ContentRound(AfterTag, sv, "") == Round("", [], TextCfg(AfterTag), sv);
    ClosedByAnyEndTag(inner, other);
    ContentLoopUnfolds(AfterTag, sv, "", []);
    assert [] + [] + [Elem(inner, "", [])] == [Elem(inner, "", [])];
    ContentAtEndOfInput(TextCfg(AfterTag), "", [Elem(inner, "", [])]);
    ContentAtEndCfg(TextCfg(AfterTag), "", [Elem(inner, "", [])]);
  }

  /** At the end of the input the loop's settings are those of the failed text read. */
  lemma ContentAtEndCfg(cfg: Config, value: string, nodes: seq<XNode>)
    requires !cfg.matchAll && cfg.delims == "<" && cfg.keepDelim && cfg.skipWs && cfg.lastDelim == '<'
    ensures ContentLoop(cfg, SV([], false), value, nodes).cfg == cfg
  {
    MatchAnyClosedForm(cfg, []);
    assert cfg.(keepDelim := true, skipWs := true, delims := "<") == cfg;
  }

  /**
   * `<outer><inner></other>` is read as outer holding an empty inner,
   * whether or not other names outer: the end tag closes inner, and
   * outer's loop then runs into the end of the input, so `<root><item></root>`
   * is accepted.
   */
  lemma CloseNameNotCompared(outer: string, inner: string, other: string)
    requires PlainTag(outer) && PlainName(outer) && PlainTag(inner) && PlainName(inner)
    requires '>' !in other && 1 <= |other|
    requires |outer| + |inner| + |other| < StreamSizeMax / 8
    ensures ElementSpec(SV("<" + outer + ">" + ("<" + inner + ">" + ("</" + other + ">")), false)) ==
      Parsed(true, outer, "", [], [Elem(inner, "", [])], SV([], true))
  {
    var body := "<" + inner + ">" + ("</" + other + ">");
    StartTagRead(outer, body);
    TagBodyPlain(AfterTag, SV(body, false), outer);
    OneChildThenEnd(inner, other);
  }
}
