// Reading back what the writer produces: an attribute's text through the
// attribute loop, a comment's text through the comment read, and an
// element holding only attributes through the whole reader. The reader
// pushes each attribute to the front of the child list, so that element
// comes back with its attributes in reverse order.
module XmlRoundTrip {
  import opened Wrappers
  import opened Chars
  import opened StringUtil
  import opened StreamParsing
  import opened XmlNodes
  import opened XmlElements
  import XmlRender
  import XmlDocuments

  // ---------------------------------------------------------------------
  // Attributes
  // ---------------------------------------------------------------------

  /**
   * An attribute whose text the attribute loop reads back as itself: no
   * '=' in the name, the name not opening with whitespace or '/', and no
   * quote of either kind in the value (to_string escapes nothing).
   */
  predicate Rereadable(a: AttributeNode)
  {
    && (forall i :: 0 <= i < |a.name| ==> a.name[i] != '=')
    && (a.name == [] || (a.name[0] != '/' && !IsSpace(a.name[0])))
    && (forall i :: 0 <= i < |a.value| ==> !IsQuote(a.value[i]))
  }

  /** std::find stops at the first c. */
  lemma {:induction false} FindAfter(p: string, c: char, rest: string)
    requires forall j :: 0 <= j < |p| ==> p[j] != c
    ensures Find(p + [c] + rest, c) == |p|
  {
    if p != [] {
      assert (p + [c] + rest)[1..] == p[1..] + [c] + rest;
      FindAfter(p[1..], c, rest);
    }
  }

  /** The closing-quote search stops at the first quote. */
  lemma {:induction false} FindQuoteAfter(p: string, q: char, rest: string)
    requires IsQuote(q) && forall j :: 0 <= j < |p| ==> !IsQuote(p[j])
    ensures FindQuote(p + [q] + rest) == |p|
  {
    if p != [] {
      assert (p + [q] + rest)[1..] == p[1..] + [q] + rest;
      FindQuoteAfter(p[1..], q, rest);
    }
  }

  /** The attribute at the head of name="value"rest, with the closing quote found. */
  lemma AttrAtOf(a: AttributeNode, rest: string)
    requires Rereadable(a)
    ensures AttrAt(a.name + ['='] + (['"'] + (a.value + ['"'] + rest))) == Some(OneAttr(a, true, rest))
  {
    var v := a.value + ['"'] + rest;
    var t := a.name + ['='] + (['"'] + v);
    FindAfter(a.name, '=', ['"'] + v);
    var nend := Find(t, '=');
    assert nend == |a.name|;
    assert t[nend + 1] == '"';
    assert t[..nend] == a.name;
    assert t[nend + 2..] == v;
    FindQuoteAfter(a.value, '"', rest);
    assert v[..|a.value|] == a.value;
    assert v[|a.value| + 1..] == rest;
    AttrAtParts(t, a.name, v, a.value, rest);
  }

  /** AttrAt unfolded once, on text whose '=', opening quote and closing quote are known. */
  lemma AttrAtParts(t: string, name: string, v: string, value: string, rest: string)
    requires Find(t, '=') == |name| && |name| + 1 < |t| && t[|name| + 1] == '"'
    requires t[..|name|] == name && t[|name| + 2..] == v
    requires FindQuote(v) == |value| && |value| < |v| && v[..|value|] == value && v[|value| + 1..] == rest
    ensures AttrAt(t) == Some(OneAttr(AttributeNode(name, value), true, rest))
  {
  }

  /** The attribute loop reads a rereadable attribute's text as that attribute and goes on after it. */
  lemma AttrReadBack(a: AttributeNode, rest: string)
    requires Rereadable(a)
    ensures var r := ScanAttrs(rest);
      ScanAttrs(a.ToString() + rest) == AttrScan([a] + r.attrs, r.outcome)
  {
    var t := a.name + ['='] + (['"'] + (a.value + ['"'] + rest));
    assert a.ToString() + rest == [' '] + t;
    assert ([' '] + t)[1..] == t;
    AttrAtOf(a, rest);
    assert t[0] != '/' && !IsSpace(t[0]);
    assert ScanAttrs(t) == AttrScan([a] + ScanAttrs(rest).attrs, ScanAttrs(rest).outcome);
  }

  /** The attributes' texts, in order. */
  function AttrsString(attrs: seq<AttributeNode>): (s: string)
  {
    if attrs == [] then "" else attrs[0].ToString() + AttrsString(attrs[1..])
  }

  /** The attribute loop reads a run of rereadable attributes back in the order they were written. */
  lemma {:induction false} AttrsReadBack(attrs: seq<AttributeNode>, rest: string)
    requires forall i :: 0 <= i < |attrs| ==> Rereadable(attrs[i])
    ensures var r := ScanAttrs(rest);
      ScanAttrs(AttrsString(attrs) + rest) == AttrScan(attrs + r.attrs, r.outcome)
  {
    var r := ScanAttrs(rest);
    if attrs == [] {
      assert AttrsString(attrs) + rest == rest;
      assert attrs + r.attrs == r.attrs;
    } else {
      var tail := AttrsString(attrs[1..]) + rest;
      AttrsReadBack(attrs[1..], rest);
      assert ScanAttrs(tail) == AttrScan(attrs[1..] + r.attrs, r.outcome);
      AttrReadBack(attrs[0], tail);
      ConcatAssoc(attrs[0].ToString(), AttrsString(attrs[1..]), rest);
      assert AttrsString(attrs) + rest == attrs[0].ToString() + tail;
      assert [attrs[0]] + attrs[1..] == attrs;
      ConcatAssoc([attrs[0]], attrs[1..], r.attrs);
    }
  }

  /** The attribute nodes of a child list. */
  function AttrsOf(cs: seq<XNode>): (attrs: seq<AttributeNode>)
    requires XmlRender.OnlyAttrs(cs)
    ensures |attrs| == |cs|
  {
    if cs == [] then [] else AttrsOf(cs[..|cs| - 1]) + [cs[|cs| - 1].attr]
  }

  /** The writer's attribute text is the attributes' texts in order. */
  lemma {:induction false} AttrsTextIsString(cs: seq<XNode>)
    requires XmlRender.OnlyAttrs(cs)
    ensures XmlRender.AttrsText(cs) == AttrsString(AttrsOf(cs))
  {
    if cs != [] {
      var init := cs[..|cs| - 1];
      AttrsTextIsString(init);
      AttrsStringSnoc(AttrsOf(init), cs[|cs| - 1].attr);
    }
  }

  /** One more attribute at the end appends its text. */
  lemma {:induction false} AttrsStringSnoc(attrs: seq<AttributeNode>, a: AttributeNode)
    ensures AttrsString(attrs + [a]) == AttrsString(attrs) + a.ToString()
  {
    if attrs != [] {
      assert (attrs + [a])[1..] == attrs[1..] + [a];
      AttrsStringSnoc(attrs[1..], a);
    }
    else {
      assert [a][1..] == [];
    }
  }

  /** AttrsOf picks each child's attribute. */
  lemma {:induction false} AttrsOfAt(cs: seq<XNode>, i: nat)
    requires XmlRender.OnlyAttrs(cs) && i < |cs|
    ensures AttrsOf(cs)[i] == cs[i].attr
  {
    if i < |cs| - 1 {
      AttrsOfAt(cs[..|cs| - 1], i);
    }
  }

  // ---------------------------------------------------------------------
  // An element with attributes only
  // ---------------------------------------------------------------------

  /** The name loop takes a plain name and stops at the whitespace or '/' after it. */
  lemma {:induction false} ScanNameBefore(name: string, x: string)
    requires PlainName(name) && x != [] && (IsSpace(x[0]) || x[0] == '/')
    ensures ScanName(name + x) == NameScan(name, |name|, x[0] == '/')
  {
    if name != [] {
      assert (name + x)[1..] == name[1..] + x;
      ScanNameBefore(name[1..], x);
      assert [name[0]] + name[1..] == name;
    }
  }

  /** No '>' in an attribute's text. */
  predicate NoTagEnd(a: AttributeNode)
  {
    '>' !in a.name && '>' !in a.value
  }

  /** No '>' in the text of a run of such attributes. */
  lemma {:induction false} AttrsStringNoTagEnd(attrs: seq<AttributeNode>)
    requires forall i :: 0 <= i < |attrs| ==> NoTagEnd(attrs[i])
    ensures '>' !in AttrsString(attrs)
  {
    if attrs != [] {
      AttrsStringNoTagEnd(attrs[1..]);
      assert NoTagEnd(attrs[0]);
      var s := attrs[0].ToString();
      assert s == " " + attrs[0].name + "=" + "\"" + attrs[0].value + "\"";
    }
  }

  /** The attribute loop on the tag text after the name: the attributes, then the '/' that closes the element. */
  lemma AttrsThenSlash(attrs: seq<AttributeNode>)
    requires forall i :: 0 <= i < |attrs| ==> Rereadable(attrs[i])
    ensures ScanAttrs(AttrsString(attrs) + "/") == AttrScan(attrs, SelfClosed)
  {
    AttrsReadBack(attrs, "/");
    assert attrs + [] == attrs;
  }

  /** The name and attribute loops over name + attributes + "/": an element closed in its start tag. */
  lemma TagBodyAttrsOnly(cfg: Config, sv: SV, name: string, attrs: seq<AttributeNode>)
    requires PlainName(name) && forall i :: 0 <= i < |attrs| ==> Rereadable(attrs[i])
    ensures TagBody(cfg, sv, name + (AttrsString(attrs) + "/")) == Parsed(true, name, "", attrs, [], sv)
  {
    var at := AttrsString(attrs);
    ScanNameBefore(name, at + "/");
    if attrs != [] {
      assert at == attrs[0].ToString() + AttrsString(attrs[1..]);
      assert at[0] == ' ';
    }
    assert (name + (at + "/"))[|name|..] == at + "/";
    AttrsThenSlash(attrs);
  }

  /** The text written for an element with attributes only and no value, as a start tag. */
  lemma RenderAttrsOnly(e: XNode, rest: string)
    requires e.Elem? && e.value == "" && XmlRender.OnlyAttrs(e.children)
    ensures XmlRender.Render(e, 0) + rest ==
      "<" + (e.name + (AttrsString(AttrsOf(e.children)) + "/")) + ">" + ("\n" + rest)
  {
    XmlRender.RenderEmpty(e, 0);
    AttrsTextIsString(e.children);
    assert Spaces(0) == "";
    SelfClosedTagText(e.name, AttrsString(AttrsOf(e.children)), rest);
  }

  /** "<" + n + a + "/>\n" followed by rest, regrouped as a start tag and what follows its '>'. */
  lemma SelfClosedTagText(n: string, a: string, rest: string)
    ensures "" + "<" + n + a + "/>\n" + rest == "<" + (n + (a + "/")) + ">" + ("\n" + rest)
  {
    var x := n + a;
    assert "" + "<" + n + a == "<" + x;
    assert "/>\n" == ['/'] + ['>'] + ['\n'];
    calc {
      "<" + x + "/>\n" + rest;
      "<" + x + ['/'] + ['>'] + (['\n'] + rest);
      { ConcatAssoc(n, a, "/"); }
      "<" + (n + (a + "/")) + ">" + ("\n" + rest);
    }
  }

  /**
   * An element with a plain name, rereadable attributes and nothing else,
   * written at indentation 0 and read back: it is accepted, keeps its name
   * and empty value, and gets its attributes back in reverse order (each
   * one read is pushed to the front of the child list). Reading stops
   * after the '>' of "/>", before the newline.
   */
  lemma AttrsOnlyRoundTrip(e: XNode, rest: string)
    requires e.Elem? && PlainTag(e.name) && PlainName(e.name) && e.value == ""
    requires XmlRender.OnlyAttrs(e.children)
    requires forall i :: 0 <= i < |e.children| ==> Rereadable(e.children[i].attr) && NoTagEnd(e.children[i].attr)
    requires |XmlRender.Render(e, 0)| + |rest| < StreamSizeMax / 2
    ensures var p := ElementSpec(SV(XmlRender.Render(e, 0) + rest, false));
      && p == Parsed(true, e.name, "", AttrsOf(e.children), [], SV("\n" + rest, false))
      && p.Node() == Elem(e.name, "", ReversedAttrs(AttrsOf(e.children)))
  {
    var attrs := AttrsOf(e.children);
    forall i | 0 <= i < |attrs|
      ensures Rereadable(attrs[i]) && NoTagEnd(attrs[i])
    {
      AttrsOfAt(e.children, i);
    }
    AttrsStringNoTagEnd(attrs);
    var tag := e.name + (AttrsString(attrs) + "/");
    RenderAttrsOnly(e, rest);
    StartTagRead(tag, "\n" + rest);
    TagBodyAttrsOnly(AfterTag, SV("\n" + rest, false), e.name, attrs);
    PushFrontsReverses(attrs, []);
  }

  /**
   * A serialized document whose root holds attributes only, read back:
   * the declaration comes back as the first line and the root is read
   * from the rest, with its attributes reversed.
   */
  lemma DocumentRoundTripAttrsOnly(e: XNode)
    requires e.Elem? && PlainTag(e.name) && PlainName(e.name) && e.value == ""
    requires XmlRender.OnlyAttrs(e.children)
    requires forall i :: 0 <= i < |e.children| ==> Rereadable(e.children[i].attr) && NoTagEnd(e.children[i].attr)
    requires |XmlRender.Render(e, 0)| < StreamSizeMax / 2
    ensures var (line, rest) := XmlDocuments.GetLine(XmlDocuments.Serialized(e));
      && line == XmlDocuments.Decl
      && ElementSpec(SV(rest, false)) == Parsed(true, e.name, "", AttrsOf(e.children), [], SV("\n", false))
  {
    XmlDocuments.GetLineSerialized(e);
    AttrsOnlyRoundTrip(e, "");
    assert XmlRender.Render(e, 0) + "" == XmlRender.Render(e, 0);
    assert "\n" + "" == "\n";
  }

  // ---------------------------------------------------------------------
  // Comments
  // ---------------------------------------------------------------------

  /** A delimiter followed by anything matches itself in full. */
  lemma CommonPrefixOfDelimiter(d: string, rest: string)
    ensures CommonPrefix(d + rest, d) == |d|
  {
    assert d == (d + rest)[..|d|];
    CommonPrefixOfPrefix(d, d + rest);
    CommonPrefixSymmetric(d, d + rest);
  }

  /** CommonPrefix does not depend on the order of its arguments. */
  lemma {:induction false} CommonPrefixSymmetric(x: string, y: string)
    ensures CommonPrefix(x, y) == CommonPrefix(y, x)
  {
    if !(x == [] || y == [] || x[0] != y[0]) {
      CommonPrefixSymmetric(x[1..], y[1..]);
    }
  }

  /**
   * What is left of a comment text that the "-->" scan reads back
   * unchanged: no NUL (a failed attempt is appended as a C string), no
   * "-->" inside it, and no '-' at its end (that '-' and the delimiter's
   * would be taken for a failed attempt).
   */
  predicate SafeTail(t: string)
  {
    && '\0' !in t
    && (forall i :: 0 <= i && i + 2 < |t| ==> !(t[i] == '-' && t[i + 1] == '-' && t[i + 2] == '>'))
    && (t != [] ==> t[|t| - 1] != '-')
  }

  /**
   * A comment text the comment read gives back unchanged: a safe tail
   * that opens with neither whitespace (skipped) nor '-' (a failed attempt
   * at the start leaves whitespace skipping on).
   */
  predicate SafeComment(text: string)
  {
    SafeTail(text) && (text != [] ==> !IsSpace(text[0]) && text[0] != '-')
  }

  /** Every suffix of a safe tail is one. */
  lemma SafeTailDrop(t: string, k: nat)
    requires SafeTail(t) && k <= |t|
    ensures SafeTail(t[k..])
  {
    var u := t[k..];
    forall i | 0 <= i && i + 2 < |u|
      ensures !(u[i] == '-' && u[i + 1] == '-' && u[i + 2] == '>')
    {
      assert u[i] == t[k + i] && u[i + 1] == t[k + i + 1] && u[i + 2] == t[k + i + 2];
    }
    assert '\0' !in u by {
      forall j | 0 <= j < |u| ensures u[j] != '\0' {
        assert u[j] == t[k + j];
      }
    }
  }

  /**
   * The match-all scan for "-->", skipping leading whitespace, over a safe
   * tail t followed by "-->": every failed attempt at a '-' lies inside t
   * and is kept whole, so the token is t and the scan ends just after the
   * delimiter.
   */
  lemma {:induction false} ScanAllSafeText(t: string, rest: string, leading: bool)
    requires SafeTail(t)
    requires leading && t != [] ==> !IsSpace(t[0]) && t[0] != '-'
    ensures ScanAll(t + "-->" + rest, "-->", true, leading) == Scan(t, |t| + 3, true)
    decreases |t|
  {
    if t == [] {
      DelimiterFirst(t, rest, leading);
    } else {
      var k := if t[0] != '-' then 1 else if t[1] != '-' then 2 else 3;
      if k == 1 {
        PlainStep(t, rest, leading);
      } else {
        assert k == 3 ==> !(t[0] == '-' && t[1] == '-' && t[2] == '>');
        DashAttempt(t, rest, k);
      }
      SafeTailDrop(t, k);
      ScanAllSafeText(t[k..], rest, false);
      assert t[..k] + t[k..] == t;
    }
  }

  /** The scan over "-->" + rest matches the delimiter at once. */
  lemma DelimiterFirst(t: string, rest: string, leading: bool)
    requires t == []
    ensures ScanAll(t + "-->" + rest, "-->", true, leading) == Scan(t, 3, true)
  {
    var s := t + "-->" + rest;
    assert s == "-->" + rest;
    assert s[1..] == "->" + rest;
    CommonPrefixOfDelimiter("->", rest);
  }

  /** A first character other than '-' (and not skipped) is kept, and leading whitespace skipping ends. */
  lemma PlainStep(t: string, rest: string, leading: bool)
    requires t != [] && t[0] != '-'
    requires leading ==> !IsSpace(t[0])
    ensures 1 <= |t|
    ensures ScanAll(t + "-->" + rest, "-->", true, leading) ==
      var r := ScanAll(t[1..] + "-->" + rest, "-->", true, false);
      Scan(t[..1] + r.token, 1 + r.used, r.hit)
  {
    var s := t + "-->" + rest;
    assert s[0] == t[0];
    assert s[1..] == t[1..] + "-->" + rest;
    assert NextLeading(true, leading, t[0]) == false;
    assert t[..1] == [t[0]];
  }

  /**
   * One failed attempt at a '-' that opens t: it takes the first k
   * characters (k = 2 when the next one is not '-', k = 3 when it is and
   * the one after is not '>'), all inside t, and the scan resumes after them.
   */
  lemma DashAttempt(t: string, rest: string, k: nat)
    requires SafeTail(t) && 2 <= k <= 3 && k < |t| + 1 && t[0] == '-'
    requires k == 2 ==> t[1] != '-'
    requires k == 3 ==> t[1] == '-' && t[2] != '>'
    ensures k <= |t|
    ensures ScanAll(t + "-->" + rest, "-->", true, false) ==
      var r := ScanAll(t[k..] + "-->" + rest, "-->", true, false);
      Scan(t[..k] + r.token, k + r.used, r.hit)
  {
    var s := t + "-->" + rest;
    assert s[1..] == t[1..] + "-->" + rest;
    assert s[1..][0] == t[1];
    if k == 3 {
      assert s[1..][1..][0] == t[2];
      assert CommonPrefix(s[1..][1..], "->"[1..]) == 0;
    }
    assert CommonPrefix(s[1..], "->") == k - 2;
    assert s[..k] == t[..k];
    assert '\0' !in t[..k];
    CStringNoNul(t[..k]);
    assert s[k..] == t[k..] + "-->" + rest;
  }

  /** discard(4) with no delimiters drops the first four characters. */
  lemma DiscardFour(cfg: Config, s: string)
    requires |s| >= 4
    ensures DiscardStep(cfg, SV(s, false), 4, "", true) == (cfg.(delims := ""), SV(s[4..], false))
  {
    FirstInSpec(s, "");
  }

  /** The settings of the comment read: match-all on "-->", which is consumed, skipping leading whitespace. */
  function CommentCfg(cfg: Config): Config
  {
    cfg.(delims := "-->", keepDelim := false, skipWs := true, matchAll := true)
  }

  /** The comment read on a text node's to_string: the match-all scan over what follows "<!--". */
  lemma CommentReadScans(cfg: Config, text: string, rest: string)
    ensures var r := ScanAll(text + "-->" + rest, "-->", true, true);
      var body := text + "-->" + rest;
      CommentRead(cfg, SV(TextNode(text).ToString() + rest, false)) ==
        if r.hit then (r.token, CommentCfg(cfg), SV(body[r.used..], false))
        else (r.token, CommentCfg(cfg), SV([], true))
  {
    var body := text + "-->" + rest;
    assert TextNode(text).ToString() + rest == "<!--" + body;
    CommentReadAfterOpener(cfg, body);
    MatchAllByScan(CommentCfg(cfg), body);
  }

  /** The comment read drops the "<!--" and runs the match-all read on what follows. */
  lemma CommentReadAfterOpener(cfg: Config, body: string)
    ensures CommentRead(cfg, SV("<!--" + body, false)) == MatchAllStep(CommentCfg(cfg), SV(body, false))
  {
    var s := "<!--" + body;
    DiscardFour(cfg, s);
    assert s[4..] == body;
    assert cfg.(delims := "").(delims := "-->", keepDelim := false, skipWs := true, matchAll := true) == CommentCfg(cfg);
  }

  /**
   * A text node's to_string, "<!--" + text + "-->", read back by the
   * comment read: the same text, and the stream goes on after "-->".
   */
  lemma CommentRoundTrip(cfg: Config, text: string, rest: string)
    requires SafeComment(text)
    ensures CommentRead(cfg, SV(TextNode(text).ToString() + rest, false)) ==
      (text, CommentCfg(cfg), SV(rest, false))
  {
    CommentReadScans(cfg, text, rest);
    ScanAllSafeText(text, rest, true);
    assert (text + "-->" + rest)[|text| + 3..] == rest;
  }

  /** Dashes inside a comment survive: "a-b--c" is read back as itself. */
  lemma InnerDashesKept(cfg: Config)
    ensures CommentRead(cfg, SV(TextNode("a-b--c").ToString(), false)).0 == "a-b--c"
  {
    var t := "a-b--c";
    forall i | 0 <= i && i + 2 < |t|
      ensures !(t[i] == '-' && t[i + 1] == '-' && t[i + 2] == '>')
    {
    }
    assert SafeComment(t);
    CommentRoundTrip(cfg, t, "");
    assert TextNode(t).ToString() + "" == TextNode(t).ToString();
  }

  /** The scan over "-" + c + " " + t + "-->": the attempt at '-' fails at c, and the space is then skipped. */
  lemma ScanDashed(c: char, t: string)
    requires c != '-' && c != '\0' && SafeComment(t)
    ensures ScanAll(['-', c, ' '] + t + "-->" + "", "-->", true, true).token == ['-', c] + t
  {
    var body := ['-', c, ' '] + t + "-->" + "";
    assert body[0] == '-' && body[1..][0] == c;
    assert CommonPrefix(body[1..], "->") == 0;
    assert body[..2] == ['-', c];
    CStringNoNul(['-', c]);
    var after := body[2..];
    assert after == [' '] + (t + "-->" + "");
    assert after[1..] == t + "-->" + "";
    ScanAllSafeText(t, "", true);
    assert ScanAll(after, "-->", true, true).token == t;
  }

  /**
   * A comment text opening with '-' and another character need not come
   * back: the failed match at the '-' leaves whitespace skipping on, so
   * a space right after those two characters is dropped.
   */
  lemma DashedCommentDropsSpace(cfg: Config, c: char, t: string)
    requires c != '-' && c != '\0' && SafeComment(t)
    ensures CommentRead(cfg, SV(TextNode(['-', c, ' '] + t).ToString(), false)).0 == ['-', c] + t
  {
    var text := ['-', c, ' '] + t;
    CommentReadScans(cfg, text, "");
    assert TextNode(text).ToString() + "" == TextNode(text).ToString();
    ScanDashed(c, t);
  }

  /** For instance "-a b" is read back as "-ab". */
  lemma DashedCommentLosesSpace(cfg: Config)
    ensures CommentRead(cfg, SV(TextNode("-a b").ToString(), false)).0 == "-ab"
  {
    assert SafeComment("b");
    DashedCommentDropsSpace(cfg, 'a', "b");
    assert ['-', 'a', ' '] + "b" == "-a b";
    assert ['-', 'a'] + "b" == "-ab";
  }
}
