// The nodes of the XML tree: xml_node's kind tag, the attribute node
// (xml_attribute.h) and the text node (xml_text.h), which stands for a
// comment. Both leaf kinds are plain values: their setters return an
// updated record. An element (xml_element.h) is held here as a value too,
// with its children in order; the class that owns and mutates a tree is
// XmlElements.XmlElement.
module XmlNodes {
  import opened Wrappers

  /** xml_node::Type. */
  datatype Kind = Unknown | Element | Attribute | Text | Comment

  /** The enumerator values of xml_node::Type. */
  function KindCode(k: Kind): (code: nat)
    ensures code <= 4
  {
    match k
    case Unknown => 0
    case Element => 1
    case Attribute => 2
    case Text => 3
    case Comment => 4
  }

  /** Distinct kinds have distinct codes. */
  lemma KindCodeInjective(a: Kind, b: Kind)
    ensures KindCode(a) == KindCode(b) ==> a == b
  {
  }

  // ---------------------------------------------------------------------
  // Attribute
  // ---------------------------------------------------------------------

  /** basic_xml_attribute_node: a name and a value. */
  datatype AttributeNode = AttributeNode(name: string, value: string)
  {
    /** get_type: fixed at construction. */
    function Kind(): Kind { Attribute }

    /** get_name / get_attribute_name. */
    function GetName(): string { name }

    /** get_value / get_attribute_value. */
    function GetValue(): string { value }

    /** set_attribute_name. */
    function SetName(n: string): AttributeNode { this.(name := n) }

    /** set_attribute_value. */
    function SetValue(v: string): AttributeNode { this.(value := v) }

    /** to_string: a leading space, the name, '=', the value in double quotes, no escaping. */
    function ToString(): (s: string)
      ensures |s| == |name| + |value| + 4
      ensures s[0] == ' ' && s[|name| + 1] == '=' && s[|name| + 2] == '"' && s[|s| - 1] == '"'
      ensures s[1..|name| + 1] == name && s[|name| + 3..|s| - 1] == value
    {
      " " + name + "=" + "\"" + value + "\""
    }
  }

  /**
   * The accessors return what was stored or set, each setter replaces only
   * its own field, and the kind does not depend on the contents.
   */
  lemma AttributeAccessors(a: AttributeNode, n: string, v: string)
    ensures AttributeNode(n, v).GetName() == n && AttributeNode(n, v).GetValue() == v
    ensures a.SetName(n).GetName() == n && a.SetName(n).GetValue() == a.GetValue()
    ensures a.SetValue(v).GetValue() == v && a.SetValue(v).GetName() == a.GetName()
    ensures a.SetName(n).Kind() == Attribute && a.SetValue(v).Kind() == Attribute
  {
  }

  // ---------------------------------------------------------------------
  // Text
  // ---------------------------------------------------------------------

  /** basic_xml_text_node: one string, written out as a comment. */
  datatype TextNode = TextNode(text: string)
  {
    /** get_type: fixed at construction. */
    function Kind(): Kind { Text }

    /** get_name: a text node has no name. */
    function GetName(): string { "" }

    /** get_value / get_text. */
    function GetValue(): string { text }

    /** set_text. */
    function SetText(t: string): TextNode { TextNode(t) }

    /** to_string: the comment form <!--text-->. */
    function ToString(): (s: string)
      ensures |s| == |text| + 7
      ensures s[..4] == "<!--" && s[4..|s| - 3] == text && s[|s| - 3..] == "-->"
    {
      "<!--" + text + "-->"
    }
  }

  /** get_name is always empty, get_value returns the stored or last set text. */
  lemma TextAccessors(t: TextNode, s: string)
    ensures t.GetName() == "" && t.SetText(s).GetName() == ""
    ensures TextNode(s).GetValue() == s && t.SetText(s).GetValue() == s
    ensures t.SetText(s).Kind() == Text
  {
  }

  // ---------------------------------------------------------------------
  // Tree
  // ---------------------------------------------------------------------

  /**
   * A node of the tree: an attribute, a text (comment) node, or an element
   * with its name, its value (character data) and its ordered children.
   */
  datatype XNode =
    | Attr(attr: AttributeNode)
    | TextChild(txt: TextNode)
    | Elem(name: string, value: string, children: seq<XNode>)

  /** get_type through the base class. */
  function KindOf(n: XNode): (k: Kind)
    ensures k == Element <==> n.Elem?
  {
    match n
    case Attr(a) => a.Kind()
    case TextChild(t) => t.Kind()
    case Elem(_, _, _) => Element
  }

  /** get_name through the base class. */
  function NameOf(n: XNode): string
  {
    match n
    case Attr(a) => a.GetName()
    case TextChild(t) => t.GetName()
    case Elem(name, _, _) => name
  }

  /** get_value through the base class. */
  function ValueOf(n: XNode): string
  {
    match n
    case Attr(a) => a.GetValue()
    case TextChild(t) => t.GetValue()
    case Elem(_, value, _) => value
  }

  /** The children of a node; leaves have none. */
  function ChildrenOf(n: XNode): seq<XNode>
  {
    if n.Elem? then n.children else []
  }

  /** A position in a tree: the child indices from the root. */
  type Path = seq<nat>

  /** The node at path p below n, if there is one. */
  function NodeAt(n: XNode, p: Path): (r: Option<XNode>)
    ensures p == [] ==> r == Some(n)
    decreases |p|
  {
    if p == [] then Some(n)
    else if n.Elem? && p[0] < |n.children| then NodeAt(n.children[p[0]], p[1..])
    else None
  }

  /** Following a path one step further is following it to its end, then one child. */
  lemma {:induction false} NodeAtSnoc(n: XNode, p: Path, k: nat)
    ensures NodeAt(n, p + [k]) ==
      match NodeAt(n, p)
      case None => None
      case Some(m) => if m.Elem? && k < |m.children| then Some(m.children[k]) else None
    decreases |p|
  {
    if p == [] {
      assert p + [k] == [k];
      assert [k][1..] == [];
    } else {
      assert (p + [k])[1..] == p[1..] + [k];
      if n.Elem? && p[0] < |n.children| {
        NodeAtSnoc(n.children[p[0]], p[1..], k);
      }
    }
  }
}
