// to_string_recur of basic_json_object: the pretty-printer. An object is
// "{", a newline, one line per member indented three spaces deeper than
// the object, a newline, the object's own indentation and "}"; a list is
// "[", a newline, the indentation plus three spaces once, the elements one
// after the other, a newline, the indentation and " ]". A member or element
// that is not the last is followed by "," and a newline (containers) or by
// ", " (primitives). Render is the specification; ToStringRecur writes the
// same text piece by piece, as the C++ code streams into a stringstream.
module JsonSerializer {
  import opened StringUtil
  import opened HashMaps
  import opened JsonPrimitives
  import opened JsonNodes

  /** What follows a container: "," and std::endl when it is not the last one. */
  function ContainerTail(comma: bool): string
  {
    if comma then ",\n" else ""
  }

  /** What follows a primitive: ", " when it is not the last one. */
  function PrimitiveTail(comma: bool): string
  {
    if comma then ", " else ""
  }

  /** to_string_recur(node, ss, level, comma): the text it streams. */
  function Render<N>(n: Node<N>, level: nat, comma: bool, format: N -> string): (s: string)
    decreases n
  {
    var ws := Spaces(level);
    match n
    case Obj(ms) =>
      "{\n" + MembersText(ms, ws + "   ", level + 3, format) + ("\n" + ws + "}") + ContainerTail(comma)
    case List(items) =>
      "[\n" + (ws + "   ") + ItemsText(items, level + 3, format) + ("\n" + ws + " ]") + ContainerTail(comma)
    case Str(p) => "\"" + p.ToString() + "\"" + PrimitiveTail(comma)
    case Num(p) => p.ToString(format) + PrimitiveTail(comma)
    case Bool(p) => p.ToString() + PrimitiveTail(comma)
  }

  /** One member: the indentation, the quoted key, " : " and the value one level deeper. */
  function MemberText<N>(e: Entry<string, Node<N>>, indent: string, level: nat, comma: bool, format: N -> string): string
    decreases e, 0
  {
    indent + "\"" + e.key + "\"" + " : " + Render(e.val, level, comma, format)
  }

  /** The members in iteration order, each but the last with its comma. */
  function MembersText<N>(ms: seq<Entry<string, Node<N>>>, indent: string, level: nat, format: N -> string): string
    decreases ms
  {
    if ms == [] then ""
    else MemberText(ms[0], indent, level, |ms| > 1, format) + MembersText(ms[1..], indent, level, format)
  }

  /** The elements in order, each but the last with its comma. */
  function ItemsText<N>(items: seq<Node<N>>, level: nat, format: N -> string): string
    decreases items
  {
    if items == [] then ""
    else Render(items[0], level, |items| > 1, format) + ItemsText(items[1..], level, format)
  }

  // ---------------------------------------------------------------------
  // The method
  // ---------------------------------------------------------------------

  /**
   * to_string_recur: appends the node's text to ss. It reports failure
   * only for a node of Unknown type, which no node here has.
   */
  method ToStringRecur<N>(n: Node<N>, ss: string, level: nat, comma: bool, format: N -> string)
    returns (out: string, ok: bool)
    ensures out == ss + Render(n, level, comma, format) && ok
    decreases n, 1
  {
    ok := true;
    match n {
      case Obj(ms) =>
        out := WriteObject(ms, ss, level, comma, format);
      case List(items) =>
        out := WriteList(items, ss, level, comma, format);
      case Str(p) =>
        out := ss + "\"" + p.ToString() + "\"";
        if comma {
          out := out + ", ";
        }
      case Num(p) =>
        out := ss + p.ToString(format);
        if comma {
          out := out + ", ";
        }
      case Bool(p) =>
        out := ss + p.ToString();
        if comma {
          out := out + ", ";
        }
    }
  }

  /** The Object case of to_string_recur. */
  method WriteObject<N>(ms: seq<Entry<string, Node<N>>>, ss: string, level: nat, comma: bool, format: N -> string)
    returns (out: string)
    ensures out == ss + Render(Obj(ms), level, comma, format)
    decreases Obj(ms), 0
  {
    var ws := Spaces(level);
    var indent := ws + "   ";
    out := ss + "{\n";
    ghost var open := out;
    out := WriteMembers(ms, indent, level + 3, out, format);
    ghost var body := MembersText(ms, indent, level + 3, format);
    out := out + ("\n" + ws + "}");
    if comma {
      out := out + ",";
      out := out + "\n";
    }
    Regroup(ss, "{\n", body, "\n" + ws + "}", ContainerTail(comma));
  }

  /** The Array case of to_string_recur. */
  method WriteList<N>(items: seq<Node<N>>, ss: string, level: nat, comma: bool, format: N -> string)
    returns (out: string)
    ensures out == ss + Render(List(items), level, comma, format)
    decreases List(items), 0
  {
    var ws := Spaces(level);
    ghost var open := "[\n" + (ws + "   ");
    out := ss + "[\n";
    out := out + (ws + "   ");
    assert out == ss + open;
    out := WriteItems(items, level + 3, out, format);
    ghost var body := ItemsText(items, level + 3, format);
    out := out + ("\n" + ws + " ]");
    if comma {
      out := out + ",";
      out := out + "\n";
    }
    Regroup(ss, open, body, "\n" + ws + " ]", ContainerTail(comma));
  }

  /** The loop over properties_: s counts the members written, and a member gets a comma while ++s < size. */
  method WriteMembers<N>(ms: seq<Entry<string, Node<N>>>, indent: string, level: nat, ss: string, format: N -> string)
    returns (out: string)
    ensures out == ss + MembersText(ms, indent, level, format)
    decreases ms
  {
    out := ss;
    var s := 0;
    while s < |ms|
      invariant 0 <= s <= |ms|
      invariant out + MembersText(ms[s..], indent, level, format) == ss + MembersText(ms, indent, level, format)
    {
      ghost var piece := MemberText(ms[s], indent, level, |ms[s..]| > 1, format);
      ghost var after := MembersText(ms[s + 1..], indent, level, format);
      assert ms[s..][1..] == ms[s + 1..];
      var e := ms[s];
      ghost var before := out;
      s := s + 1;
      out := WriteMember(e, indent, level, s < |ms|, out, format);
      ConcatAssoc(before, piece, after);
    }
  }

  /** One pass of the properties loop: the key line, then the value one level deeper. */
  method WriteMember<N>(e: Entry<string, Node<N>>, indent: string, level: nat, comma: bool, ss: string, format: N -> string)
    returns (out: string)
    ensures out == ss + MemberText(e, indent, level, comma, format)
    decreases e, 0
  {
    var head := indent + "\"" + e.key + "\"" + " : ";
    var ok;
    out, ok := ToStringRecur(e.val, ss + head, level, comma, format);
    ConcatAssoc(ss, head, Render(e.val, level, comma, format));
  }

  /** The loop over the list's elements, with the same counter. */
  method WriteItems<N>(items: seq<Node<N>>, level: nat, ss: string, format: N -> string) returns (out: string)
    ensures out == ss + ItemsText(items, level, format)
    decreases items
  {
    out := ss;
    var s := 0;
    while s < |items|
      invariant 0 <= s <= |items|
      invariant out + ItemsText(items[s..], level, format) == ss + ItemsText(items, level, format)
    {
      var x := items[s];
      ghost var piece := Render(x, level, |items[s..]| > 1, format);
      ghost var after := ItemsText(items[s + 1..], level, format);
      assert items[s..][1..] == items[s + 1..];
      ghost var before := out;
      s := s + 1;
      var ok;
      out, ok := ToStringRecur(x, out, level, s < |items|, format);
      ConcatAssoc(before, piece, after);
    }
  }

  /** Regrouping five pieces of text. */
  lemma Regroup(a: string, b: string, c: string, d: string, e: string)
    ensures a + b + c + d + e == a + (b + c + d + e)
  {
  }

  // ---------------------------------------------------------------------
  // The layout
  // ---------------------------------------------------------------------

  /** The members' texts one by one: every member but the last carries the comma. */
  function MemberPieces<N>(ms: seq<Entry<string, Node<N>>>, indent: string, level: nat, format: N -> string): (ps: seq<string>)
    ensures |ps| == |ms|
  {
    seq(|ms|, i requires 0 <= i < |ms| => MemberText(ms[i], indent, level, i + 1 < |ms|, format))
  }

  /** The elements' texts one by one: every element but the last carries the comma. */
  function ItemPieces<N>(items: seq<Node<N>>, level: nat, format: N -> string): (ps: seq<string>)
    ensures |ps| == |items|
  {
    seq(|items|, i requires 0 <= i < |items| => Render(items[i], level, i + 1 < |items|, format))
  }

  /** The members' text is the members' pieces in order: a comma after each member except the last. */
  lemma {:induction false} MembersCommas<N>(ms: seq<Entry<string, Node<N>>>, indent: string, level: nat, format: N -> string)
    ensures MembersText(ms, indent, level, format) == Concat(MemberPieces(ms, indent, level, format))
    decreases |ms|
  {
    if ms != [] {
      MembersCommas(ms[1..], indent, level, format);
      var ps := MemberPieces(ms, indent, level, format);
      assert ps[1..] == MemberPieces(ms[1..], indent, level, format);
    }
  }

  /** The elements' text is the elements' pieces in order: a comma after each element except the last. */
  lemma {:induction false} ItemsCommas<N>(items: seq<Node<N>>, level: nat, format: N -> string)
    ensures ItemsText(items, level, format) == Concat(ItemPieces(items, level, format))
    decreases |items|
  {
    if items != [] {
      ItemsCommas(items[1..], level, format);
      var ps := ItemPieces(items, level, format);
      assert ps[1..] == ItemPieces(items[1..], level, format);
    }
  }

  /** Three more spaces of indentation are one nesting level deeper. */
  lemma IndentDeeper(level: nat)
    ensures Spaces(level) + "   " == Spaces(level + 3)
  {
    var a := Spaces(level) + "   ";
    assert forall i :: 0 <= i < level + 3 ==> a[i] == ' ';
  }

  /**
   * An object at a level: "{", a newline, its members each at three more
   * spaces than the object, starting with the quoted key, a comma after
   * all but the last, then a newline and "}" at the object's own
   * indentation.
   */
  lemma ObjectLayout<N>(ms: seq<Entry<string, Node<N>>>, level: nat, comma: bool, format: N -> string)
    ensures var ps := MemberPieces(ms, Spaces(level + 3), level + 3, format);
      && Render(Obj(ms), level, comma, format) ==
         "{\n" + Concat(ps) + ("\n" + Spaces(level) + "}") + ContainerTail(comma)
      && forall i :: 0 <= i < |ps| ==> |ps[i]| > level + 3 && ps[i][..level + 3] == Spaces(level + 3) && ps[i][level + 3] == '"'
  {
    IndentDeeper(level);
    MembersCommas(ms, Spaces(level + 3), level + 3, format);
    var ps := MemberPieces(ms, Spaces(level + 3), level + 3, format);
    forall i | 0 <= i < |ps|
      ensures |ps[i]| > level + 3 && ps[i][..level + 3] == Spaces(level + 3) && ps[i][level + 3] == '"'
    {
      var rest := ms[i].key + "\"" + " : " + Render(ms[i].val, level + 3, i + 1 < |ms|, format);
      assert ps[i] == Spaces(level + 3) + ("\"" + rest);
    }
  }

  /**
   * A list at a level: "[", a newline, three more spaces than the list
   * once, then the elements back to back with a comma after all but the
   * last, then a newline, the list's indentation and " ]".
   */
  lemma ListLayout<N>(items: seq<Node<N>>, level: nat, comma: bool, format: N -> string)
    ensures Render(List(items), level, comma, format) ==
      "[\n" + Spaces(level + 3) + Concat(ItemPieces(items, level + 3, format)) + ("\n" + Spaces(level) + " ]") + ContainerTail(comma)
  {
    IndentDeeper(level);
    ItemsCommas(items, level + 3, format);
  }

  /**
   * A primitive is written as its get_value text, between quotes for a
   * string and bare for a number or a Boolean, at any level, followed by
   * ", " when it is not the last.
   */
  lemma PrimitiveText<N>(n: Node<N>, level: nat, comma: bool, format: N -> string)
    requires !n.Obj? && !n.List?
    ensures Render(n, level, comma, format) ==
      (if n.Str? then "\"" + GetValue(n, format) + "\"" else GetValue(n, format)) + PrimitiveTail(comma)
  {
  }
}
