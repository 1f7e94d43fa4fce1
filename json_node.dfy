// json_node: the base of the JSON tree, its type tag, and the tree itself.
//
// In the C++ code every value is a shared_ptr to a json_node subclass. The
// model holds the tree as a value: a node is a primitive, a list of nodes,
// or an object given by its members in the order iteration over its
// open_hash_map visits them (slot by slot, chain head first; see
// HashMaps.Flatten). The JsonObject class in JsonObjects keeps the table
// itself.
module JsonNodes {
  import opened HashMaps
  import opened JsonPrimitives

  /** json_node::Type. */
  datatype Kind = Unknown | Object | String | Number | Array | Boolean

  /** The enumerators' values. */
  function Code(k: Kind): (c: nat)
    ensures c <= 5
    ensures c == 0 <==> k == Unknown
  {
    match k
    case Unknown => 0
    case Object => 1
    case String => 2
    case Number => 3
    case Array => 4
    case Boolean => 5
  }

  /** The enumerators have distinct values. */
  lemma CodeInjective(a: Kind, b: Kind)
    ensures Code(a) == Code(b) <==> a == b
  {
  }

  /** A node of the tree: shared_ptr<json_node> to one of the five node classes. */
  datatype Node<N> =
    | Str(str: JsonString)
    | Num(num: JsonNumber<N>)
    | Bool(flag: JsonBool)
    | List(items: seq<Node<N>>)
    | Obj(members: seq<Entry<string, Node<N>>>)

  /**
   * get_type: the type_ each constructor passes to json_node's, fixed for
   * the node's lifetime: String, Number, Boolean, Array or Object. No node
   * reports Unknown.
   */
  function KindOf<N>(n: Node<N>): (k: Kind)
    ensures k != Unknown
    ensures n.Str? <==> k == String
    ensures n.Num? <==> k == Number
    ensures n.Bool? <==> k == Boolean
    ensures n.List? <==> k == Array
    ensures n.Obj? <==> k == Object
  {
    match n
    case Str(_) => String
    case Num(_) => Number
    case Bool(_) => Boolean
    case List(_) => Array
    case Obj(_) => Object
  }

  /** Assigning a primitive a new value keeps its kind. */
  lemma AssignKeepsKind<N>(s: JsonString, v: string, d: JsonNumber<N>, x: N, b: JsonBool, y: bool)
    ensures KindOf<N>(Str(s.Assign(v))) == KindOf<N>(Str(s)) == String
    ensures KindOf(Num(d.Assign(x))) == KindOf(Num(d)) == Number
    ensures KindOf<N>(Bool(b.Assign(y))) == KindOf<N>(Bool(b)) == Boolean
  {
  }

  /**
   * get_value: the text of a primitive; "" for a list
   * (json_list.h) and for an object (json_object.h).
   */
  function GetValue<N>(n: Node<N>, format: N -> string): (s: string)
    ensures n.Str? ==> s == n.str.value
    ensures n.Num? ==> s == format(n.num.value)
    ensures n.Bool? ==> s == (if n.flag.value then "1" else "0")
    ensures n.List? || n.Obj? ==> s == ""
  {
    match n
    case Str(p) => p.GetValue()
    case Num(p) => p.GetValue(format)
    case Bool(p) => p.GetValue()
    case List(_) => ""
    case Obj(_) => ""
  }
}
