// basic_json_list: a JSON array backed by a vector of node pointers. The
// vector is the field `values`, which push_back extends in place.
module JsonLists {
  import opened JsonNodes

  class JsonList<N> {
    /** values_. */
    var values: seq<Node<N>>

    /** basic_json_list(): an empty vector; the json_node part records Array. */
    constructor ()
      ensures values == [] && Kind() == Array
    {
      values := [];
    }

    /** get_type. */
    function Kind(): (k: Kind)
      ensures k == KindOf<N>(List([]))
    {
      Array
    }

    /** size(). */
    function Size(): (n: nat)
      reads this
      ensures n == |values|
    {
      |values|
    }

    /** operator[](idx): the element at idx (an index out of range is undefined behaviour). */
    function At(idx: nat): (v: Node<N>)
      requires idx < |values|
      reads this
      ensures v == values[idx]
    {
      values[idx]
    }

    /** push_back: the value becomes the last element; the elements before it are untouched. */
    method PushBack(v: Node<N>)
      modifies this
      ensures values == old(values) + [v]
      ensures Size() == old(Size()) + 1 && At(Size() - 1) == v
      ensures forall i :: 0 <= i < old(Size()) ==> At(i) == old(At(i))
    {
      values := values + [v];
    }

    /** A loop from begin() to end(): the elements in insertion order. */
    method Elements() returns (es: seq<Node<N>>)
      ensures es == values
    {
      es := [];
      var it := 0;
      while it != |values|
        invariant 0 <= it <= |values| && es == values[..it]
      {
        es := es + [values[it]];
        it := it + 1;
      }
    }

    /** get_value and to_string: always ""; the text of an array comes from the object serializer. */
    function ToString(): (s: string)
      ensures s == GetValue<N>(List(values), _ => "")
    {
      ""
    }

    /** The node this list is when it hangs in a tree. */
    function Value(): (n: Node<N>)
      reads this
      ensures n.List? && n.items == values
    {
      List(values)
    }
  }
}
