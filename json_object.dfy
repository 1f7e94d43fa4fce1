// basic_json_object: a JSON object whose properties live in an
// open_hash_map, with the recursive-descent reader (recur_object,
// recur_list) that fills it from a stream.
//
// The reader drives stream_parser objects over one shared stream. The
// specification is a family of mutually recursive functions over the
// parser configuration (Config) and the stream (SV) of StreamParsing:
// ReadObject and ReadList for the two readers, ObjectMembers and
// ListElements for their while loops, ReadValue for the value dispatch
// both loops share. The methods RecurObject and RecurList do the same
// work step by step on a StreamParser and a CharStream and are proved
// equal to them.
module JsonObjects {
  import opened Wrappers
  import opened Chars
  import opened StringUtil
  import opened StreamParsing
  import opened HashMaps
  import opened JsonPrimitives
  import opened JsonNodes
  import opened JsonLists
  import opened JsonSerializer

  /** properties_: the slots of an open_hash_map<string, base_ptr_t>. */
  type Table<N> = seq<Chain<string, Node<N>>>

  /** properties_(1024, string_hash()). */
  const Capacity: nat := 1024

  /** A table with Capacity empty slots. */
  function EmptyTable<N>(): (t: Table<N>)
    ensures |t| == Capacity && forall i :: 0 <= i < |t| ==> t[i] == []
  {
    seq(Capacity, _ => [])
  }

  // ---------------------------------------------------------------------
  // dequote_string and parse_key
  // ---------------------------------------------------------------------

  /** std::string::rfind(c), for a c that occurs. */
  function LastIndexOf(s: string, c: char): (k: nat)
    requires c in s
    ensures k < |s| && s[k] == c
    ensures forall j :: k < j < |s| ==> s[j] != c
  {
    if s[|s| - 1] == c then |s| - 1
    else
      assert exists j :: 0 <= j < |s| - 1 && s[j] == c;
      var j :| 0 <= j < |s| - 1 && s[j] == c;
      assert s[..|s| - 1][j] == c;
      LastIndexOf(s[..|s| - 1], c)
  }

  /**
   * dequote_string: the text strictly between the first and the last '"',
   * or "" when there is no '"' or only one.
   */
  function Dequote(str: string): (r: string)
  {
    var start := Find(str, '"');
    if start == |str| then ""
    else
      FindFirstOccurrence(str, '"');
      var end := LastIndexOf(str, '"');
      if end == start then "" else str[start + 1..end]
  }

  /** The parser parse_key builds: stream_parser(is), then setdelims(":") and noskipws. */
  const KeyConfig: Config := Config(":", false, false, false, '\0')

  /**
   * parse_key: reads up to the next ':' (which is consumed) and dequotes
   * what it read; a failed stream or an empty read gives "".
   */
  function ParseKey(sv: SV): (r: (string, SV))
    ensures Measure(r.1) <= Measure(sv)
    ensures |r.0| > 0 ==> Measure(r.1) < Measure(sv)
  {
    var (key, _, sv1) := NextMatchStep(KeyConfig, sv);
    NextMatchShrinks(KeyConfig, sv);
    if sv1.failed || |key| < 1 then ("", sv1) else (Dequote(key), sv1)
  }

  // ---------------------------------------------------------------------
  // Primitive values
  // ---------------------------------------------------------------------

  /** val.compare(0, n, lit) == 0: the first n characters of val (all of val if shorter) are lit. */
  predicate HeadIs(val: string, n: nat, lit: string)
  {
    val[..if n < |val| then n else |val|] == lit
  }

  /**
   * The primitive branch: a token beginning with "true" is Boolean true, a
   * token beginning with a digit or '-' is a Number when try_parse<double>
   * (the parameter parse) accepts it, anything else is refused. The test
   * for "false" compares four characters with a five-character literal.
   */
  function Primitive<N>(val: string, parse: string -> Option<N>): (r: Option<Node<N>>)
    ensures r.Some? ==> |val| > 0
  {
    if |val| < 1 then None
    else if HeadIs(val, 4, "true") then Some(Bool(JsonBool(true)))
    else if HeadIs(val, 4, "false") then Some(Bool(JsonBool(false)))
    else if IsDigit(val[0]) || val[0] == '-' then
      match parse(val)
      case Some(d) => Some(Num(JsonNumber(d)))
      case None => None
    else None
  }

  // ---------------------------------------------------------------------
  // recur_object and recur_list, as functions
  // ---------------------------------------------------------------------

  /** What a reader returns: its bool, the container it filled, and the stream. */
  datatype Parsed<T> = Parsed(ok: bool, value: T, sv: SV)

  /** What the value dispatch produces: the node (None where the reader returns false), the parser and the stream. */
  datatype ValueRead<N> = ValueRead(node: Option<Node<N>>, cfg: Config, sv: SV)

  /** The parser each reader builds: stream_parser(is, "", false, false, true). */
  const OpenConfig: Config := Config([], false, false, true, '\0')

  /** The delimiters of a value inside an object, and inside a list. */
  const ObjectDelims: string := "{}\"[,"
  const ListDelims: string := "{\"[],"

  /**
   * recur_object: discards through '{', then reads members into tbl. A
   * stream that fails before the '{' gives false.
   */
  function ReadObject<N>(sv: SV, tbl: Table<N>, hash: string -> Int32, parse: string -> Option<N>): (r: Parsed<Table<N>>)
    requires |tbl| > 0
    ensures |r.value| == |tbl|
    ensures Measure(r.sv) <= Measure(sv) && (!sv.failed ==> Measure(r.sv) < Measure(sv))
    decreases Measure(sv), 0
  {
    var (cfg, sv1) := DiscardStep(OpenConfig, sv, StreamSizeMax, "{", false);
    DiscardConsumes(OpenConfig, sv, StreamSizeMax, "{");
    if sv1.failed then Parsed(false, tbl, sv1)
    else ObjectMembers(cfg, sv1, tbl, hash, parse)
  }

  /**
   * The while loop of recur_object: a key, a value, the insert, then the
   * separator read with ",}" as delimiters; '}' ends the object.
   */
  function ObjectMembers<N>(cfg: Config, sv: SV, tbl: Table<N>, hash: string -> Int32,
                            parse: string -> Option<N>): (r: Parsed<Table<N>>)
    requires |tbl| > 0 && !cfg.matchAll
    ensures |r.value| == |tbl|
    ensures Measure(r.sv) <= Measure(sv)
    decreases Measure(sv), 2
  {
    if sv.failed then Parsed(true, tbl, sv)
    else
      var (key, sv1) := ParseKey(sv);
      if |key| < 1 then Parsed(false, tbl, sv1)
      else
        var v := ReadValue(cfg, sv1, false, hash, parse);
        if v.node.None? then Parsed(false, tbl, v.sv)
        else
          var tbl1 := TableInsert(tbl, hash, key, v.node.value).0;
          var cfg1 := v.cfg.(delims := ",}");
          var (_, cfg2, sv2) := NextMatchStep(cfg1, v.sv);
          NextMatchShrinks(cfg1, v.sv);
          if sv2.failed then Parsed(false, tbl1, sv2)
          else if cfg2.lastDelim == '}' then Parsed(true, tbl1, sv2)
          else ObjectMembers(cfg2, sv2, tbl1, hash, parse)
  }

  /** recur_list: discards through '[', then reads elements after items. */
  function ReadList<N>(sv: SV, items: seq<Node<N>>, hash: string -> Int32, parse: string -> Option<N>): (r: Parsed<seq<Node<N>>>)
    ensures Measure(r.sv) <= Measure(sv) && (!sv.failed ==> Measure(r.sv) < Measure(sv))
    decreases Measure(sv), 0
  {
    var (cfg, sv1) := DiscardStep(OpenConfig, sv, StreamSizeMax, "[", false);
    DiscardConsumes(OpenConfig, sv, StreamSizeMax, "[");
    if sv1.failed then Parsed(false, items, sv1)
    else ListElements(cfg, sv1, items, hash, parse)
  }

  /**
   * The while loop of recur_list: a value, the push_back, the separator
   * read with ",]" as delimiters; ']' ends the list, ',' is followed by
   * discard(1).
   */
  function ListElements<N>(cfg: Config, sv: SV, items: seq<Node<N>>, hash: string -> Int32,
                           parse: string -> Option<N>): (r: Parsed<seq<Node<N>>>)
    requires !cfg.matchAll
    ensures Measure(r.sv) <= Measure(sv)
    decreases Measure(sv), 2
  {
    if sv.failed then Parsed(true, items, sv)
    else
      var v := ReadValue(cfg, sv, true, hash, parse);
      if v.node.None? then Parsed(false, items, v.sv)
      else
        var items1 := items + [v.node.value];
        var cfg1 := v.cfg.(delims := ",]");
        var (_, cfg2, sv2) := NextMatchStep(cfg1, v.sv);
        NextMatchShrinks(cfg1, v.sv);
        if sv2.failed then Parsed(false, items1, sv2)
        else if cfg2.lastDelim == ']' then Parsed(true, items1, sv2)
        else if cfg2.lastDelim == ',' then
          var (cfg3, sv3) := DiscardStep(cfg2, sv2, 1, "", true);
          ListElements(cfg3, sv3, items1, hash, parse)
        else ListElements(cfg2, sv2, items1, hash, parse)
  }

  /**
   * One value: read with keep-delims and skip-whitespace on, then
   * dispatched on the delimiter that ended the read. '{' and '[' read a
   * nested container whose own result is not looked at; '"' reads a
   * string up to the next '"'; ',' or the container's closer make the
   * token a primitive; anything else is refused.
   */
  function ReadValue<N>(cfg: Config, sv: SV, inList: bool, hash: string -> Int32,
                        parse: string -> Option<N>): (r: ValueRead<N>)
    requires !cfg.matchAll
    ensures !r.cfg.matchAll
    ensures Measure(r.sv) <= Measure(sv)
    ensures r.node.Some? ==> Measure(r.sv) < Measure(sv)
    decreases Measure(sv), 1
  {
    var cfg1 := cfg.(delims := if inList then ListDelims else ObjectDelims, keepDelim := true, skipWs := true);
    var (val, cfg2, sv2) := NextMatchStep(cfg1, sv);
    NextMatchShrinks(cfg1, sv);
    if sv2.failed then ValueRead(None, cfg2, sv2)
    else
      var c := cfg2.lastDelim;
      if c == '{' then
        var child := ReadObject(sv2, EmptyTable(), hash, parse);
        ValueRead(Some(Obj(Flatten(child.value))), cfg2, child.sv)
      else if c == '[' then
        var child := ReadList(sv2, [], hash, parse);
        ValueRead(Some(List(child.value)), cfg2, child.sv)
      else if c == '"' then QuotedValue(cfg2, sv2)
      else if c == ',' || c == (if inList then ']' else '}') then
        TokenConsumes(cfg1, sv);
        ValueRead(Primitive(val, parse), cfg2, sv2)
      else ValueRead(None, cfg2, sv2)
  }

  /**
   * The string branch of the value dispatch, the stream standing at the
   * opening '"': discard(1) drops it, then the string is read up to the
   * next '"' with keep-delims off; a failed read or an empty string gives
   * false.
   */
  function QuotedValue<N>(cfg: Config, sv: SV): (r: ValueRead<N>)
    requires !cfg.matchAll
    ensures !r.cfg.matchAll
    ensures Measure(r.sv) <= Measure(sv)
    ensures r.node.Some? ==> Measure(r.sv) < Measure(sv) && r.node.value.Str?
  {
    var (cfg3, sv3) := DiscardStep(cfg, sv, 1, "", true);
    var cfg4 := cfg3.(delims := "\"", keepDelim := false);
    var (s, cfg5, sv5) := NextMatchStep(cfg4, sv3);
    NextMatchShrinks(cfg4, sv3);
    if sv5.failed || |s| < 1 then ValueRead(None, cfg5, sv5)
    else ValueRead(Some(Str(JsonString(s))), cfg5, sv5)
  }

  /** A discard through a delimiter that does not put it back consumes at least one character when the stream stays good. */
  lemma DiscardConsumes(cfg: Config, sv: SV, cnt: nat, d: seq<char>)
    requires cnt > 0
    ensures var r := DiscardStep(cfg, sv, cnt, d, false);
      !r.1.failed ==> Measure(r.1) < Measure(sv)
  {
  }

  /** match_any with skip-whitespace: a non-empty token means characters were consumed. */
  lemma TokenConsumes(cfg: Config, sv: SV)
    requires !cfg.matchAll
    ensures var r := NextMatchStep(cfg, sv);
      |r.0| > 0 && !r.2.failed ==> Measure(r.2) < Measure(sv)
  {
    if !sv.failed {
      MatchAnyClosedForm(cfg, sv.rest);
    }
  }

  // ---------------------------------------------------------------------
  // The object
  // ---------------------------------------------------------------------

  /** basic_json_object: the Object type tag and the property table. */
  class JsonObject<N> {
    /** properties_. */
    var props: Table<N>
    /** string_hash, an abstract deterministic function in this model. */
    const hash: string -> Int32

    /** The table keeps its Capacity slots. */
    ghost predicate Valid()
      reads this
    {
      |props| == Capacity
    }

    /** basic_json_object(): an empty table of 1024 slots. */
    constructor (hash: string -> Int32)
      ensures Valid() && props == EmptyTable() && this.hash == hash
    {
      props := EmptyTable();
      this.hash := hash;
    }

    /** get_type. */
    function Kind(): (k: Kind)
      ensures k == KindOf<N>(Obj([]))
    {
      Object
    }

    /** The node this object is in a tree: its members in iteration order. */
    function Value(): (n: Node<N>)
      reads this
      ensures n.Obj? && n.members == Flatten(props)
    {
      Obj(Flatten(props))
    }

    /** to_string: the text to_string_recur writes for this object at level 0, or "" if it reports failure. */
    method ToString(format: N -> string) returns (s: string)
      ensures s == Render(Value(), 0, false, format)
    {
      var out, ok := ToStringRecur(Value(), "", 0, false, format);
      if ok {
        return out;
      }
      return "";
    }

    /** add_property: properties_.insert, which keeps an existing value for the key. */
    method AddProperty(key: string, val: Node<N>)
      requires Valid()
      modifies this
      ensures Valid() && props == TableInsert(old(props), hash, key, val).0
    {
      props := TableInsert(props, hash, key, val).0;
    }

    /**
     * get_property and operator[]: the value stored for key. The table's
     * operator[] dereferences a null node for an absent key, so the key
     * must be present.
     */
    method GetProperty(key: string) returns (v: Node<N>)
      requires Valid() && TableLookup(props, hash, key).Some?
      ensures Some(v) == TableLookup(props, hash, key)
    {
      v := TableLookup(props, hash, key).value;
    }

    /** get_object: the value for key when it is an object; otherwise invalid_argument is thrown. */
    method GetObject(key: string) returns (r: Result<Node<N>, string>)
      requires Valid() && TableLookup(props, hash, key).Some?
      ensures var v := TableLookup(props, hash, key).value;
        r == if v.Obj? then Ok(v) else Err("Value with key name '" + key + "' is not a json_object.")
    {
      var v := GetProperty(key);
      if !v.Obj? {
        return Err("Value with key name '" + key + "' is not a json_object.");
      }
      r := Ok(v);
    }

    /** deserialize: clears the table, then runs recur_object on this object. */
    method Deserialize(input: CharStream, parse: string -> Option<N>) returns (ok: bool)
      requires Valid() && input.Valid()
      modifies this, input
      ensures Valid() && input.Valid()
      ensures var r := ReadObject(old(input.View()), EmptyTable(), hash, parse);
        ok == r.ok && props == r.value && input.View() == r.sv
    {
      props := seq(|props|, _ => []);
      assert props == EmptyTable();
      ok := RecurObject(this, input, parse);
    }
  }

  // ---------------------------------------------------------------------
  // The readers, step by step
  // ---------------------------------------------------------------------

  /** parse_key on the stream. */
  method ParseKeyRun(input: CharStream) returns (key: string)
    requires input.Valid()
    modifies input
    ensures input.Valid() && (key, input.View()) == ParseKey(old(input.View()))
  {
    var parser := new StreamParser(input);
    parser.SetDelims(":");
    parser.NoSkipWs();
    var k := parser.NextMatch();
    if !input.Good() || |k| < 1 {
      return "";
    }
    key := Dequote(k);
  }

  /** recur_object(obj, is). */
  method RecurObject<N>(obj: JsonObject<N>, input: CharStream, parse: string -> Option<N>) returns (ok: bool)
    requires obj.Valid() && input.Valid()
    modifies obj, input
    ensures obj.Valid() && input.Valid()
    ensures var r := ReadObject(old(input.View()), old(obj.props), obj.hash, parse);
      ok == r.ok && obj.props == r.value && input.View() == r.sv
    decreases Measure(input.View()), 0
  {
    var parser := new StreamParser.WithOptions(input, [], false, false, true);
    parser.DiscardThrough("{", false);
    DiscardConsumes(OpenConfig, old(input.View()), StreamSizeMax, "{");
    if !input.Good() {
      return false;
    }
    ghost var target := ObjectMembers(parser.Settings(), input.View(), obj.props, obj.hash, parse);
    while input.Good()
      invariant input.Valid() && obj.Valid() && parser.stream == input && !parser.matchAll
      invariant Measure(input.View()) < Measure(old(input.View()))
      invariant ObjectMembers(parser.Settings(), input.View(), obj.props, obj.hash, parse) == target
      decreases Measure(input.View())
    {
      var done;
      done, ok := MemberStep(obj, parser, parse);
      if done {
        return;
      }
    }
    ok := true;
  }

  /** One pass of recur_object's loop: whether it returned, and what. */
  method MemberStep<N>(obj: JsonObject<N>, parser: StreamParser, parse: string -> Option<N>) returns (done: bool, ok: bool)
    requires obj.Valid() && parser.stream.Valid() && !parser.stream.failed && !parser.matchAll
    modifies obj, parser, parser.stream
    ensures obj.Valid() && parser.stream.Valid() && !parser.matchAll
    ensures var r := ObjectMembers(old(parser.Settings()), old(parser.stream.View()), old(obj.props), obj.hash, parse);
      if done then r == Parsed(ok, obj.props, parser.stream.View())
      else && r == ObjectMembers(parser.Settings(), parser.stream.View(), obj.props, obj.hash, parse)
           && !parser.stream.failed && Measure(parser.stream.View()) < old(Measure(parser.stream.View()))
    decreases Measure(parser.stream.View()), 2
  {
    var key := ParseKeyRun(parser.stream);
    if |key| < 1 {
      return true, false;
    }
    var node := ReadValueRun(parser, false, obj.hash, parse);
    if node.None? {
      return true, false;
    }
    obj.props := TableInsert(obj.props, obj.hash, key, node.value).0;
    parser.SetDelims(",}");
    ghost var cfg1 := parser.Settings();
    ghost var sv1 := parser.stream.View();
    var _ := parser.NextMatch();
    NextMatchShrinks(cfg1, sv1);
    if !parser.stream.Good() {
      return true, false;
    }
    if parser.GetLastDelim() == '}' {
      return true, true;
    }
    return false, false;
  }

  /** recur_list(list, is). */
  method RecurList<N>(list: JsonList<N>, input: CharStream, hash: string -> Int32, parse: string -> Option<N>)
    returns (ok: bool)
    requires input.Valid()
    modifies list, input
    ensures input.Valid()
    ensures var r := ReadList(old(input.View()), old(list.values), hash, parse);
      ok == r.ok && list.values == r.value && input.View() == r.sv
    decreases Measure(input.View()), 0
  {
    var parser := new StreamParser.WithOptions(input, [], false, false, true);
    parser.DiscardThrough("[", false);
    DiscardConsumes(OpenConfig, old(input.View()), StreamSizeMax, "[");
    if !input.Good() {
      return false;
    }
    ghost var target := ListElements(parser.Settings(), input.View(), list.values, hash, parse);
    while input.Good()
      invariant input.Valid() && parser.stream == input && !parser.matchAll
      invariant Measure(input.View()) < Measure(old(input.View()))
      invariant ListElements(parser.Settings(), input.View(), list.values, hash, parse) == target
      decreases Measure(input.View())
    {
      var done;
      done, ok := ElementStep(list, parser, hash, parse);
      if done {
        return;
      }
    }
    ok := true;
  }

  /** One pass of recur_list's loop: whether it returned, and what. */
  method ElementStep<N>(list: JsonList<N>, parser: StreamParser, hash: string -> Int32, parse: string -> Option<N>)
    returns (done: bool, ok: bool)
    requires parser.stream.Valid() && !parser.stream.failed && !parser.matchAll
    modifies list, parser, parser.stream
    ensures parser.stream.Valid() && !parser.matchAll
    ensures var r := ListElements(old(parser.Settings()), old(parser.stream.View()), old(list.values), hash, parse);
      if done then r == Parsed(ok, list.values, parser.stream.View())
      else && r == ListElements(parser.Settings(), parser.stream.View(), list.values, hash, parse)
           && Measure(parser.stream.View()) < old(Measure(parser.stream.View()))
    decreases Measure(parser.stream.View()), 2
  {
    var node := ReadValueRun(parser, true, hash, parse);
    if node.None? {
      return true, false;
    }
    list.PushBack(node.value);
    parser.SetDelims(",]");
    ghost var cfg1 := parser.Settings();
    ghost var sv1 := parser.stream.View();
    var _ := parser.NextMatch();
    NextMatchShrinks(cfg1, sv1);
    if !parser.stream.Good() {
      return true, false;
    }
    if parser.GetLastDelim() == ']' {
      return true, true;
    }
    if parser.GetLastDelim() == ',' {
      parser.Discard(1, "", true);
    }
    return false, false;
  }

  /** The value dispatch shared by both loops. */
  method ReadValueRun<N>(parser: StreamParser, inList: bool, hash: string -> Int32, parse: string -> Option<N>)
    returns (node: Option<Node<N>>)
    requires parser.stream.Valid() && !parser.matchAll
    modifies parser, parser.stream
    ensures parser.stream.Valid()
    ensures var r := ReadValue(old(parser.Settings()), old(parser.stream.View()), inList, hash, parse);
      node == r.node && parser.Settings() == r.cfg && parser.stream.View() == r.sv
    decreases Measure(parser.stream.View()), 1
  {
    ghost var sv0 := parser.stream.View();
    parser.SetDelims(if inList then ListDelims else ObjectDelims);
    parser.SetKeepDelims(true);
    parser.SkipWs();
    ghost var cfg1 := parser.Settings();
    var val := parser.NextMatch();
    NextMatchShrinks(cfg1, sv0);
    if !parser.stream.Good() {
      return None;
    }
    var c := parser.GetLastDelim();
    if c == '{' {
      var child := new JsonObject(hash);
      var _ := RecurObject(child, parser.stream, parse);
      node := Some(child.Value());
    } else if c == '[' {
      var child := new JsonList();
      var _ := RecurList(child, parser.stream, hash, parse);
      node := Some(child.Value());
    } else if c == '"' {
      node := QuotedValueRun(parser);
    } else if c == ',' || c == (if inList then ']' else '}') {
      node := Primitive(val, parse);
    } else {
      node := None;
    }
  }

  /** The string branch of the value dispatch, the stream standing at the opening '"'. */
  method QuotedValueRun<N>(parser: StreamParser) returns (node: Option<Node<N>>)
    requires parser.stream.Valid() && !parser.matchAll
    modifies parser, parser.stream
    ensures parser.stream.Valid()
    ensures var r := QuotedValue(old(parser.Settings()), old(parser.stream.View()));
      node == r.node && parser.Settings() == r.cfg && parser.stream.View() == r.sv
  {
    parser.Discard(1, "", true);
    parser.SetDelims("\"");
    parser.SetKeepDelims(false);
    ghost var cfg4 := parser.Settings();
    ghost var sv3 := parser.stream.View();
    var s := parser.NextMatch();
    NextMatchShrinks(cfg4, sv3);
    if !parser.stream.Good() || |s| < 1 {
      return None;
    }
    node := Some(Str(JsonString(s)));
  }
}
