// What the reader of basic_json_object accepts and what it builds: the
// properties of ReadObject, ReadList and ReadValue over concrete shapes of
// input, including the text the serializer writes. The step lemmas at the
// top give the outcome of one stream_parser call on a stream whose next
// delimiter is known; the lemmas after them chain those steps.
module JsonReading {
  import opened Wrappers
  import opened Chars
  import opened StringUtil
  import opened StreamParsing
  import opened HashMaps
  import opened JsonPrimitives
  import opened JsonNodes
  import opened JsonSerializer
  import opened JsonObjects

  /** No character of t is one of ds. */
  predicate NoneOf(t: seq<char>, ds: seq<char>)
  {
    forall j :: 0 <= j < |t| ==> t[j] !in ds
  }

  // ---------------------------------------------------------------------
  // One parser call
  // ---------------------------------------------------------------------

  /** match_any stops at the first delimiter d after t: the token is t, d is recorded, and d stays in the stream only with keep-delims. */
  lemma MatchHit(cfg: Config, t: seq<char>, d: char, rest: seq<char>)
    requires !cfg.matchAll && NoneOf(t, cfg.delims) && d in cfg.delims
    ensures NextMatchStep(cfg, SV(t + [d] + rest, false)) ==
      (if cfg.skipWs then DropLeadingSpace(t) else t, cfg.(lastDelim := d),
       SV(if cfg.keepDelim then [d] + rest else rest, false))
  {
    var s := t + [d] + rest;
    FirstInAt(s, cfg.delims, |t|);
    MatchAnyClosedForm(cfg, s);
    CutAtDelim(t, d, rest);
  }

  /** match_any that meets no delimiter reads everything and leaves the stream failed. */
  lemma MatchMiss(cfg: Config, t: seq<char>)
    requires !cfg.matchAll && NoneOf(t, cfg.delims)
    ensures NextMatchStep(cfg, SV(t, false)) == (if cfg.skipWs then DropLeadingSpace(t) else t, cfg, SV([], true))
  {
    FirstInAt(t, cfg.delims, |t|);
    MatchAnyClosedForm(cfg, t);
    assert t[..|t|] == t;
  }

  /** discard through the first delimiter d after t, within the count. */
  lemma DiscardHit(cfg: Config, t: seq<char>, d: char, rest: seq<char>, cnt: nat, delims: seq<char>, keep: bool)
    requires NoneOf(t, delims) && d in delims && |t| < cnt
    ensures DiscardStep(cfg, SV(t + [d] + rest, false), cnt, delims, keep) ==
      (cfg.(delims := delims, lastDelim := d), SV(if keep then [d] + rest else rest, false))
  {
    var s := t + [d] + rest;
    FirstInAt(s, delims, |t|);
    CutAtDelim(t, d, rest);
  }

  /** discard through a delimiter that never comes fails the stream. */
  lemma DiscardMiss(cfg: Config, t: seq<char>, delims: seq<char>, keep: bool)
    requires NoneOf(t, delims) && |t| < StreamSizeMax
    ensures DiscardStep(cfg, SV(t, false), StreamSizeMax, delims, keep) == (cfg.(delims := delims), SV([], true))
  {
    FirstInAt(t, delims, |t|);
  }

  /** discard(1): one character goes, whatever it is, and the delimiters become empty. */
  lemma DiscardOne(cfg: Config, c: char, rest: seq<char>)
    ensures DiscardStep(cfg, SV([c] + rest, false), 1, "", true) == (cfg.(delims := ""), SV(rest, false))
  {
    FirstInAt([c] + rest, "", |[c] + rest|);
  }

  // ---------------------------------------------------------------------
  // dequote_string and parse_key
  // ---------------------------------------------------------------------

  /** The text between the first and the last '"' is returned whole, quotes inside it included. */
  lemma DequoteBetween(a: string, k: string, b: string)
    requires '"' !in a && '"' !in b
    ensures Dequote(a + "\"" + k + "\"" + b) == k
  {
    var s := a + "\"" + k + "\"" + b;
    FindFirstOccurrence(s, '"');
    assert s[|a|] == '"';
    assert forall j :: 0 <= j < |a| ==> s[j] == a[j];
    var start := Find(s, '"');
    assert start == |a|;
    var end := LastIndexOf(s, '"');
    assert s[|a| + 1 + |k|] == '"';
    assert forall j :: |a| + 1 + |k| < j < |s| ==> s[j] == b[j - |a| - 2 - |k|];
    assert end == |a| + 1 + |k|;
    assert s[start + 1..end] == k;
  }

  /** With fewer than two '"', nothing is between them: the key is "". */
  lemma DequoteSingle(a: string, b: string)
    requires '"' !in a && '"' !in b
    ensures Dequote(a) == "" && Dequote(a + "\"" + b) == ""
  {
    FindFirstOccurrence(a, '"');
    var s := a + "\"" + b;
    FindFirstOccurrence(s, '"');
    assert s[|a|] == '"';
    assert forall j :: 0 <= j < |a| ==> s[j] == a[j];
    assert Find(s, '"') == |a|;
    var end := LastIndexOf(s, '"');
    assert forall j :: |a| < j < |s| ==> s[j] == b[j - |a| - 1];
  }

  /** parse_key reads up to the first ':', which it consumes, and dequotes what it read. */
  lemma KeyRead(t: string, rest: string)
    requires ':' !in t && |t| > 0
    ensures ParseKey(SV(t + [':'] + rest, false)) == (Dequote(t), SV(rest, false))
  {
    MatchHit(KeyConfig, t, ':', rest);
  }

  /** Without a ':' the key read fails the stream and gives "". */
  lemma KeyMissing(t: string)
    requires ':' !in t
    ensures ParseKey(SV(t, false)) == ("", SV([], true))
  {
    MatchMiss(KeyConfig, t);
  }

  // ---------------------------------------------------------------------
  // Primitive values
  // ---------------------------------------------------------------------

  /** A primitive token is Boolean true when it begins with "true", otherwise a Number exactly when it begins with a digit or '-' and parses. */
  lemma PrimitiveCases<N>(val: string, parse: string -> Option<N>)
    ensures Primitive(val, parse).Some? <==>
      (|val| >= 4 && val[..4] == "true") ||
      (|val| > 0 && (IsDigit(val[0]) || val[0] == '-') && parse(val).Some?)
    ensures |val| >= 4 && val[..4] == "true" ==> Primitive(val, parse) == Some(Bool(JsonBool(true)))
    ensures Primitive(val, parse).Some? && Primitive(val, parse).value.Num? ==>
      parse(val) == Some(Primitive(val, parse).value.num.value)
  {
    if |val| >= 1 && |val| < 4 {
      assert val[..|val|] == val;
      assert |val[..|val|]| < 4;
    }
  }

  /**
   * The test for "false" compares at most four characters with a
   * five-character literal, so the reader never produces a false Boolean.
   */
  lemma PrimitiveNeverFalse<N>(val: string, parse: string -> Option<N>)
    ensures Primitive(val, parse) != Some(Bool(JsonBool(false)))
  {
    var n := if 4 < |val| then 4 else |val|;
    assert |val[..n]| <= 4 < |"false"|;
  }

  /** The primitive branch with the "false" test comparing five characters, as the literal needs. */
  function IntendedPrimitive<N>(val: string, parse: string -> Option<N>): Option<Node<N>>
  {
    if |val| < 1 then None
    else if HeadIs(val, 4, "true") then Some(Bool(JsonBool(true)))
    else if HeadIs(val, 5, "false") then Some(Bool(JsonBool(false)))
    else if IsDigit(val[0]) || val[0] == '-' then
      match parse(val)
      case Some(d) => Some(Num(JsonNumber(d)))
      case None => None
    else None
  }

  /**
   * With five characters compared, a token beginning with "false" is
   * Boolean false; every other token is read as before.
   */
  lemma IntendedPrimitiveFalse<N>(val: string, parse: string -> Option<N>)
    ensures |val| >= 5 && val[..5] == "false" ==> IntendedPrimitive(val, parse) == Some(Bool(JsonBool(false)))
    ensures !(|val| >= 5 && val[..5] == "false") ==> IntendedPrimitive(val, parse) == Primitive(val, parse)
  {
    var n := if 4 < |val| then 4 else |val|;
    assert |val[..n]| <= 4 < |"false"|;
    if |val| >= 5 && val[..5] == "false" {
      assert val[..4] == "fals";
    } else if |val| < 5 {
      assert val[..|val|] == val;
    }
  }

  /**
   * A Boolean is written as "1" or "0", which the reader takes for a
   * number: what was a Boolean comes back as a Number, or is refused.
   */
  lemma BoolReadsAsNumber<N>(b: bool, parse: string -> Option<N>)
    ensures var s := JsonBool(b).ToString();
      Primitive(s, parse) == if parse(s).Some? then Some(Num(JsonNumber(parse(s).value))) else None
  {
    var s := JsonBool(b).ToString();
    assert s[..1] == s;
  }

  // ---------------------------------------------------------------------
  // One member, one element
  // ---------------------------------------------------------------------

  /** The delimiters of a value read, in a list or in an object. */
  function ValueDelims(inList: bool): string
  {
    if inList then ListDelims else ObjectDelims
  }

  /**
   * A string value: the value read stops at the opening '"', discard(1)
   * drops it, and the string runs to the next '"', which is consumed; the
   * string is refused when nothing but whitespace is in it.
   */
  lemma StringValue<N>(cfg: Config, s: string, ws: string, r2: string, v: string, rest: string,
                       inList: bool, hash: string -> Int32, parse: string -> Option<N>)
    requires !cfg.matchAll
    requires s == ws + ['"'] + r2 && r2 == v + ['"'] + rest
    requires NoneOf(ws, ValueDelims(inList)) && '"' !in v
    ensures ReadValue(cfg, SV(s, false), inList, hash, parse) ==
      ValueRead(if DropLeadingSpace(v) == [] then None else Some(Str(JsonString(DropLeadingSpace(v)))),
                cfg.(delims := "\"", keepDelim := false, skipWs := true, lastDelim := '"'), SV(rest, false))
  {
    var cfg1 := cfg.(delims := ValueDelims(inList), keepDelim := true, skipWs := true);
    MatchHit(cfg1, ws, '"', r2);
    QuotedString<N>(cfg1.(lastDelim := '"'), v, rest);
  }

  /** The string branch on a stream standing at '"' + v + '"'. */
  lemma QuotedString<N>(cfg: Config, v: string, rest: string)
    requires !cfg.matchAll && cfg.skipWs && '"' !in v
    ensures QuotedValue<N>(cfg, SV(['"'] + (v + ['"'] + rest), false)) ==
      ValueRead(if DropLeadingSpace(v) == [] then None else Some(Str(JsonString(DropLeadingSpace(v)))),
                cfg.(delims := "\"", keepDelim := false, lastDelim := '"'), SV(rest, false))
  {
    DiscardOne(cfg, '"', v + ['"'] + rest);
    var cfg4 := cfg.(delims := "\"", keepDelim := false);
    assert NoneOf(v, cfg4.delims);
    MatchHit(cfg4, v, '"', rest);
  }

  /**
   * A primitive value: the read stops at the ',' or the closer after the
   * token and keeps it in the stream; Primitive decides the node.
   */
  lemma PrimitiveValue<N>(cfg: Config, s: string, t: string, d: char, rest: string,
                          inList: bool, hash: string -> Int32, parse: string -> Option<N>)
    requires !cfg.matchAll
    requires s == t + [d] + rest && NoneOf(t, ValueDelims(inList))
    requires d == ',' || d == (if inList then ']' else '}')
    ensures ReadValue(cfg, SV(s, false), inList, hash, parse) ==
      ValueRead(Primitive(DropLeadingSpace(t), parse),
                cfg.(delims := ValueDelims(inList), keepDelim := true, skipWs := true, lastDelim := d), SV([d] + rest, false))
  {
    var cfg1 := cfg.(delims := ValueDelims(inList), keepDelim := true, skipWs := true);
    MatchHit(cfg1, t, d, rest);
  }

  /** A nested container: the value read stops at the '{' or '[' and hands the stream, opener included, to the nested reader. */
  lemma NestedValue<N>(cfg: Config, s: string, ws: string, c: char, r2: string,
                       inList: bool, hash: string -> Int32, parse: string -> Option<N>)
    requires !cfg.matchAll
    requires s == ws + [c] + r2 && NoneOf(ws, ValueDelims(inList)) && (c == '{' || c == '[')
    ensures var cfg2 := cfg.(delims := ValueDelims(inList), keepDelim := true, skipWs := true, lastDelim := c);
      ReadValue(cfg, SV(s, false), inList, hash, parse) ==
      if c == '{' then
        var child := ReadObject(SV([c] + r2, false), EmptyTable(), hash, parse);
        ValueRead(Some(Obj(Flatten(child.value))), cfg2, child.sv)
      else
        var child := ReadList(SV([c] + r2, false), [], hash, parse);
        ValueRead(Some(List(child.value)), cfg2, child.sv)
  {
    var cfg1 := cfg.(delims := ValueDelims(inList), keepDelim := true, skipWs := true);
    MatchHit(cfg1, ws, c, r2);
  }

  /**
   * One member whose value is a string: parse_key reads keyText up to the
   * ':', the string value follows, and the separator read consumes the
   * ',' or '}' after it. The member is inserted; '}' ends the object and
   * ',' goes on to the next member.
   */
  lemma StringMember<N>(cfg: Config, s: string, keyText: string, r1: string, ws: string, r2: string,
                        v: string, r3: string, u: string, d: char, rest: string,
                        tbl: Table<N>, hash: string -> Int32, parse: string -> Option<N>)
    requires !cfg.matchAll && |tbl| > 0
    requires s == keyText + [':'] + r1 && r1 == ws + ['"'] + r2 && r2 == v + ['"'] + r3 && r3 == u + [d] + rest
    requires ':' !in keyText && Dequote(keyText) != ""
    requires NoneOf(ws, ObjectDelims) && '"' !in v && DropLeadingSpace(v) != []
    requires NoneOf(u, ",}") && (d == ',' || d == '}')
    ensures var tbl1 := TableInsert(tbl, hash, Dequote(keyText), Str(JsonString(DropLeadingSpace(v)))).0;
      ObjectMembers(cfg, SV(s, false), tbl, hash, parse) ==
        if d == '}' then Parsed(true, tbl1, SV(rest, false))
        else ObjectMembers(Config(",}", false, false, true, ','), SV(rest, false), tbl1, hash, parse)
  {
    assert keyText != [];
    KeyRead(keyText, r1);
    StringValue(cfg, r1, ws, r2, v, r3, false, hash, parse);
    var cfg5 := cfg.(delims := ",}", keepDelim := false, skipWs := true, lastDelim := '"');
    MatchHit(cfg5, u, d, rest);
  }

  /**
   * One member whose value is a primitive token t: the value read keeps
   * the ',' or '}' after t in the stream, and the separator read finds it
   * again and leaves it there. A token Primitive refuses makes the object
   * fail.
   */
  lemma PrimitiveMember<N>(cfg: Config, s: string, keyText: string, r1: string, t: string, d: char, rest: string,
                           tbl: Table<N>, hash: string -> Int32, parse: string -> Option<N>)
    requires !cfg.matchAll && |tbl| > 0
    requires s == keyText + [':'] + r1 && r1 == t + [d] + rest
    requires ':' !in keyText && Dequote(keyText) != ""
    requires NoneOf(t, ObjectDelims) && (d == ',' || d == '}')
    ensures var p := Primitive(DropLeadingSpace(t), parse);
      ObjectMembers(cfg, SV(s, false), tbl, hash, parse) ==
        if p.None? then Parsed(false, tbl, SV([d] + rest, false))
        else
          var tbl1 := TableInsert(tbl, hash, Dequote(keyText), p.value).0;
          if d == '}' then Parsed(true, tbl1, SV([d] + rest, false))
          else ObjectMembers(Config(",}", false, true, true, ','), SV([d] + rest, false), tbl1, hash, parse)
  {
    assert keyText != [];
    KeyRead(keyText, r1);
    PrimitiveValue(cfg, r1, t, d, rest, false, hash, parse);
    MatchHit(cfg.(delims := ",}", keepDelim := true, skipWs := true, lastDelim := d), [], d, rest);
    assert [] + [d] + rest == [d] + rest;
  }

  /**
   * One member whose value is an object, where the nested reader stops in
   * front of a '}' it left in the stream: the separator read of the outer
   * object finds that '}', and the outer object ends there too, whatever
   * follows.
   */
  lemma NestedMemberEndsOuter<N>(cfg: Config, s: string, keyText: string, r1: string, ws: string, r2: string,
                                 child: Table<N>, rest: string,
                                 tbl: Table<N>, hash: string -> Int32, parse: string -> Option<N>)
    requires !cfg.matchAll && |tbl| > 0
    requires s == keyText + [':'] + r1 && r1 == ws + ['{'] + r2
    requires ':' !in keyText && Dequote(keyText) != "" && NoneOf(ws, ObjectDelims)
    requires ReadObject(SV(['{'] + r2, false), EmptyTable(), hash, parse) == Parsed(true, child, SV(['}'] + rest, false))
    ensures ObjectMembers(cfg, SV(s, false), tbl, hash, parse) ==
      Parsed(true, TableInsert(tbl, hash, Dequote(keyText), Obj(Flatten(child))).0, SV(['}'] + rest, false))
  {
    assert keyText != [];
    KeyRead(keyText, r1);
    NestedValue(cfg, r1, ws, '{', r2, false, hash, parse);
    MatchHit(cfg.(delims := ",}", keepDelim := true, skipWs := true, lastDelim := '{'), [], '}', rest);
    assert [] + ['}'] + rest == ['}'] + rest;
  }

  /**
   * One list element that is a string. After a ',' recur_list discards
   * one more character, the one that follows the comma, whatever it is;
   * a stream that ends right after the comma fails there, which ends the
   * loop with true.
   */
  lemma StringElement<N>(cfg: Config, s: string, ws: string, r2: string, v: string, r3: string, u: string,
                         d: char, rest: string, items: seq<Node<N>>, hash: string -> Int32, parse: string -> Option<N>)
    requires !cfg.matchAll
    requires s == ws + ['"'] + r2 && r2 == v + ['"'] + r3 && r3 == u + [d] + rest
    requires NoneOf(ws, ListDelims) && '"' !in v && DropLeadingSpace(v) != []
    requires NoneOf(u, ",]") && (d == ',' || d == ']')
    ensures var items1 := items + [Str(JsonString(DropLeadingSpace(v)))];
      ListElements(cfg, SV(s, false), items, hash, parse) ==
        if d == ']' then Parsed(true, items1, SV(rest, false))
        else if rest == [] then Parsed(true, items1, SV([], true))
        else ListElements(Config("", false, false, true, ','), SV(rest[1..], false), items1, hash, parse)
  {
    StringValue(cfg, s, ws, r2, v, r3, true, hash, parse);
    var cfg5 := cfg.(delims := ",]", keepDelim := false, skipWs := true, lastDelim := '"');
    MatchHit(cfg5, u, d, rest);
    if d == ',' && rest != [] {
      DiscardOne(cfg5.(lastDelim := d), rest[0], rest[1..]);
      assert [rest[0]] + rest[1..] == rest;
    }
  }

  /**
   * A string element whose opening '"' was already taken by the discard(1)
   * after a comma: the value read stops at its closing '"' instead, the
   * string branch looks for a '"' further on, and with none left the list
   * fails.
   */
  lemma ElementQuoteEaten<N>(cfg: Config, s: string, t: string, u: string,
                             items: seq<Node<N>>, hash: string -> Int32, parse: string -> Option<N>)
    requires !cfg.matchAll
    requires s == t + ['"'] + u && NoneOf(t, ListDelims) && '"' !in u
    ensures ListElements(cfg, SV(s, false), items, hash, parse) == Parsed(false, items, SV([], true))
  {
    var cfg1 := cfg.(delims := ListDelims, keepDelim := true, skipWs := true);
    MatchHit(cfg1, t, '"', u);
    QuoteUnclosed<N>(cfg1.(lastDelim := '"'), u);
  }

  /** The string branch with no closing '"' left: the read fails the stream and gives no node. */
  lemma QuoteUnclosed<N>(cfg: Config, u: string)
    requires !cfg.matchAll && '"' !in u
    ensures QuotedValue<N>(cfg, SV(['"'] + u, false)).node == None
    ensures QuotedValue<N>(cfg, SV(['"'] + u, false)).sv == SV([], true)
  {
    DiscardOne(cfg, '"', u);
    var cfg4 := cfg.(delims := "\"", keepDelim := false);
    assert NoneOf(u, cfg4.delims);
    MatchMiss(cfg4, u);
  }

  // ---------------------------------------------------------------------
  // What the reader refuses
  // ---------------------------------------------------------------------

  /** A run of whitespace loses all of it. */
  lemma DropAllSpace(t: string)
    requires forall j :: 0 <= j < |t| ==> IsSpace(t[j])
    ensures DropLeadingSpace(t) == []
  {
    DropLeadingSpaceSpec(t);
  }

  /**
   * An object with no ':' after its '{' fails at its first key, so the
   * empty object "{}", and "{\n\n}" as the serializer writes it, are both
   * refused.
   */
  lemma EmptyObjectRejected<N>(pre: string, t: string, tbl: Table<N>, hash: string -> Int32, parse: string -> Option<N>)
    requires '{' !in pre && |pre| < StreamSizeMax && ':' !in t && |tbl| > 0
    ensures ReadObject(SV(pre + ['{'] + t, false), tbl, hash, parse) == Parsed(false, tbl, SV([], true))
  {
    assert NoneOf(pre, "{");
    DiscardHit(OpenConfig, pre, '{', t, StreamSizeMax, "{", false);
    KeyMissing(t);
  }

  /**
   * A first key whose text dequotes to "" makes the object fail: a key
   * written "" (DequoteBetween with an empty middle) and a key without two
   * quotes (DequoteSingle) alike.
   */
  lemma EmptyKeyRejected<N>(pre: string, keyText: string, rest: string, tbl: Table<N>,
                            hash: string -> Int32, parse: string -> Option<N>)
    requires '{' !in pre && |pre| < StreamSizeMax && ':' !in keyText && Dequote(keyText) == "" && |tbl| > 0
    ensures ReadObject(SV(pre + ['{'] + (keyText + [':'] + rest), false), tbl, hash, parse) == Parsed(false, tbl, SV(rest, false))
  {
    assert NoneOf(pre, "{");
    DiscardHit(OpenConfig, pre, '{', keyText + [':'] + rest, StreamSizeMax, "{", false);
    MatchHit(KeyConfig, keyText, ':', rest);
  }

  /**
   * A list with only whitespace between '[' and ']' reads an empty
   * primitive, which is refused: "[]", and "[\n   \n ]" as the
   * serializer writes an empty list, both fail.
   */
  lemma EmptyListRejected<N>(pre: string, t: string, rest: string, items: seq<Node<N>>,
                             hash: string -> Int32, parse: string -> Option<N>)
    requires '[' !in pre && |pre| < StreamSizeMax
    requires forall j :: 0 <= j < |t| ==> IsSpace(t[j])
    ensures ReadList(SV(pre + ['['] + (t + [']'] + rest), false), items, hash, parse) == Parsed(false, items, SV([']'] + rest, false))
  {
    assert NoneOf(pre, "[");
    DiscardHit(OpenConfig, pre, '[', t + [']'] + rest, StreamSizeMax, "[", false);
    assert NoneOf(t, ValueDelims(true));
    PrimitiveValue(OpenConfig.(delims := "[", lastDelim := '['), t + [']'] + rest, t, ']', rest, true, hash, parse);
    DropAllSpace(t);
  }

  // ---------------------------------------------------------------------
  // Inputs read through
  // ---------------------------------------------------------------------

  /** A string the reader gives back unchanged between quotes: not empty, no '"', no leading whitespace. */
  predicate PlainString(v: string)
  {
    v != [] && '"' !in v && !IsSpace(v[0])
  }

  /** A key the reader gives back unchanged between quotes: not empty, no ':'. */
  predicate PlainKey(k: string)
  {
    k != [] && ':' !in k
  }

  /** A plain string keeps its first character, so no whitespace is dropped. */
  lemma PlainKept(v: string)
    requires PlainString(v)
    ensures DropLeadingSpace(v) == v
  {
  }

  /** A quoted plain key, with quote-free text around it, dequotes to the key. */
  lemma QuotedKey(a: string, k: string, b: string)
    requires PlainKey(k) && '"' !in a && '"' !in b && ':' !in a && ':' !in b
    ensures a + "\"" + k + "\"" + b != [] && ':' !in a + "\"" + k + "\"" + b
    ensures Dequote(a + "\"" + k + "\"" + b) == k
  {
    DequoteBetween(a, k, b);
  }

  /** recur_object from the '{' on: the members' loop gets the rest of the stream. */
  lemma ObjectOpen<N>(t: string, tbl: Table<N>, hash: string -> Int32, parse: string -> Option<N>)
    requires |tbl| > 0
    ensures ReadObject(SV(['{'] + t, false), tbl, hash, parse) ==
      ObjectMembers(OpenConfig.(delims := "{", lastDelim := '{'), SV(t, false), tbl, hash, parse)
  {
    DiscardHit(OpenConfig, [], '{', t, StreamSizeMax, "{", false);
    assert [] + ['{'] + t == ['{'] + t;
  }

  /** recur_list from the '[' on: the elements' loop gets the rest of the stream. */
  lemma ListOpen<N>(t: string, items: seq<Node<N>>, hash: string -> Int32, parse: string -> Option<N>)
    ensures ReadList(SV(['['] + t, false), items, hash, parse) ==
      ListElements(OpenConfig.(delims := "[", lastDelim := '['), SV(t, false), items, hash, parse)
  {
    DiscardHit(OpenConfig, [], '[', t, StreamSizeMax, "[", false);
    assert [] + ['['] + t == ['['] + t;
  }

  /** A plain key between quotes and nothing else dequotes to the key. */
  lemma QuotedKeyAlone(k: string)
    requires PlainKey(k)
    ensures "\"" + k + "\"" != [] && ':' !in "\"" + k + "\"" && Dequote("\"" + k + "\"") == k
  {
    assert "\"" + k + "\"" == "" + "\"" + k + "\"" + "";
    QuotedKey("", k, "");
  }

  /** The inner object {"k2": t}: one primitive member, whose '}' stays in the stream. */
  lemma InnerObject<N>(k2: string, t: string, rest: string, hash: string -> Int32, parse: string -> Option<N>)
    requires PlainKey(k2) && NoneOf(t, ObjectDelims) && Primitive(DropLeadingSpace(t), parse).Some?
    ensures ReadObject(SV(['{'] + ("\"" + k2 + "\"" + [':'] + (t + ['}'] + rest)), false), EmptyTable(), hash, parse) ==
      Parsed(true, TableInsert(EmptyTable(), hash, k2, Primitive(DropLeadingSpace(t), parse).value).0, SV(['}'] + rest, false))
  {
    var keyText := "\"" + k2 + "\"";
    QuotedKeyAlone(k2);
    var r1 := t + ['}'] + rest;
    ObjectOpen(keyText + [':'] + r1, EmptyTable<N>(), hash, parse);
    PrimitiveMember(OpenConfig.(delims := "{", lastDelim := '{'), keyText + [':'] + r1, keyText, r1, t, '}', rest,
                    EmptyTable(), hash, parse);
  }

  /**
   * {"k1": {"k2": t}} followed by anything: the inner object leaves its '}'
   * in the stream, the outer object takes it for its own end, and nothing
   * after it is read, so in {"a": {"b": 1}, "c": 2} the member "c" is
   * lost.
   */
  lemma NestedEndsEarly<N>(k1: string, k2: string, t: string, rest: string, hash: string -> Int32, parse: string -> Option<N>)
    requires PlainKey(k1) && PlainKey(k2) && NoneOf(t, ObjectDelims) && Primitive(DropLeadingSpace(t), parse).Some?
    ensures var inner := TableInsert(EmptyTable(), hash, k2, Primitive(DropLeadingSpace(t), parse).value).0;
      ReadObject(SV(['{'] + ("\"" + k1 + "\"" + [':'] + (" " + ['{'] + ("\"" + k2 + "\"" + [':'] + (t + ['}'] + rest)))), false),
                 EmptyTable(), hash, parse) ==
      Parsed(true, TableInsert(EmptyTable(), hash, k1, Obj(Flatten(inner))).0, SV(['}'] + rest, false))
  {
    InnerObject(k2, t, rest, hash, parse);
    var inner := TableInsert(EmptyTable(), hash, k2, Primitive(DropLeadingSpace(t), parse).value).0;
    OuterEndsWithInner(k1, "\"" + k2 + "\"" + [':'] + (t + ['}'] + rest), inner, rest, hash, parse);
  }

  /** {"k1": followed by an object that stops in front of a '}' it left: the outer object ends at that '}'. */
  lemma OuterEndsWithInner<N>(k1: string, r2: string, inner: Table<N>, rest: string, hash: string -> Int32, parse: string -> Option<N>)
    requires PlainKey(k1)
    requires ReadObject(SV(['{'] + r2, false), EmptyTable(), hash, parse) == Parsed(true, inner, SV(['}'] + rest, false))
    ensures ReadObject(SV(['{'] + ("\"" + k1 + "\"" + [':'] + (" " + ['{'] + r2)), false), EmptyTable(), hash, parse) ==
      Parsed(true, TableInsert(EmptyTable(), hash, k1, Obj(Flatten(inner))).0, SV(['}'] + rest, false))
  {
    var keyText := "\"" + k1 + "\"";
    QuotedKeyAlone(k1);
    var r1 := " " + ['{'] + r2;
    SpaceNoDelim();
    ObjectOpen(keyText + [':'] + r1, EmptyTable<N>(), hash, parse);
    NestedMemberEndsOuter(OpenConfig.(delims := "{", lastDelim := '{'), keyText + [':'] + r1, keyText, r1, " ", r2,
                          inner, rest, EmptyTable(), hash, parse);
  }

  /** A first element "v1" followed by a comma: the element is read and the character after the comma is discarded. */
  lemma ElementThenComma<N>(cfg: Config, v1: string, rest: string, items: seq<Node<N>>,
                            hash: string -> Int32, parse: string -> Option<N>)
    requires !cfg.matchAll && PlainString(v1) && rest != []
    ensures ListElements(cfg, SV(['"'] + (v1 + ['"'] + ([','] + rest)), false), items, hash, parse) ==
      ListElements(Config("", false, false, true, ','), SV(rest[1..], false), items + [Str(JsonString(v1))], hash, parse)
  {
    var r3 := [','] + rest;
    var s1 := ['"'] + (v1 + ['"'] + r3);
    assert s1 == [] + ['"'] + (v1 + ['"'] + r3) && r3 == [] + [','] + rest;
    PlainKept(v1);
    StringElement(cfg, s1, [], v1 + ['"'] + r3, v1, r3, [], ',', rest, items, hash, parse);
  }

  /** A last element "v2" followed by ']': the element is read and the list ends with true. */
  lemma LastElement<N>(cfg: Config, v2: string, items: seq<Node<N>>, hash: string -> Int32, parse: string -> Option<N>)
    requires !cfg.matchAll && PlainString(v2)
    ensures ListElements(cfg, SV(['"'] + (v2 + ['"'] + [']']), false), items, hash, parse) ==
      Parsed(true, items + [Str(JsonString(v2))], SV([], false))
  {
    var r3 := [']'];
    var s2 := ['"'] + (v2 + ['"'] + r3);
    assert s2 == [] + ['"'] + (v2 + ['"'] + r3) && r3 == [] + [']'] + [];
    PlainKept(v2);
    StringElement(cfg, s2, [], v2 + ['"'] + r3, v2, r3, [], ']', [], items, hash, parse);
  }

  /**
   * ["v1","v2"]: the discard(1) after the comma takes the opening quote
   * of the second string, and the list fails with only the first read.
   */
  lemma ListWithoutSpaceFails<N>(v1: string, v2: string, hash: string -> Int32, parse: string -> Option<N>)
    requires PlainString(v1) && NoneOf(v2, ListDelims)
    ensures ReadList(SV(['['] + (['"'] + (v1 + ['"'] + ([','] + (['"'] + (v2 + ['"'] + [']']))))), false), [], hash, parse) ==
      Parsed(false, [Str(JsonString(v1))], SV([], true))
  {
    var rest := ['"'] + (v2 + ['"'] + [']']);
    ListOpen(['"'] + (v1 + ['"'] + ([','] + rest)), [], hash, parse);
    ElementThenComma<N>(OpenConfig.(delims := "[", lastDelim := '['), v1, rest, [], hash, parse);
    assert rest[1..] == v2 + ['"'] + [']'];
    var one: seq<Node<N>> := [Str(JsonString(v1))];
    assert [] + one == one;
    ElementQuoteEaten(Config("", false, false, true, ','), rest[1..], v2, [']'], [Str(JsonString(v1))], hash, parse);
  }

  /**
   * ["v1", "v2"]: with one character after the comma, as the serializer
   * writes ", ", both strings are read.
   */
  lemma ListWithSpaceReads<N>(v1: string, c: char, v2: string, hash: string -> Int32, parse: string -> Option<N>)
    requires PlainString(v1) && PlainString(v2)
    ensures ReadList(SV(['['] + (['"'] + (v1 + ['"'] + ([','] + ([c] + (['"'] + (v2 + ['"'] + [']'])))))), false), [], hash, parse) ==
      Parsed(true, [Str(JsonString(v1)), Str(JsonString(v2))], SV([], false))
  {
    var s2 := ['"'] + (v2 + ['"'] + [']']);
    var rest := [c] + s2;
    ListOpen(['"'] + (v1 + ['"'] + ([','] + rest)), [], hash, parse);
    ElementThenComma<N>(OpenConfig.(delims := "[", lastDelim := '['), v1, rest, [], hash, parse);
    assert rest[1..] == s2;
    var one: seq<Node<N>> := [Str(JsonString(v1))];
    assert [] + one == one;
    assert one + [Str(JsonString(v2))] == [Str(JsonString(v1)), Str(JsonString(v2))];
    LastElement<N>(Config("", false, false, true, ','), v2, [Str(JsonString(v1))], hash, parse);
  }

  // ---------------------------------------------------------------------
  // Reading back what to_string writes
  // ---------------------------------------------------------------------

  /** recur_object's inserts, member by member in order. */
  function InsertAll<N>(tbl: Table<N>, hash: string -> Int32, ms: seq<Entry<string, Node<N>>>): (r: Table<N>)
    requires |tbl| > 0
    ensures |r| == |tbl|
    decreases |ms|
  {
    if ms == [] then tbl else InsertAll(TableInsert(tbl, hash, ms[0].key, ms[0].val).0, hash, ms[1..])
  }

  /** The value of the first entry with key k. */
  function EntriesLookup<N>(es: seq<Entry<string, Node<N>>>, k: string): Option<Node<N>>
  {
    if es == [] then None else if es[0].key == k then Some(es[0].val) else EntriesLookup(es[1..], k)
  }

  /** Members the reader gives back unchanged: plain keys and plain string values. */
  predicate StringMembers<N>(ms: seq<Entry<string, Node<N>>>)
  {
    forall i :: 0 <= i < |ms| ==> PlainKey(ms[i].key) && ms[i].val.Str? && PlainString(ms[i].val.str.value)
  }

  /** Elements the reader gives back unchanged: plain strings. */
  predicate StringItems<N>(items: seq<Node<N>>)
  {
    forall i :: 0 <= i < |items| ==> items[i].Str? && PlainString(items[i].str.value)
  }

  /** One member as the serializer writes it, cut where the reader's steps cut it. */
  lemma MemberShape(p: string, k: string, v: string, tail: string, after: string)
    ensures p + (("   " + "\"" + k + "\"" + " : " + ("\"" + v + "\"" + tail)) + after) ==
      (p + "   " + "\"" + k + "\"" + " ") + [':'] + (" " + ['"'] + (v + ['"'] + (tail + after)))
  {
  }

  /** A primitive's ", " seen by the separator read: an empty token, then ','. */
  lemma CommaTail(after: string)
    ensures PrimitiveTail(true) + after == [] + [','] + (" " + after)
  {
  }

  /** The last member's value, then "\n}": the separator read finds '}' after the newline. */
  lemma ObjectEndTail(m: string)
    requires m == ""
    ensures PrimitiveTail(false) + (m + "\n}") == "\n" + ['}'] + []
  {
  }

  /** The last element, then "\n ]": the separator read finds ']' after the newline and space. */
  lemma ListEndTail(m: string)
    requires m == ""
    ensures PrimitiveTail(false) + (m + "\n ]") == "\n " + [']'] + []
  {
  }

  /** One element as the serializer writes it, cut where the reader's steps cut it. */
  lemma ItemShape(p: string, v: string, tail: string, after: string)
    ensures p + (("\"" + v + "\"" + tail) + after) == p + ['"'] + (v + ['"'] + (tail + after))
  {
  }

  /** One member written as a plain key and a plain string value: read, inserted, and the loop goes on after its separator. */
  lemma MemberRead<N>(cfg: Config, p: string, k: string, v: string, comma: bool, after: string, tbl: Table<N>,
                      hash: string -> Int32, parse: string -> Option<N>)
    requires !cfg.matchAll && |tbl| > 0 && PlainKey(k) && PlainString(v) && '"' !in p && ':' !in p
    requires !comma ==> after == "\n}"
    ensures var tbl1 := TableInsert(tbl, hash, k, Str(JsonString(v))).0;
      ObjectMembers(cfg, SV(p + (("   " + "\"" + k + "\"" + " : " + ("\"" + v + "\"" + PrimitiveTail(comma))) + after), false), tbl, hash, parse) ==
      if comma then ObjectMembers(Config(",}", false, false, true, ','), SV(" " + after, false), tbl1, hash, parse)
      else Parsed(true, tbl1, SV([], false))
  {
    var tail := PrimitiveTail(comma);
    MemberShape(p, k, v, tail, after);
    var keyText := p + "   " + "\"" + k + "\"" + " ";
    assert keyText == (p + "   ") + "\"" + k + "\"" + " ";
    QuotedKey(p + "   ", k, " ");
    var r3 := tail + after;
    var s := keyText + [':'] + (" " + ['"'] + (v + ['"'] + r3));
    PlainKept(v);
    SpaceNoDelim();
    if comma {
      CommaTail(after);
      StringMember(cfg, s, keyText, " " + ['"'] + (v + ['"'] + r3), " ", v + ['"'] + r3, v, r3, [], ',', " " + after, tbl, hash, parse);
    } else {
      ObjectEndTail("");
      StringMember(cfg, s, keyText, " " + ['"'] + (v + ['"'] + r3), " ", v + ['"'] + r3, v, r3, "\n", '}', [], tbl, hash, parse);
    }
  }

  /** The space before a value is none of the object's value delimiters. */
  lemma SpaceNoDelim()
    ensures NoneOf(" ", ObjectDelims) && NoneOf([], ",}")
  {
  }

  /** The first member of the serializer's text: read and inserted, and the loop goes on to the rest. */
  lemma FirstMemberRead<N>(cfg: Config, p: string, ms: seq<Entry<string, Node<N>>>, tbl: Table<N>,
                           hash: string -> Int32, parse: string -> Option<N>, format: N -> string)
    requires !cfg.matchAll && |tbl| > 0 && ms != [] && StringMembers(ms) && '"' !in p && ':' !in p
    ensures var tbl1 := TableInsert(tbl, hash, ms[0].key, ms[0].val).0;
      ObjectMembers(cfg, SV(p + (MembersText(ms, "   ", 3, format) + "\n}"), false), tbl, hash, parse) ==
      if |ms| > 1 then ObjectMembers(Config(",}", false, false, true, ','), SV(" " + (MembersText(ms[1..], "   ", 3, format) + "\n}"), false), tbl1, hash, parse)
      else Parsed(true, tbl1, SV([], false))
  {
    var k := ms[0].key;
    var v := ms[0].val.str.value;
    var comma := |ms| > 1;
    var m1 := MembersText(ms[1..], "   ", 3, format);
    var piece := MemberText(ms[0], "   ", 3, comma, format);
    assert ms[0].val.Str? && ms[0].val.str.ToString() == v;
    assert Render(ms[0].val, 3, comma, format) == "\"" + v + "\"" + PrimitiveTail(comma);
    assert piece == "   " + "\"" + k + "\"" + " : " + ("\"" + v + "\"" + PrimitiveTail(comma));
    ConcatAssoc(piece, m1, "\n}");
    assert ms[0].val == Str(JsonString(v));
    if !comma {
      assert ms[1..] == [] && m1 == "";
    }
    MemberRead(cfg, p, k, v, comma, m1 + "\n}", tbl, hash, parse);
  }

  /** What is plain about the members is plain about all but the first. */
  lemma StringMembersTail<N>(ms: seq<Entry<string, Node<N>>>)
    requires ms != [] && StringMembers(ms)
    ensures StringMembers(ms[1..])
  {
    assert forall i :: 0 <= i < |ms[1..]| ==> ms[1..][i] == ms[i + 1];
  }

  /**
   * The members' text followed by the closing "\n}", after any text p
   * free of '"' and ':': the loop reads every member and inserts them in
   * order.
   */
  lemma {:induction false} MembersReadBack<N>(cfg: Config, p: string, ms: seq<Entry<string, Node<N>>>, tbl: Table<N>,
                                             hash: string -> Int32, parse: string -> Option<N>, format: N -> string)
    requires !cfg.matchAll && |tbl| > 0 && ms != [] && StringMembers(ms) && '"' !in p && ':' !in p
    ensures ObjectMembers(cfg, SV(p + (MembersText(ms, "   ", 3, format) + "\n}"), false), tbl, hash, parse) ==
      Parsed(true, InsertAll(tbl, hash, ms), SV([], false))
    decreases |ms|
  {
    FirstMemberRead(cfg, p, ms, tbl, hash, parse, format);
    if |ms| > 1 {
      StringMembersTail(ms);
      MembersReadBack(Config(",}", false, false, true, ','), " ", ms[1..], TableInsert(tbl, hash, ms[0].key, ms[0].val).0,
                      hash, parse, format);
    }
  }

  /**
   * to_string then deserialize, text level: an object of plain string
   * members, written at level 0, reads back as those members inserted in
   * order, with the whole text consumed.
   */
  lemma ObjectReadBack<N>(ms: seq<Entry<string, Node<N>>>, hash: string -> Int32, parse: string -> Option<N>, format: N -> string)
    requires ms != [] && StringMembers(ms)
    ensures ReadObject(SV(Render(Obj(ms), 0, false, format), false), EmptyTable(), hash, parse) ==
      Parsed(true, InsertAll(EmptyTable(), hash, ms), SV([], false))
  {
    var m := MembersText(ms, "   ", 3, format);
    ObjectText(ms, format);
    ObjectOpen("\n" + (m + "\n}"), EmptyTable<N>(), hash, parse);
    MembersReadBack(OpenConfig.(delims := "{", lastDelim := '{'), "\n", ms, EmptyTable(), hash, parse, format);
  }

  /** An object written at level 0, regrouped at the '{'. */
  lemma ObjectText<N>(ms: seq<Entry<string, Node<N>>>, format: N -> string)
    ensures Render(Obj(ms), 0, false, format) == ['{'] + ("\n" + (MembersText(ms, "   ", 3, format) + "\n}"))
  {
    var m := MembersText(ms, "   ", 3, format);
    assert Spaces(0) == "";
    assert Spaces(0) + "   " == "   ";
    assert Render(Obj(ms), 0, false, format) == "{\n" + m + ("\n" + "" + "}") + "";
  }

  /** The first element of the serializer's text: read, and the loop goes on to the rest. */
  lemma FirstItemRead<N>(cfg: Config, p: string, items: seq<Node<N>>, acc: seq<Node<N>>,
                         hash: string -> Int32, parse: string -> Option<N>, format: N -> string)
    requires !cfg.matchAll && items != [] && StringItems(items) && NoneOf(p, ListDelims)
    ensures ListElements(cfg, SV(p + (ItemsText(items, 3, format) + "\n ]"), false), acc, hash, parse) ==
      if |items| > 1 then ListElements(Config("", false, false, true, ','), SV("" + (ItemsText(items[1..], 3, format) + "\n ]"), false),
                                       acc + [items[0]], hash, parse)
      else Parsed(true, acc + [items[0]], SV([], false))
  {
    var v := items[0].str.value;
    var comma := |items| > 1;
    var tail := PrimitiveTail(comma);
    var i1 := ItemsText(items[1..], 3, format);
    var after := i1 + "\n ]";
    var piece := Render(items[0], 3, comma, format);
    assert piece == "\"" + v + "\"" + tail;
    ConcatAssoc(piece, i1, "\n ]");
    ItemShape(p, v, tail, after);
    var r3 := tail + after;
    var s := p + (ItemsText(items, 3, format) + "\n ]");
    PlainKept(v);
    assert items[0] == Str(JsonString(v));
    if comma {
      var rest := " " + after;
      CommaTail(after);
      StringElement(cfg, s, p, v + ['"'] + r3, v, r3, [], ',', rest, acc, hash, parse);
      assert rest[1..] == "" + (i1 + "\n ]");
    } else {
      assert items[1..] == [] && i1 == "";
      ListEndTail(i1);
      StringElement(cfg, s, p, v + ['"'] + r3, v, r3, "\n ", ']', [], acc, hash, parse);
    }
  }

  /** What is plain about the elements is plain about all but the first. */
  lemma StringItemsTail<N>(items: seq<Node<N>>)
    requires items != [] && StringItems(items)
    ensures StringItems(items[1..])
  {
    assert forall i :: 0 <= i < |items[1..]| ==> items[1..][i] == items[i + 1];
  }

  /**
   * The elements' text followed by the closing "\n ]", after any text p
   * free of the list's value delimiters: the loop reads every element.
   */
  lemma {:induction false} ItemsReadBack<N>(cfg: Config, p: string, items: seq<Node<N>>, acc: seq<Node<N>>,
                                           hash: string -> Int32, parse: string -> Option<N>, format: N -> string)
    requires !cfg.matchAll && items != [] && StringItems(items) && NoneOf(p, ListDelims)
    ensures ListElements(cfg, SV(p + (ItemsText(items, 3, format) + "\n ]"), false), acc, hash, parse) ==
      Parsed(true, acc + items, SV([], false))
    decreases |items|
  {
    FirstItemRead(cfg, p, items, acc, hash, parse, format);
    AppendFirst(acc, items);
    if |items| > 1 {
      StringItemsTail(items);
      ItemsReadBack(Config("", false, false, true, ','), "", items[1..], acc + [items[0]], hash, parse, format);
    }
  }

  /** Moving the first element over to the accumulator keeps the concatenation. */
  lemma AppendFirst<T>(acc: seq<T>, items: seq<T>)
    requires items != []
    ensures (acc + [items[0]]) + items[1..] == acc + items
    ensures |items| == 1 ==> acc + [items[0]] == acc + items
  {
    assert items == [items[0]] + items[1..];
  }

  /** The newline and indent before the first element hold none of the list's value delimiters. */
  lemma IndentNoDelim()
    ensures NoneOf("\n   ", ListDelims)
  {
  }

  /** to_string then reading back, for a list of plain strings written at level 0: the same elements, in order. */
  lemma ListReadBack<N>(items: seq<Node<N>>, hash: string -> Int32, parse: string -> Option<N>, format: N -> string)
    requires items != [] && StringItems(items)
    ensures ReadList(SV(Render(List(items), 0, false, format), false), [], hash, parse) == Parsed(true, items, SV([], false))
  {
    var m := ItemsText(items, 3, format);
    ListText(items, format);
    ListOpen("\n   " + (m + "\n ]"), [], hash, parse);
    IndentNoDelim();
    ItemsReadBack(OpenConfig.(delims := "[", lastDelim := '['), "\n   ", items, [], hash, parse, format);
    assert [] + items == items;
  }

  /** A list written at level 0, regrouped at the '['. */
  lemma ListText<N>(items: seq<Node<N>>, format: N -> string)
    ensures Render(List(items), 0, false, format) == ['['] + ("\n   " + (ItemsText(items, 3, format) + "\n ]"))
  {
    var m := ItemsText(items, 3, format);
    assert Spaces(0) == "";
    assert Render(List(items), 0, false, format) == "[\n" + "   " + m + ("\n" + "" + " ]") + "";
    ListTextRegroup(m);
  }

  /** The list's frame at level 0, cut after the '['. */
  lemma ListTextRegroup(m: string)
    ensures "[\n" + "   " + m + ("\n" + "" + " ]") + "" == ['['] + ("\n   " + (m + "\n ]"))
  {
  }

  /**
   * After the inserts, a key maps to what the table already held for it,
   * or else to the value of its first entry: of two members with the same
   * key, the first one read is kept.
   */
  lemma {:induction false} InsertAllLookup<N>(tbl: Table<N>, hash: string -> Int32, ms: seq<Entry<string, Node<N>>>, k: string)
    requires |tbl| > 0
    ensures TableLookup(InsertAll(tbl, hash, ms), hash, k) ==
      if TableLookup(tbl, hash, k).Some? then TableLookup(tbl, hash, k) else EntriesLookup(ms, k)
    decreases |ms|
  {
    if ms != [] {
      var tbl1 := TableInsert(tbl, hash, ms[0].key, ms[0].val).0;
      TableInsertLookup(tbl, hash, ms[0].key, ms[0].val, k);
      InsertAllLookup(tbl1, hash, ms[1..], k);
    }
  }

  /** With no earlier entry of the same key, the entry at q is the one found. */
  lemma {:induction false} EntriesLookupAt<N>(es: seq<Entry<string, Node<N>>>, q: nat)
    requires q < |es| && forall p :: 0 <= p < q ==> es[p].key != es[q].key
    ensures EntriesLookup(es, es[q].key) == Some(es[q].val)
  {
    if q > 0 {
      EntriesLookupAt(es[1..], q - 1);
    }
  }

  /** A key no entry has is not found. */
  lemma {:induction false} EntriesLookupNone<N>(es: seq<Entry<string, Node<N>>>, k: string)
    requires forall p :: 0 <= p < |es| ==> es[p].key != k
    ensures EntriesLookup(es, k) == None
  {
    if es != [] {
      EntriesLookupNone(es[1..], k);
    }
  }

  /** In a well-hashed table, find agrees with the first node of that key in iteration order. */
  lemma TableIsIterated<N>(props: Table<N>, hash: string -> Int32, k: string)
    requires WellHashed(props, hash)
    ensures TableLookup(props, hash, k) == EntriesLookup(Flatten(props), k)
  {
    var es := Flatten(props);
    LookupIffIterated(props, hash, k);
    if TableLookup(props, hash, k).Some? {
      var idx := SlotIndex(hash(k), |props|);
      var j := KeyPos(props[idx], k);
      FlattenAt(props, idx, j);
      var q := |Flatten(props[..idx])| + j;
      IteratedKeysDistinct(props, hash);
      EntriesLookupAt(es, q);
    } else {
      EntriesLookupNone(es, k);
    }
  }

  /**
   * to_string then deserialize: for an object whose properties are plain
   * keys with plain string values, reading back the text the object
   * writes succeeds, consumes it all, and finds every key's value as the
   * object does, and no other key.
   */
  lemma ObjectRoundTrip<N>(props: Table<N>, hash: string -> Int32, parse: string -> Option<N>, format: N -> string)
    requires WellHashed(props, hash) && Flatten(props) != [] && StringMembers(Flatten(props))
    ensures var r := ReadObject(SV(Render(Obj(Flatten(props)), 0, false, format), false), EmptyTable(), hash, parse);
      && r.ok && r.sv == SV([], false)
      && forall k :: TableLookup(r.value, hash, k) == TableLookup(props, hash, k)
  {
    ObjectReadBack(Flatten(props), hash, parse, format);
    forall k
      ensures TableLookup(InsertAll(EmptyTable(), hash, Flatten(props)), hash, k) == TableLookup(props, hash, k)
    {
      InsertAllLookup(EmptyTable(), hash, Flatten(props), k);
      TableIsIterated(props, hash, k);
    }
  }
}
