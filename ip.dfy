// ip_v4, ip_v6 and ip_address: an IPv4 endpoint's dotted-quad text, the
// parser that packs a dotted quad into a 32-bit word, and the address
// holder whose factories set one owned record.
//
// The records are classes because ip_address owns them through pointers
// that the copy constructor and operator= reallocate. The port is a
// uint16_t and the octets word a uint32_t, so both are newtypes.
module Ip {
  import opened Wrappers
  import opened Chars
  import opened StringUtil

  newtype Port = x: int | 0 <= x < 0x1_0000
  newtype Word = x: int | 0 <= x < 0x1_0000_0000
  newtype Byte = x: int | 0 <= x < 0x100
  /** The octets_[16] array of ip_v6. */
  type V6Octets = s: seq<Byte> | |s| == 16 witness seq(16, _ => 0)

  /** ip_version: NoVersion (-1), IPv4 (0), IPv6 (1). */
  datatype IpVersion = NoVersion | IPv4 | IPv6

  /** What make_v4 on a string throws: invalid_argument, or what string_to_numeric threw. */
  datatype MakeError = InvalidArgument | Numeric(cause: NumericError)

  // ---------------------------------------------------------------------
  // Octets of a 32-bit word
  // ---------------------------------------------------------------------

  /** 256^cnt: the weight of byte cnt, counted from the least significant. */
  function Weight(cnt: nat): (w: nat)
    ensures w >= 1
  {
    if cnt == 0 then 1 else 256 * Weight(cnt - 1)
  }

  /** (octets >> 8 * cnt) & 0xff. */
  function Octet(x: nat, cnt: nat): (o: nat)
    ensures o < 256
  {
    (x / Weight(cnt)) % 256
  }

  /**
   * The word built from up to four octets, the first one in the top byte.
   * Each field lands in its own byte, so make_v4's `|=` is an addition.
   */
  function Pack(vs: seq<nat>): nat
    requires |vs| <= 4
  {
    if |vs| == 0 then 0
    else Pack(vs[..|vs| - 1]) + vs[|vs| - 1] * Weight(4 - |vs|)
  }

  lemma WeightValues()
    ensures Weight(1) == 256 && Weight(2) == 65536 && Weight(3) == 16777216
  {
  }

  /** Division by a byte weight with a known quotient and remainder. */
  lemma DivModOf(x: nat, q: nat, r: nat, m: nat)
    requires m == 1 || m == 256 || m == 65536 || m == 16777216
    requires r < m && x == q * m + r
    ensures x / m == q && x % m == r
  {
    if m == 1 {
    } else if m == 256 {
      assert x == q * 256 + r;
    } else if m == 65536 {
      assert x == q * 65536 + r;
    } else {
      assert x == q * 16777216 + r;
    }
  }

  /** Four octets, top first, packed into one word. */
  lemma PackFour(vs: seq<nat>)
    requires |vs| == 4
    ensures Pack(vs) == vs[0] * 16777216 + vs[1] * 65536 + vs[2] * 256 + vs[3]
  {
    WeightValues();
    assert vs[..3][..2] == vs[..2];
    assert vs[..2][..1] == vs[..1];
    assert vs[..1][..0] == [];
    assert Pack(vs[..1]) == vs[0] * 16777216;
    assert Pack(vs[..2]) == vs[0] * 16777216 + vs[1] * 65536;
    assert Pack(vs[..3]) == vs[0] * 16777216 + vs[1] * 65536 + vs[2] * 256;
  }

  /** Reading back byte cnt of a packed word gives field 3 - cnt. */
  lemma {:induction false} OctetOfPack(vs: seq<nat>)
    requires |vs| == 4 && forall i :: 0 <= i < 4 ==> vs[i] < 256
    ensures Pack(vs) < 0x1_0000_0000
    ensures forall cnt :: 0 <= cnt < 4 ==> Octet(Pack(vs), cnt) == vs[3 - cnt]
  {
    PackFour(vs);
    WeightValues();
    var x := Pack(vs);
    var a, b, c, d := vs[0], vs[1], vs[2], vs[3];
    DivModOf(x, a * 65536 + b * 256 + c, d, 256);
    assert a * 65536 + b * 256 + c == (a * 256 + b) * 256 + c;
    DivModOf(a * 65536 + b * 256 + c, a * 256 + b, c, 256);
    DivModOf(x, a * 256 + b, c * 256 + d, 65536);
    DivModOf(a * 256 + b, a, b, 256);
    DivModOf(x, a, b * 65536 + c * 256 + d, 16777216);
    DivModOf(a, 0, a, 256);
  }

  /** A 32-bit word is the packing of its own four octets. */
  lemma PackOfOctets(x: nat)
    requires x < 0x1_0000_0000
    ensures Pack([Octet(x, 3), Octet(x, 2), Octet(x, 1), Octet(x, 0)]) == x
  {
    WeightValues();
    PackFour([Octet(x, 3), Octet(x, 2), Octet(x, 1), Octet(x, 0)]);
    DivModOf(x, x / 256, x % 256, 256);
    DivModOf(x / 256, x / 65536, (x / 256) % 256, 256);
    DivModOf(x / 65536, x / 16777216, (x / 65536) % 256, 256);
    DivModOf(x, x / 65536, x % 65536, 65536);
    DivModOf(x, x / 16777216, x % 16777216, 16777216);
  }

  // ---------------------------------------------------------------------
  // ip_v4::to_string
  // ---------------------------------------------------------------------

  /** The dots[] array of to_string: index 0 holds character 0, not '.'. */
  const Dots: seq<char> := ['\0', '.', '.', '.']

  /** The four octets in decimal, most significant first, joined by '.'. */
  function DottedQuad(x: nat): seq<char>
  {
    Decimal(Octet(x, 3)) + "." + Decimal(Octet(x, 2)) + "." +
    Decimal(Octet(x, 1)) + "." + Decimal(Octet(x, 0))
  }

  /**
   * What to_string yields: the dotted quad, then character 0 (dots[0]
   * written after the last octet), then ':' and the port in decimal.
   */
  function V4Text(port: Port, x: Word): seq<char>
  {
    DottedQuad(x as nat) + ['\0'] + ":" + Decimal(port as nat)
  }

  /** The text the countdown loop has written after n rounds. */
  function Emitted(x: nat, n: nat): seq<char>
    requires n <= 4
  {
    if n == 0 then [] else Emitted(x, n - 1) + Decimal(Octet(x, 4 - n)) + [Dots[4 - n]]
  }

  /** After all four rounds: the dotted quad and then dots[0]. */
  lemma EmittedAll(x: nat)
    ensures Emitted(x, 4) == DottedQuad(x) + ['\0']
  {
    var d3, d2, d1, d0 := Decimal(Octet(x, 3)), Decimal(Octet(x, 2)), Decimal(Octet(x, 1)), Decimal(Octet(x, 0));
    assert Emitted(x, 1) == d3 + ".";
    assert Emitted(x, 2) == d3 + "." + d2 + ".";
    assert Emitted(x, 3) == d3 + "." + d2 + "." + d1 + ".";
  }

  /**
   * Records a defect: the character between the last octet and ':' is
   * NUL rather than nothing, and the text before it is the dotted quad.
   */
  lemma V4TextNul(port: Port, x: Word)
    ensures var q := DottedQuad(x as nat);
      V4Text(port, x)[..|q|] == q && V4Text(port, x)[|q|] == '\0' && V4Text(port, x)[|q| + 1] == ':'
  {
  }

  /** The text to_string evidently means: the dotted quad, ':' and the port, with nothing between. */
  function IntendedV4Text(port: Port, x: Word): seq<char>
  {
    DottedQuad(x as nat) + ":" + Decimal(port as nat)
  }

  /**
   * The intended text holds no NUL, and the part before its first ':' is
   * the dotted quad, which make_v4 parses back to the address.
   */
  lemma IntendedV4TextParses(port: Port, x: Word)
    ensures var t, q := IntendedV4Text(port, x), |DottedQuad(x as nat)|;
      q < |t| && t[q] == ':' && ':' !in t[..q] && '\0' !in t && MakeV4Spec(t[..q]) == Ok(x)
  {
    var t, d := IntendedV4Text(port, x), DottedQuad(x as nat);
    var p := Decimal(port as nat);
    QuadChars(x as nat);
    forall j | 0 <= j < |p| ensures p[j] != '\0' && p[j] != ':' { assert IsDigit(p[j]); }
    assert t == d + [':'] + p;
    assert t[..|d|] == d;
    DottedQuadRoundTrip(x as nat);
  }

  /** The dotted quad is made of digits and '.' only. */
  lemma QuadChars(x: nat)
    ensures forall j :: 0 <= j < |DottedQuad(x)| ==> DottedQuad(x)[j] == '.' || IsDigit(DottedQuad(x)[j])
  {
    var a, b, c, d := Decimal(Octet(x, 3)), Decimal(Octet(x, 2)), Decimal(Octet(x, 1)), Decimal(Octet(x, 0));
    assert DottedQuad(x) == a + "." + b + "." + c + "." + d;
  }

  class IpV4 {
    var port: Port
    var octets: Word

    /** ip_v4(port, octets). */
    constructor (port: Port, octets: Word)
      ensures this.port == port && this.octets == octets
    {
      this.port := port;
      this.octets := octets;
    }

    /**
     * to_string: cnt counts down from 3; each round writes octet cnt in
     * decimal (numeric_to_string<uint8_t>) and then dots[cnt].
     */
    method ToString() returns (s: seq<char>)
      ensures s == V4Text(port, octets)
    {
      s := [];
      var cnt := 3;
      while cnt >= 0
        invariant -1 <= cnt <= 3
        invariant s == Emitted(octets as nat, 3 - cnt)
      {
        var digits := NumericToString(Octet(octets as nat, cnt));
        s := s + digits;
        s := s + [Dots[cnt]];
        cnt := cnt - 1;
      }
      EmittedAll(octets as nat);
      s := s + ":";
      var portDigits := NumericToString(port as nat);
      s := s + portDigits;
    }
  }

  class IpV6 {
    var port: Port
    var flow: Word
    var octets: V6Octets
    var scope: Word

    /** ip_v6(port, flow, octets, scope): memcpy takes the first 16 bytes. */
    constructor (port: Port, flow: Word, octets: seq<Byte>, scope: Word)
      requires |octets| >= 16
      ensures this.port == port && this.flow == flow && this.scope == scope
      ensures this.octets == octets[..16]
    {
      this.port := port;
      this.flow := flow;
      this.octets := octets[..16];
      this.scope := scope;
    }
  }

  // ---------------------------------------------------------------------
  // make_v4(port, string)
  // ---------------------------------------------------------------------

  /**
   * The fields make_v4 visits: the text up to each '.', in order, where
   * a '.' at the very end opens no further field.
   */
  function Fields(s: seq<char>): seq<seq<char>>
    decreases |s|
  {
    if |s| == 0 then []
    else
      var k := Find(s, '.');
      if k == |s| then [s] else [s[..k]] + Fields(s[k + 1..])
  }

  /** The unread rest of the text once the cursor is at pos (past the end: nothing). */
  function Rest(s: seq<char>, pos: nat): seq<char>
  {
    if pos <= |s| then s[pos..] else []
  }

  /** string_to_numeric<uint8_t> applied to each field in turn, stopping at the first error. */
  function ParseOctets(fs: seq<seq<char>>): (r: Result<seq<nat>, NumericError>)
    ensures r.Ok? ==> |r.value| == |fs| && forall i :: 0 <= i < |fs| ==> r.value[i] < 256
  {
    if |fs| == 0 then Ok([])
    else
      match StringToNumericSpec(UInt8, fs[0])
      case Err(e) => Err(e)
      case Ok(v) =>
        match ParseOctets(fs[1..])
        case Err(e) => Err(e)
        case Ok(vs) => StandardTypesWellFormed(); Ok([v] + vs)
  }

  /**
   * make_v4 on a string: the first four fields converted, top byte first;
   * the first failing conversion is rethrown, and fewer than four fields
   * is invalid_argument. Fields after the fourth are never read.
   */
  function MakeV4Spec(s: seq<char>): Result<Word, MakeError>
  {
    var fs := Fields(s);
    var first := if |fs| < 4 then fs else fs[..4];
    match ParseOctets(first)
    case Err(e) => Err(Numeric(e))
    case Ok(vs) =>
      if |vs| < 4 then Err(InvalidArgument)
      else OctetOfPack(vs); Ok(Pack(vs) as Word)
  }

  /** Fields unfolded once. */
  lemma FieldsUnfold(t: seq<char>)
    requires |t| > 0
    ensures Find(t, '.') == |t| ==> Fields(t) == [t]
    ensures Find(t, '.') < |t| ==> Fields(t) == [t[..Find(t, '.')]] + Fields(t[Find(t, '.') + 1..])
  {
  }

  /** Fields of a field followed by '.' and more text. */
  lemma FieldsCons(a: seq<char>, b: seq<char>)
    requires '.' !in a
    ensures Fields(a + "." + b) == [a] + Fields(b)
  {
    var s := a + "." + b;
    DotAfter(a, b);
    FieldsUnfold(s);
  }

  /** The first '.' of a + "." + b is the one after a. */
  lemma DotAfter(a: seq<char>, b: seq<char>)
    requires '.' !in a
    ensures Find(a + "." + b, '.') == |a|
    ensures (a + "." + b)[..|a|] == a && (a + "." + b)[|a| + 1..] == b
  {
    var s := a + "." + b;
    assert s[|a|] == '.';
    forall j | 0 <= j < |a| ensures s[j] != '.' { assert s[j] == a[j]; }
    FindFirst(s, '.', |a|);
  }

  /** A non-empty text without '.' is one field. */
  lemma FieldsOne(a: seq<char>)
    requires |a| > 0 && '.' !in a
    ensures Fields(a) == [a]
  {
    FindFirstOccurrence(a, '.');
    FieldsUnfold(a);
  }

  /** Fields unfolded once: the first field runs to the first '.' (at k) or the end. */
  lemma FieldsHead(t: seq<char>, k: nat)
    requires |t| > 0 && k == Find(t, '.')
    ensures Fields(t) == [t[..k]] + Fields(Rest(t, k + 1))
  {
    FieldsUnfold(t);
    if k == |t| {
      assert t[..|t|] == t;
      assert Fields(Rest(t, |t| + 1)) == [];
    }
  }

  /** Fields unfolded at the cursor: the next field runs to the next '.' or the end. */
  lemma FieldsStep(s: seq<char>, pos: nat, nxt: nat, piece: seq<char>)
    requires pos < |s| && nxt == pos + Find(s[pos..], '.') && nxt <= |s| && piece == s[pos..nxt]
    ensures Fields(Rest(s, pos)) == [piece] + Fields(Rest(s, nxt + 1))
  {
    var t := s[pos..];
    FieldsHead(t, nxt - pos);
    RestSlices(s, pos, nxt, t);
  }

  /** The slices FieldsStep relates, kept apart from Fields. */
  lemma RestSlices(s: seq<char>, pos: nat, nxt: nat, t: seq<char>)
    requires pos <= nxt <= |s| && t == s[pos..]
    ensures Rest(s, pos) == t && t[..nxt - pos] == s[pos..nxt]
    ensures Rest(t, nxt - pos + 1) == Rest(s, nxt + 1)
  {
  }

  /** f == done + r and r == [x] + m: x follows done in f. */
  lemma Chain<T>(f: seq<T>, done: seq<T>, r: seq<T>, x: T, m: seq<T>)
    requires f == done + r && r == [x] + m
    ensures f == (done + [x]) + m
  {
  }

  lemma SeqAssoc<T>(a: seq<T>, b: seq<T>, c: seq<T>)
    ensures a + (b + c) == (a + b) + c
  {
  }

  /** Two conversion results in sequence: the first error, else both value lists. */
  function Then(ra: Result<seq<nat>, NumericError>, rb: Result<seq<nat>, NumericError>): Result<seq<nat>, NumericError>
  {
    if ra.Err? then ra else if rb.Err? then rb else Ok(ra.value + rb.value)
  }

  /** ParseOctets of a concatenation: the first error of either half, else both value lists. */
  lemma {:induction false} ParseOctetsAppend(a: seq<seq<char>>, b: seq<seq<char>>)
    ensures ParseOctets(a + b) == Then(ParseOctets(a), ParseOctets(b))
  {
    if |a| > 0 {
      assert (a + b)[0] == a[0];
      assert (a + b)[1..] == a[1..] + b;
      ParseOctetsAppend(a[1..], b);
      var head := StringToNumericSpec(UInt8, a[0]);
      if head.Ok? {
        var ra, rb := ParseOctets(a[1..]), ParseOctets(b);
        if ra.Ok? && rb.Ok? {
          assert [head.value] + (ra.value + rb.value) == ([head.value] + ra.value) + rb.value;
        }
      }
    } else {
      assert a + b == b;
      if ParseOctets(b).Ok? {
        assert [] + ParseOctets(b).value == ParseOctets(b).value;
      }
    }
  }

  /**
   * The loop of make_v4(port, string): each round finds the next '.',
   * converts the text before it with string_to_numeric<uint8_t> and ORs it
   * into byte cnt, until four fields are read or the text runs out.
   */
  method ParseDottedQuad(s: seq<char>) returns (r: Result<Word, MakeError>)
    ensures r == MakeV4Spec(s)
  {
    StandardTypesWellFormed();
    var acc: nat := 0;
    var pos: nat := 0;
    var cnt := 3;
    ghost var done: seq<seq<char>> := [];
    ghost var vals: seq<nat> := [];
    while cnt >= 0 && pos < |s|
      invariant -1 <= cnt <= 3 && |done| == 3 - cnt
      invariant pos <= |s| + 1
      invariant Fields(s) == done + Fields(Rest(s, pos))
      invariant ParseOctets(done) == Ok(vals) && |vals| == |done|
      invariant acc == Pack(vals)
      decreases cnt
    {
      var nxt := pos + Find(s[pos..], '.');
      var piece := s[pos..nxt];
      var octet := StringToNumeric(UInt8, piece);
      if octet.Err? {
        FieldError(s, done, pos, nxt, piece, octet.error);
        return Err(Numeric(octet.error));
      }
      FieldAccepted(s, done, pos, nxt, piece);
      AcceptField(done, vals, piece, octet.value, cnt);
      acc := acc + octet.value * Weight(cnt);
      done := done + [piece];
      vals := vals + [octet.value];
      cnt := cnt - 1;
      pos := nxt + 1;
    }
    if cnt >= 0 {
      ShortFields(s, done, vals, pos);
      return Err(InvalidArgument);
    }
    FullFields(s, done, vals, Fields(Rest(s, pos)));
    r := Ok(acc as Word);
  }

  /** The field at the cursor fails to convert: that error is what MakeV4Spec reports. */
  lemma FieldError(s: seq<char>, done: seq<seq<char>>, pos: nat, nxt: nat, piece: seq<char>, e: NumericError)
    requires pos < |s| && nxt == pos + Find(s[pos..], '.') && nxt <= |s| && piece == s[pos..nxt]
    requires |done| < 4 && Fields(s) == done + Fields(Rest(s, pos)) && ParseOctets(done).Ok?
    requires StringToNumericSpec(UInt8, piece) == Err(e)
    ensures MakeV4Spec(s) == Err(Numeric(e))
  {
    FieldAccepted(s, done, pos, nxt, piece);
    FirstFieldsError(s, done, piece, Fields(Rest(s, nxt + 1)), e);
  }

  /** The field at the cursor joins the done list and the cursor moves past it. */
  lemma FieldAccepted(s: seq<char>, done: seq<seq<char>>, pos: nat, nxt: nat, piece: seq<char>)
    requires pos < |s| && nxt == pos + Find(s[pos..], '.') && nxt <= |s| && piece == s[pos..nxt]
    requires Fields(s) == done + Fields(Rest(s, pos))
    ensures Fields(s) == (done + [piece]) + Fields(Rest(s, nxt + 1))
  {
    FieldsStep(s, pos, nxt, piece);
    Chain(Fields(s), done, Fields(Rest(s, pos)), piece, Fields(Rest(s, nxt + 1)));
  }

  /** A converted field joins the done list, and its value lands in the next lower byte. */
  lemma AcceptField(done: seq<seq<char>>, vals: seq<nat>, piece: seq<char>, v: nat, cnt: nat)
    requires |done| < 4 && ParseOctets(done) == Ok(vals) && cnt == 3 - |vals|
    requires StringToNumericSpec(UInt8, piece) == Ok(v)
    ensures ParseOctets(done + [piece]) == Ok(vals + [v])
    ensures Pack(vals + [v]) == Pack(vals) + v * Weight(cnt)
  {
    ParseOctetsAppend(done, [piece]);
    ParseOne(piece, v);
    PackSnoc(vals, v);
  }

  lemma ParseOne(piece: seq<char>, v: nat)
    requires StringToNumericSpec(UInt8, piece) == Ok(v)
    ensures ParseOctets([piece]) == Ok([v])
  {
    var empty: seq<seq<char>> := [];
    assert [piece][1..] == empty;
    assert ParseOctets(empty) == Ok([]);
    assert [v] + [] == [v];
  }

  lemma PackSnoc(vals: seq<nat>, v: nat)
    requires |vals| < 4
    ensures Pack(vals + [v]) == Pack(vals) + v * Weight(3 - |vals|)
  {
    assert (vals + [v])[..|vals|] == vals;
  }

  /** The text ran out before four fields: invalid_argument, as MakeV4Spec says. */
  lemma ShortFields(s: seq<char>, done: seq<seq<char>>, vals: seq<nat>, pos: nat)
    requires |s| <= pos <= |s| + 1 && |done| < 4
    requires Fields(s) == done + Fields(Rest(s, pos)) && ParseOctets(done) == Ok(vals)
    ensures MakeV4Spec(s) == Err(InvalidArgument)
  {
    var empty: seq<char> := [];
    assert Rest(s, pos) == empty;
    assert Fields(empty) == [];
    assert Fields(s) == done;
  }

  /** Four fields converted: MakeV4Spec packs exactly their values, into 32 bits. */
  lemma FullFields(s: seq<char>, done: seq<seq<char>>, vals: seq<nat>, more: seq<seq<char>>)
    requires |done| == 4 && ParseOctets(done) == Ok(vals)
    requires Fields(s) == done + more
    ensures Pack(vals) < 0x1_0000_0000 && MakeV4Spec(s) == Ok(Pack(vals) as Word)
  {
    assert Fields(s)[..4] == done;
    OctetOfPack(vals);
  }

  /** A conversion error in one of the first four fields is what MakeV4Spec reports. */
  lemma FirstFieldsError(s: seq<char>, done: seq<seq<char>>, piece: seq<char>, more: seq<seq<char>>, e: NumericError)
    requires |done| < 4 && Fields(s) == (done + [piece]) + more
    requires ParseOctets(done).Ok? && StringToNumericSpec(UInt8, piece) == Err(e)
    ensures MakeV4Spec(s) == Err(Numeric(e))
  {
    var fs := Fields(s);
    var first := if |fs| < 4 then fs else fs[..4];
    var tail := first[|done| + 1..];
    assert first == (done + [piece]) + tail;
    ParseOctetsAppend([piece], []);
    ParseOctetsAppend(done, [piece]);
    ParseOctetsAppend(done + [piece], tail);
  }

  // ---------------------------------------------------------------------
  // Properties of make_v4 and to_string
  // ---------------------------------------------------------------------

  /** A successful make_v4 read four fields, and byte 3 - i holds the value of field i. */
  lemma MakeV4Sound(s: seq<char>)
    requires MakeV4Spec(s).Ok?
    ensures |Fields(s)| >= 4
    ensures forall i :: 0 <= i < 4 ==>
      StringToNumericSpec(UInt8, Fields(s)[i]) == Ok(Octet(MakeV4Spec(s).value as nat, 3 - i))
  {
    var fs := Fields(s);
    var first := fs[..4];
    var vs := ParseOctets(first).value;
    OctetOfPack(vs);
    forall i | 0 <= i < 4
      ensures StringToNumericSpec(UInt8, fs[i]) == Ok(vs[i])
    {
      ParseOctetsAt(first, i);
    }
  }

  /** A successful ParseOctets has converted each field to the value at its index. */
  lemma {:induction false} ParseOctetsAt(fs: seq<seq<char>>, i: nat)
    requires ParseOctets(fs).Ok? && i < |fs|
    ensures StringToNumericSpec(UInt8, fs[i]) == Ok(ParseOctets(fs).value[i])
  {
    if i > 0 {
      ParseOctetsAt(fs[1..], i - 1);
    }
  }

  /** Conversely, ParseOctets succeeds when every field converts, with each field's value. */
  lemma {:induction false} ParseOctetsAll(fs: seq<seq<char>>)
    requires forall i :: 0 <= i < |fs| ==> StringToNumericSpec(UInt8, fs[i]).Ok?
    ensures ParseOctets(fs).Ok?
    ensures forall i :: 0 <= i < |fs| ==> ParseOctets(fs).value[i] == StringToNumericSpec(UInt8, fs[i]).value
  {
    if |fs| > 0 {
      assert forall i :: 0 <= i < |fs| - 1 ==> fs[1..][i] == fs[i + 1];
      ParseOctetsAll(fs[1..]);
    }
  }

  /** ParseOctets reports the error of the first field that does not convert. */
  lemma {:induction false} ParseOctetsFirstError(fs: seq<seq<char>>, k: nat, e: NumericError)
    requires k < |fs| && StringToNumericSpec(UInt8, fs[k]) == Err(e)
    requires forall i :: 0 <= i < k ==> StringToNumericSpec(UInt8, fs[i]).Ok?
    ensures ParseOctets(fs) == Err(e)
  {
    if k > 0 {
      assert forall i :: 0 <= i < k - 1 ==> fs[1..][i] == fs[i + 1];
      ParseOctetsFirstError(fs[1..], k - 1, e);
    }
  }

  /** A string of decimal digits has no '.'. */
  lemma DigitsHaveNoDot(s: seq<char>)
    requires AllDigits(s)
    ensures '.' !in s
  {
    forall j | 0 <= j < |s| ensures s[j] != '.' { assert IsDigit(s[j]); }
  }

  /** The decimal text of an octet has no '.' and converts back to it. */
  lemma OctetText(o: nat)
    requires o < 256
    ensures '.' !in Decimal(o) && |Decimal(o)| > 0
    ensures StringToNumericSpec(UInt8, Decimal(o)) == Ok(o)
  {
    StandardTypesWellFormed();
    NumericRoundTrip(UInt8, o);
    DigitsHaveNoDot(Decimal(o));
  }

  /** Four texts joined by '.', then rest. */
  function Join4(ds: seq<seq<char>>, rest: seq<char>): seq<char>
    requires |ds| == 4
  {
    ds[0] + "." + ds[1] + "." + ds[2] + "." + ds[3] + rest
  }

  /** The fields of four '.'-joined texts: the first three, then those of the last with rest. */
  lemma JoinFields(ds: seq<seq<char>>, rest: seq<char>)
    requires |ds| == 4 && '.' !in ds[0] && '.' !in ds[1] && '.' !in ds[2]
    ensures Fields(Join4(ds, rest)) == [ds[0], ds[1], ds[2]] + Fields(ds[3] + rest)
  {
    assert Join4(ds, rest) == ds[0] + "." + (ds[1] + "." + (ds[2] + "." + (ds[3] + rest)));
    FieldsCons(ds[0], ds[1] + "." + (ds[2] + "." + (ds[3] + rest)));
    FieldsCons(ds[1], ds[2] + "." + (ds[3] + rest));
    FieldsCons(ds[2], ds[3] + rest);
  }

  /**
   * Four non-empty fields without '.', each converting, and then nothing
   * or '.' and anything: make_v4 packs the four values.
   */
  lemma JoinParses(ds: seq<seq<char>>, rest: seq<char>)
    requires |ds| == 4
    requires forall i :: 0 <= i < 4 ==> '.' !in ds[i] && |ds[i]| > 0 && StringToNumericSpec(UInt8, ds[i]).Ok?
    requires |rest| == 0 || rest[0] == '.'
    ensures MakeV4Spec(Join4(ds, rest)).Ok?
    ensures MakeV4Spec(Join4(ds, rest)).value as nat == Pack(seq(4, i requires 0 <= i < 4 => StringToNumericSpec(UInt8, ds[i]).value))
  {
    JoinFour(ds, rest);
    var fs := Fields(Join4(ds, rest));
    assert fs[..4] == ds;
    ParseOctetsAll(ds);
    assert ParseOctets(ds).value == seq(4, i requires 0 <= i < 4 => StringToNumericSpec(UInt8, ds[i]).value);
  }

  /** Four dot-free fields followed by nothing or a dot split back into those four fields first. */
  lemma JoinFour(ds: seq<seq<char>>, rest: seq<char>)
    requires |ds| == 4 && '.' !in ds[0] && '.' !in ds[1] && '.' !in ds[2] && '.' !in ds[3] && |ds[3]| > 0
    requires |rest| == 0 || rest[0] == '.'
    ensures |Fields(Join4(ds, rest))| >= 4 && Fields(Join4(ds, rest))[..4] == ds
  {
    JoinFields(ds, rest);
    if |rest| == 0 {
      assert ds[3] + rest == ds[3];
      FieldsOne(ds[3]);
    } else {
      assert ds[3] + rest == ds[3] + "." + rest[1..];
      FieldsCons(ds[3], rest[1..]);
    }
    assert Fields(Join4(ds, rest))[..4] == [ds[0], ds[1], ds[2], ds[3]];
  }

  /** The four octet texts of x. */
  function QuadTexts(x: nat): (ds: seq<seq<char>>)
    ensures |ds| == 4
  {
    [Decimal(Octet(x, 3)), Decimal(Octet(x, 2)), Decimal(Octet(x, 1)), Decimal(Octet(x, 0))]
  }

  /**
   * Text after the fourth field is ignored: a dotted quad followed by
   * nothing, or by '.' and anything, parses to x.
   */
  lemma DottedQuadTail(x: nat, t: seq<char>)
    requires x < 0x1_0000_0000
    requires |t| == 0 || t[0] == '.'
    ensures MakeV4Spec(DottedQuad(x) + t) == Ok(x as Word)
  {
    var ds := QuadTexts(x);
    OctetText(Octet(x, 3));
    OctetText(Octet(x, 2));
    OctetText(Octet(x, 1));
    OctetText(Octet(x, 0));
    assert DottedQuad(x) + t == Join4(ds, t);
    JoinParses(ds, t);
    assert seq(4, i requires 0 <= i < 4 => StringToNumericSpec(UInt8, ds[i]).value)
      == [Octet(x, 3), Octet(x, 2), Octet(x, 1), Octet(x, 0)];
    PackOfOctets(x);
  }

  /** make_v4 inverts the dotted quad: parsing the text of x gives back x. */
  lemma DottedQuadRoundTrip(x: nat)
    requires x < 0x1_0000_0000
    ensures MakeV4Spec(DottedQuad(x)) == Ok(x as Word)
  {
    DottedQuadTail(x, []);
    assert DottedQuad(x) + [] == DottedQuad(x);
  }

  /** Fewer than four fields that all convert: make_v4 throws invalid_argument. */
  lemma FewFieldsInvalid(s: seq<char>)
    requires |Fields(s)| < 4
    requires forall i :: 0 <= i < |Fields(s)| ==> StringToNumericSpec(UInt8, Fields(s)[i]).Ok?
    ensures MakeV4Spec(s) == Err(InvalidArgument)
  {
    ParseOctetsAll(Fields(s));
  }

  /** For example three octets: invalid_argument. */
  lemma ThreeFieldsInvalid(a: nat, b: nat, c: nat)
    requires a < 256 && b < 256 && c < 256
    ensures MakeV4Spec(Decimal(a) + "." + Decimal(b) + "." + Decimal(c)) == Err(InvalidArgument)
  {
    OctetText(a);
    OctetText(b);
    OctetText(c);
    JoinThreeInvalid(Decimal(a), Decimal(b), Decimal(c));
  }

  lemma JoinThreeInvalid(a: seq<char>, b: seq<char>, c: seq<char>)
    requires '.' !in a && '.' !in b && '.' !in c && |c| > 0
    requires StringToNumericSpec(UInt8, a).Ok? && StringToNumericSpec(UInt8, b).Ok? && StringToNumericSpec(UInt8, c).Ok?
    ensures MakeV4Spec(a + "." + b + "." + c) == Err(InvalidArgument)
  {
    var s := a + "." + b + "." + c;
    assert s == a + "." + (b + "." + c);
    FieldsCons(a, b + "." + c);
    FieldsCons(b, c);
    FieldsOne(c);
    assert Fields(s) == [a, b, c];
    FewFieldsInvalid(s);
  }

  /**
   * Records a defect: the part of to_string's text before its first ':'
   * is the dotted quad followed by NUL, and make_v4 refuses it, because
   * the fourth field ends in that NUL: too long for a uint8_t after a
   * three-digit octet, otherwise not a number. The intended text's part
   * before ':' parses back (IntendedV4TextParses).
   */
  lemma ToStringDoesNotParse(port: Port, x: Word)
    ensures var t, q := V4Text(port, x), |DottedQuad(x as nat)| + 1;
      q < |t| && t[q] == ':' && ':' !in t[..q] &&
      MakeV4Spec(t[..q]) == Err(Numeric(if |Decimal(Octet(x as nat, 0))| == 3 then OutOfRange else RangeError))
  {
    var qs := QuadTexts(x as nat);
    var t, d := V4Text(port, x), DottedQuad(x as nat);
    OctetText(Octet(x as nat, 3));
    OctetText(Octet(x as nat, 2));
    OctetText(Octet(x as nat, 1));
    OctetText(Octet(x as nat, 0));
    QuadChars(x as nat);
    assert t == (d + ['\0']) + [':'] + Decimal(port as nat);
    assert t[..|d| + 1] == d + ['\0'];
    assert |qs[3]| <= 3 by {
      assert Pow10(3) == 1000;
      DecimalLength(Octet(x as nat, 0), 3);
    }
    var ds := [qs[0], qs[1], qs[2], qs[3] + ['\0']];
    var e := if |qs[3]| == 3 then OutOfRange else RangeError;
    LastFieldRefused(ds, qs[3], e);
    assert d + ['\0'] == Join4(ds, []);
  }

  /** Three good fields and then a dot-free field that ends in NUL. */
  lemma LastFieldRefused(ds: seq<seq<char>>, d: seq<char>, e: NumericError)
    requires |ds| == 4 && ds[3] == d + ['\0'] && 0 < |d| <= 3 && '.' !in d
    requires e == if |d| == 3 then OutOfRange else RangeError
    requires forall i :: 0 <= i < 3 ==> '.' !in ds[i] && StringToNumericSpec(UInt8, ds[i]).Ok?
    ensures MakeV4Spec(Join4(ds, [])) == Err(Numeric(e))
  {
    JoinFields(ds, []);
    assert ds[3] + [] == ds[3];
    assert '.' !in ds[3];
    FieldsOne(ds[3]);
    assert Fields(Join4(ds, [])) == ds;
    assert !IsDigit(ds[3][|d|]);
    assert StringToNumericSpec(UInt8, ds[3]) == Err(e);
    ParseOctetsFirstError(ds, 3, e);
    assert Fields(Join4(ds, []))[..4] == ds;
  }

  // ---------------------------------------------------------------------
  // ip_address
  // ---------------------------------------------------------------------

  class IpAddress {
    var version: IpVersion
    var v4: IpV4?
    var v6: IpV6?

    /** Exactly the record that matches the version is present. */
    ghost predicate Valid()
      reads this
    {
      match version
      case NoVersion => v4 == null && v6 == null
      case IPv4 => v4 != null && v6 == null
      case IPv6 => v6 != null && v4 == null
    }

    /** ip_address(): no version and no records. */
    constructor ()
      ensures Valid() && version == NoVersion && !IsValid()
    {
      version := NoVersion;
      v4 := null;
      v6 := null;
    }

    /** The copy constructor: the version, and a new copy of each record rhs holds. */
    constructor Copy(rhs: IpAddress)
      ensures version == rhs.version
      ensures (v4 == null) == (rhs.v4 == null) && (v6 == null) == (rhs.v6 == null)
      ensures rhs.v4 != null ==>
        fresh(v4) && v4.port == rhs.v4.port && v4.octets == rhs.v4.octets
      ensures rhs.v6 != null ==>
        fresh(v6) && v6.port == rhs.v6.port && v6.flow == rhs.v6.flow
        && v6.octets == rhs.v6.octets && v6.scope == rhs.v6.scope
      ensures rhs.Valid() ==> Valid()
    {
      version := rhs.version;
      if rhs.v4 == null {
        v4 := null;
      } else {
        v4 := new IpV4(rhs.v4.port, rhs.v4.octets);
      }
      if rhs.v6 == null {
        v6 := null;
      } else {
        v6 := new IpV6(rhs.v6.port, rhs.v6.flow, rhs.v6.octets, rhs.v6.scope);
      }
    }

    /**
     * operator=: nothing on self-assignment; otherwise the version, and a
     * new copy of the v4 record for IPv4 or else of the v6 record, which
     * rhs must hold (a default rhs dereferences a null v6 record).
     */
    method Assign(rhs: IpAddress)
      requires rhs != this ==> (if rhs.version == IPv4 then rhs.v4 != null else rhs.v6 != null)
      modifies this
      ensures rhs == this ==> version == old(version) && v4 == old(v4) && v6 == old(v6)
      ensures rhs != this ==> version == rhs.version
      ensures rhs != this && rhs.version == IPv4 ==>
        v6 == null && v4 != null && fresh(v4)
        && v4.port == rhs.v4.port && v4.octets == rhs.v4.octets
      ensures rhs != this && rhs.version != IPv4 ==>
        v4 == null && v6 != null && fresh(v6)
        && v6.port == rhs.v6.port && v6.flow == rhs.v6.flow && v6.octets == rhs.v6.octets && v6.scope == rhs.v6.scope
      ensures rhs.Valid() ==> Valid()
    {
      if rhs == this {
        return;
      }
      version := rhs.version;
      if rhs.version == IPv4 {
        v4 := new IpV4(rhs.v4.port, rhs.v4.octets);
        v6 := null;
      } else {
        v6 := new IpV6(rhs.v6.port, rhs.v6.flow, rhs.v6.octets, rhs.v6.scope);
        v4 := null;
      }
    }

    /** make_v4(port, octets). */
    static method MakeV4(port: Port, octets: Word) returns (ip: IpAddress)
      ensures fresh(ip) && ip.Valid() && ip.version == IPv4 && ip.IsValid()
      ensures fresh(ip.v4) && ip.v4.port == port && ip.v4.octets == octets
    {
      ip := new IpAddress();
      ip.version := IPv4;
      ip.v4 := new IpV4(port, octets);
    }

    /** make_v4(port, string): the parsed dotted quad, or the exception it throws. */
    static method MakeV4FromString(port: Port, text: seq<char>) returns (r: Result<IpAddress, MakeError>)
      ensures r.Ok? <==> MakeV4Spec(text).Ok?
      ensures r.Ok? ==>
        fresh(r.value) && r.value.Valid() && r.value.version == IPv4
        && r.value.v4.port == port && r.value.v4.octets == MakeV4Spec(text).value
      ensures r.Err? ==> r.error == MakeV4Spec(text).error
    {
      var octets := ParseDottedQuad(text);
      if octets.Err? {
        return Err(octets.error);
      }
      var ip := MakeV4(port, octets.value);
      r := Ok(ip);
    }

    /** make_v6(port, flow, octets, scope). */
    static method MakeV6(port: Port, flow: Word, octets: seq<Byte>, scope: Word) returns (ip: IpAddress)
      requires |octets| >= 16
      ensures fresh(ip) && ip.Valid() && ip.version == IPv6 && ip.IsValid()
      ensures fresh(ip.v6) && ip.v6.port == port && ip.v6.flow == flow
        && ip.v6.octets == octets[..16] && ip.v6.scope == scope
    {
      ip := new IpAddress();
      ip.version := IPv6;
      ip.v6 := new IpV6(port, flow, octets, scope);
    }

    /** is_valid: a version has been set, which for a valid address means a record is held. */
    predicate IsValid()
      reads this
      ensures Valid() ==> (IsValid() <==> v4 != null || v6 != null)
    {
      version != NoVersion
    }
  }

  /** operator<<: the v4 text for an IPv4 address, nothing otherwise. */
  method Write(ip: IpAddress) returns (s: seq<char>)
    requires ip.version == IPv4 ==> ip.v4 != null
    ensures ip.version == IPv4 ==> s == V4Text(ip.v4.port, ip.v4.octets)
    ensures ip.version != IPv4 ==> s == []
  {
    if ip.version == IPv4 {
      s := ip.v4.ToString();
    } else {
      s := [];
    }
  }
}
