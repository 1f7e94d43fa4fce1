// basic_string_util: case mapping, whitespace stripping, splitting,
// reversal and the decimal conversions between strings and unsigned
// integers. Each C++ routine builds a local result in a loop; each is a
// method here, proved against a functional specification.
module StringUtil {
  import opened Chars
  import opened Wrappers

  // ---------------------------------------------------------------------
  // Case mapping
  // ---------------------------------------------------------------------

  /** to_upper: toupper applied to every character, in order. */
  method ToUpperString(s: seq<char>) returns (r: seq<char>)
    ensures |r| == |s|
    ensures forall i :: 0 <= i < |s| ==> r[i] == ToUpper(s[i])
  {
    r := [];
    var i := 0;
    while i < |s|
      invariant 0 <= i <= |s|
      invariant |r| == i
      invariant forall j :: 0 <= j < i ==> r[j] == ToUpper(s[j])
    {
      r := r + [ToUpper(s[i])];
      i := i + 1;
    }
  }

  /** to_lower: tolower applied to every character, in order. */
  method ToLowerString(s: seq<char>) returns (r: seq<char>)
    ensures |r| == |s|
    ensures forall i :: 0 <= i < |s| ==> r[i] == ToLower(s[i])
  {
    r := [];
    var i := 0;
    while i < |s|
      invariant 0 <= i <= |s|
      invariant |r| == i
      invariant forall j :: 0 <= j < i ==> r[j] == ToLower(s[j])
    {
      r := r + [ToLower(s[i])];
      i := i + 1;
    }
  }

  // ---------------------------------------------------------------------
  // strip_ws
  // ---------------------------------------------------------------------

  /** The characters of s that are not whitespace, in their original order. */
  function StripWs(s: seq<char>): (r: seq<char>)
  {
    if |s| == 0 then []
    else (if IsSpace(s[0]) then [] else [s[0]]) + StripWs(s[1..])
  }

  /** The copy_if loop of strip_ws. */
  method StripWsLoop(s: seq<char>) returns (r: seq<char>)
    ensures r == StripWs(s)
  {
    r := [];
    var i := 0;
    while i < |s|
      invariant 0 <= i <= |s|
      invariant r + StripWs(s[i..]) == StripWs(s)
    {
      assert s[i..] == [s[i]] + s[i + 1..];
      if !IsSpace(s[i]) {
        r := r + [s[i]];
      }
      i := i + 1;
    }
  }

  lemma {:induction false} StripWsAppend(a: seq<char>, b: seq<char>)
    ensures StripWs(a + b) == StripWs(a) + StripWs(b)
  {
    if |a| > 0 {
      assert (a + b)[1..] == a[1..] + b;
      StripWsAppend(a[1..], b);
    } else {
      assert a + b == b;
    }
  }

  /** No whitespace survives, no other character is dropped or reordered. */
  lemma {:induction false} StripWsSound(s: seq<char>)
    ensures forall i :: 0 <= i < |StripWs(s)| ==> !IsSpace(StripWs(s)[i])
    ensures (forall i :: 0 <= i < |s| ==> !IsSpace(s[i])) ==> StripWs(s) == s
    ensures |StripWs(s)| <= |s|
  {
    if |s| > 0 {
      StripWsSound(s[1..]);
      assert s == [s[0]] + s[1..];
    }
  }

  /** Whitespace is removed anywhere in the string, not only at the ends. */
  lemma StripWsInterior(a: seq<char>, c: char, b: seq<char>)
    requires IsSpace(c)
    ensures StripWs(a + [c] + b) == StripWs(a) + StripWs(b)
  {
    var sa := StripWs(a);
    StripWsAppend(a + [c], b);
    StripWsAppend(a, [c]);
    StripWsSpace(c);
    assert StripWs(a + [c]) == sa + [];
    assert sa + [] == sa;
  }

  lemma StripWsSpace(c: char)
    requires IsSpace(c)
    ensures StripWs([c]) == []
  {
    assert [c][1..] == [];
  }

  /** std::basic_string(level, ' '): level spaces, the indentation both serializers write. */
  function Spaces(level: nat): (ws: string)
    ensures |ws| == level
    ensures forall i :: 0 <= i < level ==> ws[i] == ' '
  {
    if level == 0 then "" else Spaces(level - 1) + " "
  }

  // ---------------------------------------------------------------------
  // split
  // ---------------------------------------------------------------------

  /** Index of the first occurrence of c in s, or |s| (std::find). */
  function Find(s: seq<char>, c: char): (k: nat)
    ensures k <= |s|
  {
    if |s| == 0 then 0 else if s[0] == c then 0 else 1 + Find(s[1..], c)
  }

  /** Find stops at the first occurrence: nothing before it is c. */
  lemma {:induction false} FindFirstOccurrence(s: seq<char>, c: char)
    ensures forall j :: 0 <= j < Find(s, c) ==> s[j] != c
    ensures Find(s, c) < |s| ==> s[Find(s, c)] == c
  {
    if |s| > 0 && s[0] != c {
      FindFirstOccurrence(s[1..], c);
    }
  }

  /** split: the non-empty runs of s between occurrences of delim, in order. */
  function Split(s: seq<char>, delim: char): (pieces: seq<seq<char>>)
    decreases |s|
  {
    if |s| == 0 then []
    else
      var k := Find(s, delim);
      var piece := s[..k];
      (if |piece| > 0 then [piece] else [])
      + Split(if k < |s| then s[k + 1..] else [], delim)
  }

  /** The split loop: `beg` walks s, each run up to the next delimiter is kept when non-empty. */
  method SplitLoop(s: seq<char>, delim: char) returns (sl: seq<seq<char>>)
    ensures sl == Split(s, delim)
  {
    sl := [];
    var beg := 0;
    while beg != |s|
      invariant 0 <= beg <= |s|
      invariant sl + Split(s[beg..], delim) == Split(s, delim)
      decreases |s| - beg
    {
      var nxt := beg + Find(s[beg..], delim);
      var nxtStr := s[beg..nxt];
      SplitStep(s, beg, nxt, delim);
      ghost var sl0 := sl;
      ghost var piece := if nxt > beg then [nxtStr] else [];
      ghost var tail := if nxt < |s| then s[nxt + 1..] else [];
      assert Split(s[beg..], delim) == piece + Split(tail, delim);
      assert sl + (piece + Split(tail, delim)) == Split(s, delim);
      assert (sl + piece) + Split(tail, delim) == sl + (piece + Split(tail, delim)) by {
        ConcatAssoc(sl, piece, Split(tail, delim));
      }
      if |nxtStr| > 0 {
        sl := sl + [nxtStr];
      }
      assert sl == sl0 + piece;
      beg := nxt;
      if beg != |s| {
        beg := beg + 1;
      }
      assert s[beg..] == tail;
    }
  }

  lemma ConcatAssoc<T>(a: seq<T>, b: seq<T>, c: seq<T>)
    ensures (a + b) + c == a + (b + c)
  {
  }

  /** One round of the split loop, stated on the suffix starting at beg. */
  lemma SplitStep(s: seq<char>, beg: nat, nxt: nat, delim: char)
    requires beg < |s| && nxt == beg + Find(s[beg..], delim)
    ensures nxt <= |s|
    ensures Split(s[beg..], delim)
      == (if nxt > beg then [s[beg..nxt]] else [])
         + Split(if nxt < |s| then s[nxt + 1..] else [], delim)
  {
    var u := s[beg..];
    var k := Find(u, delim);
    FindFirstOccurrence(u, delim);
    assert u[..k] == s[beg..nxt];
    assert delim !in u[..k];
    if k < |u| {
      SplitUnfoldAt(u, delim, k);
      assert u[k + 1..] == s[nxt + 1..];
    } else {
      SplitNoDelim(u, delim);
      assert u[..k] == u;
    }
  }

  /** Concatenation of a list of strings. */
  function Concat(pieces: seq<seq<char>>): seq<char>
  {
    if |pieces| == 0 then [] else pieces[0] + Concat(pieces[1..])
  }

  /** s with every occurrence of c removed. */
  function Remove(s: seq<char>, c: char): seq<char>
  {
    if |s| == 0 then [] else (if s[0] == c then [] else [s[0]]) + Remove(s[1..], c)
  }

  lemma {:induction false} ConcatAppend(p: seq<seq<char>>, q: seq<seq<char>>)
    ensures Concat(p + q) == Concat(p) + Concat(q)
  {
    if |p| > 0 {
      assert (p + q)[1..] == p[1..] + q;
      ConcatAppend(p[1..], q);
    } else {
      assert p + q == q;
    }
  }

  lemma {:induction false} RemoveAppend(a: seq<char>, b: seq<char>, c: char)
    ensures Remove(a + b, c) == Remove(a, c) + Remove(b, c)
  {
    if |a| > 0 {
      assert (a + b)[1..] == a[1..] + b;
      RemoveAppend(a[1..], b, c);
    } else {
      assert a + b == b;
    }
  }

  lemma {:induction false} RemoveAbsent(s: seq<char>, c: char)
    requires forall j :: 0 <= j < |s| ==> s[j] != c
    ensures Remove(s, c) == s
  {
    if |s| > 0 {
      RemoveAbsent(s[1..], c);
      assert s == [s[0]] + s[1..];
    }
  }

  /** Every piece is non-empty and free of the delimiter. */
  lemma {:induction false} SplitPiecesNonEmpty(s: seq<char>, delim: char)
    ensures forall i :: 0 <= i < |Split(s, delim)| ==>
      |Split(s, delim)[i]| > 0 && delim !in Split(s, delim)[i]
    decreases |s|
  {
    if |s| > 0 {
      var k := Find(s, delim);
      FindFirstOccurrence(s, delim);
      var rest := if k < |s| then s[k + 1..] else [];
      var head := if k > 0 then [s[..k]] else [];
      SplitPiecesNonEmpty(rest, delim);
      assert Split(s, delim) == head + Split(rest, delim);
      assert delim !in s[..k];
    }
  }

  /**
   * The pieces concatenated give s with the delimiters taken out: no other
   * character is lost or reordered.
   */
  lemma {:induction false} SplitConcat(s: seq<char>, delim: char)
    ensures Concat(Split(s, delim)) == Remove(s, delim)
    decreases |s|
  {
    if |s| > 0 {
      var k := Find(s, delim);
      FindFirstOccurrence(s, delim);
      if k < |s| {
        var pre, rest := s[..k], s[k + 1..];
        assert delim !in pre;
        SplitUnfoldAt(s, delim, k);
        SplitConcat(rest, delim);
        ConcatHead(pre, Split(rest, delim));
        assert s == pre + [delim] + rest;
        RemoveAroundDelim(pre, delim, rest);
      } else {
        assert delim !in s;
        SplitNoDelim(s, delim);
        ConcatHead(s, []);
        RemoveAbsent(s, delim);
      }
    }
  }

  /** Concatenating a list headed by a (possibly dropped empty) piece. */
  lemma ConcatHead(pre: seq<char>, q: seq<seq<char>>)
    ensures Concat((if |pre| > 0 then [pre] else []) + q) == pre + Concat(q)
  {
    if |pre| > 0 {
      assert ([pre] + q)[1..] == q;
    } else {
      assert [] + q == q;
    }
  }

  lemma RemoveAroundDelim(pre: seq<char>, delim: char, rest: seq<char>)
    requires delim !in pre
    ensures Remove(pre + [delim] + rest, delim) == pre + Remove(rest, delim)
  {
    var rp := Remove(pre, delim);
    var rr := Remove(rest, delim);
    RemoveAppend(pre + [delim], rest, delim);
    RemoveAppend(pre, [delim], delim);
    RemoveDelim(delim);
    assert forall j :: 0 <= j < |pre| ==> pre[j] != delim;
    RemoveAbsent(pre, delim);
    assert Remove(pre + [delim], delim) == rp + [];
    assert rp + [] == pre;
  }

  lemma RemoveDelim(c: char)
    ensures Remove([c], c) == []
  {
    assert [c][1..] == [];
  }

  /** A string with no delimiter is one piece (or none, when empty). */
  lemma SplitNoDelim(s: seq<char>, delim: char)
    requires delim !in s
    ensures Split(s, delim) == (if s == [] then [] else [s])
  {
    if |s| > 0 {
      var k := Find(s, delim);
      FindFirstOccurrence(s, delim);
      assert k == |s|;
      assert s[..k] == s;
    }
  }

  /** Pieces never merge across a delimiter: the run structure is maximal. */
  lemma {:induction false} SplitAtDelim(a: seq<char>, delim: char, b: seq<char>)
    ensures Split(a + [delim] + b, delim) == Split(a, delim) + Split(b, delim)
    decreases |a|
  {
    var s := a + [delim] + b;
    var k := Find(a, delim);
    FindFirstOccurrence(a, delim);
    if k < |a| {
      var rest := a[k + 1..];
      var head: seq<seq<char>> := if k > 0 then [a[..k]] else [];
      SplitUnfoldAt(a, delim, k);
      CutInside(a, delim, b, k);
      SplitUnfoldAt(s, delim, k);
      SplitAtDelim(rest, delim, b);
      ConcatAssoc(head, Split(rest, delim), Split(b, delim));
    } else {
      CutAtDelim(a, delim, b);
      SplitUnfoldAt(s, delim, |a|);
      SplitNoDelim(a, delim);
    }
  }

  /** A cut at k inside a, seen in a + [delim] + b. */
  lemma CutInside(a: seq<char>, delim: char, b: seq<char>, k: nat)
    requires k < |a|
    ensures var s := a + [delim] + b;
      s[..k] == a[..k] && s[k] == a[k] && s[k + 1..] == a[k + 1..] + [delim] + b
  {
    var s := a + [delim] + b;
    assert s[..k] == a[..k];
    assert s[k + 1..] == a[k + 1..] + [delim] + b;
  }

  /** The text t, a delimiter d and the rest, cut again at d. */
  lemma CutAtDelim(t: seq<char>, d: char, rest: seq<char>)
    ensures var s := t + [d] + rest;
      |s| > |t| && s[|t|] == d && s[..|t|] == t && s[|t|..] == [d] + rest && s[|t| + 1..] == rest
  {
    var s := t + [d] + rest;
    assert s[..|t|] == t;
    assert s[|t|..] == [d] + rest;
    assert s[|t| + 1..] == rest;
  }

  /** Split unfolded at the first delimiter, given its position k. */
  lemma SplitUnfoldAt(s: seq<char>, delim: char, k: nat)
    requires k < |s| && s[k] == delim && delim !in s[..k]
    ensures Split(s, delim) == (if k > 0 then [s[..k]] else []) + Split(s[k + 1..], delim)
  {
    assert forall j :: 0 <= j < k ==> s[j] != delim by {
      forall j | 0 <= j < k ensures s[j] != delim { assert s[..k][j] == s[j]; }
    }
    FindFirst(s, delim, k);
  }

  lemma FindFirst(s: seq<char>, c: char, k: nat)
    requires k < |s| && s[k] == c
    requires forall j :: 0 <= j < k ==> s[j] != c
    ensures Find(s, c) == k
  {
    FindFirstOccurrence(s, c);
  }

  // ---------------------------------------------------------------------
  // reverse
  // ---------------------------------------------------------------------

  /** The characters of s from last to first. */
  function Reverse(s: seq<char>): (r: seq<char>)
  {
    if |s| == 0 then [] else Reverse(s[1..]) + [s[0]]
  }

  lemma {:induction false} ReverseAt(s: seq<char>)
    ensures |Reverse(s)| == |s|
    ensures forall i :: 0 <= i < |s| ==> Reverse(s)[i] == s[|s| - 1 - i]
  {
    if |s| > 0 {
      ReverseAt(s[1..]);
    }
  }

  /** reverse is an involution. */
  lemma ReverseInvolution(s: seq<char>)
    ensures Reverse(Reverse(s)) == s
  {
    ReverseAt(s);
    ReverseAt(Reverse(s));
  }

  /** The reverse loop: walks rbegin..rend pushing each character. */
  method ReverseLoop(s: seq<char>) returns (rev: seq<char>)
    ensures rev == Reverse(s)
  {
    rev := [];
    var r := |s|;
    while r > 0
      invariant 0 <= r <= |s|
      invariant |rev| == |s| - r
      invariant forall i :: 0 <= i < |rev| ==> rev[i] == s[|s| - 1 - i]
    {
      r := r - 1;
      rev := rev + [s[r]];
    }
    ReverseAt(s);
  }

  // ---------------------------------------------------------------------
  // Decimal conversions for unsigned integer types
  // ---------------------------------------------------------------------

  function Pow10(e: nat): (p: nat)
    ensures p >= 1
  {
    if e == 0 then 1 else 10 * Pow10(e - 1)
  }

  /**
   * An unsigned integer type T: its width and numeric_limits<T>::digits10
   * (the number of decimal digits every value of that many digits fits).
   */
  datatype UnsignedType = UnsignedType(bits: nat, digits10: nat)
  {
    function Max(): nat { Pow2(bits) - 1 }
    /** digits10 agrees with the width: 10^digits10 <= max < 10^(digits10+1). */
    predicate WellFormed() { bits > 0 && Pow10(digits10) <= Max() < Pow10(digits10 + 1) }
  }

  function Pow2(n: nat): (p: nat)
    ensures p >= 1
  {
    if n == 0 then 1 else 2 * Pow2(n - 1)
  }

  const UInt8: UnsignedType := UnsignedType(8, 2)
  const UInt16: UnsignedType := UnsignedType(16, 4)
  const UInt32: UnsignedType := UnsignedType(32, 9)
  const UInt64: UnsignedType := UnsignedType(64, 19)

  lemma StandardTypesWellFormed()
    ensures UInt8.WellFormed() && UInt8.Max() == 255
    ensures UInt16.WellFormed() && UInt16.Max() == 65535
    ensures UInt32.WellFormed() && UInt32.Max() == 4294967295
    ensures UInt64.WellFormed() && UInt64.Max() == 18446744073709551615
  {
    Pow2Values();
    Pow10Values();
    Pow2Wide();
    Pow10Wide();
  }

  lemma Pow2Wide()
    ensures Pow2(64) == 18446744073709551616
  {
    Pow2Values();
    Pow2Add(32, 32);
  }

  lemma Pow10Wide()
    ensures Pow10(19) == 10000000000000000000 && Pow10(20) == 100000000000000000000
  {
    Pow10Values();
    Pow10Add(10, 9);
    Pow10Add(10, 10);
  }

  lemma {:induction false} Pow10Add(a: nat, b: nat)
    ensures Pow10(a + b) == Pow10(a) * Pow10(b)
  {
    if a > 0 { Pow10Add(a - 1, b); }
  }

  lemma Pow2Values()
    ensures Pow2(8) == 256 && Pow2(16) == 65536 && Pow2(32) == 4294967296
  {
    assert Pow2(8) == 256;
    Pow2Add(8, 8);
    Pow2Add(16, 16);
  }

  lemma Pow10Values()
    ensures Pow10(2) == 100 && Pow10(3) == 1000 && Pow10(4) == 10000 && Pow10(5) == 100000
    ensures Pow10(9) == 1000000000 && Pow10(10) == 10000000000
  {
    assert Pow10(5) == 100000;
    assert Pow10(10) == 10000000000;
  }

  lemma {:induction false} Pow2Add(a: nat, b: nat)
    ensures Pow2(a + b) == Pow2(a) * Pow2(b)
  {
    if a > 0 { Pow2Add(a - 1, b); }
  }

  /** The exception string_to_numeric throws. */
  datatype NumericError = OutOfRange | RangeError | Overflow

  predicate AllDigits(s: seq<char>) { forall i :: 0 <= i < |s| ==> IsDigit(s[i]) }

  /** The value of a string of decimal digits, most significant first. */
  function DecimalValue(s: seq<char>): nat
    requires AllDigits(s)
  {
    if |s| == 0 then 0 else DigitValue(s[0]) * Pow10(|s| - 1) + DecimalValue(s[1..])
  }

  lemma {:induction false} DecimalValueBound(s: seq<char>)
    requires AllDigits(s)
    ensures DecimalValue(s) < Pow10(|s|)
  {
    if |s| > 0 {
      DecimalValueBound(s[1..]);
      var p := Pow10(|s| - 1);
      MulMono(DigitValue(s[0]), 9, p);
      assert Pow10(|s|) == 10 * p;
    }
  }

  /** Appending a digit multiplies by ten and adds it. */
  lemma {:induction false} DecimalValueSnoc(s: seq<char>, c: char)
    requires AllDigits(s) && IsDigit(c)
    ensures AllDigits(s + [c])
    ensures DecimalValue(s + [c]) == DecimalValue(s) * 10 + DigitValue(c)
  {
    var u := s + [c];
    assert forall j :: 0 <= j < |u| ==> IsDigit(u[j]) by {
      forall j | 0 <= j < |u| ensures IsDigit(u[j]) {
        if j < |s| { assert u[j] == s[j]; }
      }
    }
    if |s| > 0 {
      assert u[1..] == s[1..] + [c];
      DecimalValueSnoc(s[1..], c);
      var d := DigitValue(s[0]);
      var p := Pow10(|s| - 1);
      var tail := DecimalValue(s[1..]);
      assert DecimalValue(u[1..]) == tail * 10 + DigitValue(c);
      assert DecimalValue(s) == d * p + tail;
      assert DecimalValue(u) == d * Pow10(|s|) + DecimalValue(u[1..]);
      assert Pow10(|s|) == 10 * p;
      MulTen(d, p);
    } else {
      assert u[1..] == [];
    }
  }

  /**
   * What string_to_numeric<T> yields: a length outside 1..digits10+1 is
   * out_of_range, a non-digit anywhere is range_error, a value above T's
   * maximum is overflow_error; otherwise the decimal value.
   */
  function StringToNumericSpec(t: UnsignedType, s: seq<char>): Result<nat, NumericError>
  {
    if |s| < 1 || |s| > t.digits10 + 1 then Err(OutOfRange)
    else if !AllDigits(s) then Err(RangeError)
    else if DecimalValue(s) > t.Max() then Err(Overflow)
    else Ok(DecimalValue(s))
  }

  /**
   * string_to_numeric<T>: scans right to left with T arithmetic: a digit
   * times 10^expnt, checked against max / base, then added with the
   * wrap-around test (sum < rv) && (sum < dec).
   */
  method StringToNumeric(t: UnsignedType, s: seq<char>) returns (r: Result<nat, NumericError>)
    requires t.WellFormed()
    ensures r == StringToNumericSpec(t, s)
    ensures r.Ok? ==> r.value <= t.Max()
  {
    if |s| < 1 || |s| > t.digits10 + 1 {
      return Err(OutOfRange);
    }
    var rv: nat := 0;
    var expnt: nat := 0;
    var i := |s| - 1;
    while i >= 0
      invariant -1 <= i < |s|
      invariant expnt == |s| - 1 - i
      invariant AllDigits(s[i + 1..])
      invariant rv == DecimalValue(s[i + 1..])
      invariant rv < Pow10(expnt)
      invariant rv <= t.Max()
      decreases i
    {
      if s[i] < '0' || s[i] > '9' {
        NotAllDigits(s, i);
        return Err(RangeError);
      }
      var charVal := DigitValue(s[i]);
      var baseVal := Pow10(expnt);
      assert s[i..] == [s[i]] + s[i + 1..];
      if charVal > t.Max() / baseVal {
        OverflowAtTop(t, s, i, expnt, rv);
        return Err(Overflow);
      }
      var dec := charVal * baseVal;
      MulBelow(charVal, baseVal, t.Max());
      var sum := WrapAdd(t, rv, dec);
      if sum < rv && sum < dec {
        WrapAtTop(t, s, i, expnt, rv, dec);
        return Err(Overflow);
      }
      AccumulateDigit(t, s, i, expnt, rv, dec);
      rv := sum;
      expnt := expnt + 1;
      i := i - 1;
    }
    assert s[0..] == s;
    r := Ok(rv);
  }

  /** Addition in T: the mathematical sum truncated to T's width. */
  function WrapAdd(t: UnsignedType, a: nat, b: nat): (sum: nat)
    requires a <= t.Max() && b <= t.Max()
    ensures sum <= t.Max()
  {
    if a + b > t.Max() then a + b - (t.Max() + 1) else a + b
  }

  lemma NotAllDigits(s: seq<char>, i: int)
    requires 0 <= i < |s| && !IsDigit(s[i])
    ensures !AllDigits(s)
  {
  }

  /** The first overflow test can fire only on the leading digit of a full-width string. */
  lemma OverflowAtTop(t: UnsignedType, s: seq<char>, i: int, expnt: nat, rv: nat)
    requires t.WellFormed() && 1 <= |s| <= t.digits10 + 1
    requires 0 <= i < |s| && expnt == |s| - 1 - i
    requires AllDigits(s[i..]) && rv == DecimalValue(s[i + 1..])
    requires DigitValue(s[i]) > t.Max() / Pow10(expnt)
    ensures AllDigits(s) && DecimalValue(s) > t.Max()
  {
    var d := DigitValue(s[i]);
    var p := Pow10(expnt);
    // d >= max / 10^e + 1, so its term alone exceeds max ...
    DivLowerStep(t.Max(), p, d);
    // ... which a digit can do only at the top position.
    MulMono(d, 9, p);
    TopPosition(t, expnt, d * p);
    LeadingDigit(s, i, expnt);
  }

  /** The wrap-around test fires only on the leading digit, and exactly when the value exceeds max. */
  lemma WrapAtTop(t: UnsignedType, s: seq<char>, i: int, expnt: nat, rv: nat, dec: nat)
    requires t.WellFormed() && 1 <= |s| <= t.digits10 + 1
    requires 0 <= i < |s| && expnt == |s| - 1 - i
    requires AllDigits(s[i..]) && rv == DecimalValue(s[i + 1..]) && rv < Pow10(expnt)
    requires dec == DigitValue(s[i]) * Pow10(expnt) && dec <= t.Max()
    requires rv <= t.Max() && WrapAdd(t, rv, dec) < rv
    ensures AllDigits(s) && DecimalValue(s) > t.Max()
  {
    // The sum exceeds max; below the top position it stays under 10^(e+1) <= max.
    MulMono(DigitValue(s[i]), 9, Pow10(expnt));
    TopPosition(t, expnt, rv + dec);
    LeadingDigit(s, i, expnt);
  }

  /** A value above max but below 10^(e+1) needs e to be the top position. */
  lemma TopPosition(t: UnsignedType, expnt: nat, v: nat)
    requires t.WellFormed() && t.Max() < v < 10 * Pow10(expnt)
    ensures expnt >= t.digits10
  {
    assert Pow10(expnt + 1) == 10 * Pow10(expnt);
    Pow10MonoImp(expnt + 1, t.digits10);
  }

  /** At the top position the suffix is the whole string. */
  lemma LeadingDigit(s: seq<char>, i: int, expnt: nat)
    requires 0 <= i < |s| && expnt == |s| - 1 - i && expnt >= |s| - 1
    requires AllDigits(s[i..])
    ensures i == 0 && AllDigits(s)
    ensures DecimalValue(s) == DigitValue(s[i]) * Pow10(expnt) + DecimalValue(s[i + 1..])
  {
    assert s[i..] == s;
  }

  /** Without wrap-around the sum is the value of the one-longer suffix, still in range. */
  lemma AccumulateDigit(t: UnsignedType, s: seq<char>, i: int, expnt: nat, rv: nat, dec: nat)
    requires 0 <= i < |s| && expnt == |s| - 1 - i
    requires AllDigits(s[i..]) && rv == DecimalValue(s[i + 1..]) && rv <= t.Max()
    requires dec == DigitValue(s[i]) * Pow10(expnt) && dec <= t.Max()
    requires !(WrapAdd(t, rv, dec) < rv && WrapAdd(t, rv, dec) < dec)
    ensures WrapAdd(t, rv, dec) == rv + dec == DecimalValue(s[i..])
    ensures rv + dec < Pow10(expnt + 1) && rv + dec <= t.Max()
  {
    assert s[i..][1..] == s[i + 1..];
    DecimalValueBound(s[i..]);
  }

  lemma MulBelow(d: nat, p: nat, m: nat)
    requires p >= 1 && d <= m / p
    ensures d * p <= m
  {
    var q := m / p;
    assert q * p <= m;
    MulMono(d, q, p);
  }

  lemma MulTen(d: nat, p: nat)
    ensures d * (10 * p) == (d * p) * 10
  {
  }

  lemma MulMono(a: nat, b: nat, p: nat)
    requires a <= b
    ensures a * p <= b * p
  {
  }

  lemma {:induction false} Pow10Mono(a: nat, b: nat)
    requires a <= b
    ensures Pow10(a) <= Pow10(b)
    decreases b
  {
    if a < b { Pow10Mono(a, b - 1); }
  }

  lemma Pow10MonoImp(a: nat, b: nat)
    ensures a <= b ==> Pow10(a) <= Pow10(b)
  {
    if a <= b { Pow10Mono(a, b); }
  }

  /** If d > m / p then d * p > m. */
  lemma DivLowerStep(m: nat, p: nat, d: nat)
    requires p >= 1 && d > m / p
    ensures d * p > m
  {
    var q := m / p;
    MulMono(q + 1, d, p);
    assert m == q * p + m % p;
  }

  /** Decimal digits of n, most significant first, without leading zeros. */
  function Decimal(n: nat): (s: seq<char>)
    ensures |s| >= 1 && AllDigits(s)
    decreases n
  {
    if n < 10 then [DigitChar(n)] else Decimal(n / 10) + [DigitChar(n % 10)]
  }

  /** Decimal has no leading zero (except "0" itself) and denotes n. */
  lemma {:induction false} DecimalCorrect(n: nat)
    ensures DecimalValue(Decimal(n)) == n
    ensures |Decimal(n)| > 1 ==> Decimal(n)[0] != '0'
    ensures n == 0 <==> Decimal(n) == "0"
    decreases n
  {
    if n >= 10 {
      DecimalCorrect(n / 10);
      DecimalValueSnoc(Decimal(n / 10), DigitChar(n % 10));
      assert Decimal(n)[0] == Decimal(n / 10)[0];
      if n / 10 < 10 { assert Decimal(n / 10) != "0"; }
    }
  }

  /** Exactly k digits are needed for the values below 10^k. */
  lemma {:induction false} DecimalLength(n: nat, k: nat)
    requires k >= 1
    ensures |Decimal(n)| <= k <==> n < Pow10(k)
    decreases n
  {
    assert Pow10(k) >= 10 by { Pow10Mono(1, k); }
    if n >= 10 && k >= 2 {
      DecimalLength(n / 10, k - 1);
    }
  }

  /**
   * numeric_to_string<T>: the do/while loop pushes '0' + t % 10 and divides
   * by ten until t is zero, then reverses the digits.
   */
  method NumericToString(n: nat) returns (str: seq<char>)
    ensures str == Decimal(n)
  {
    var t := n;
    var acc: seq<char> := [];
    acc := acc + [DigitChar(t % 10)];
    t := t / 10;
    assert Reverse(acc) == acc;
    while t != 0
      invariant t > 0 ==> Decimal(n) == Decimal(t) + Reverse(acc)
      invariant t == 0 ==> Decimal(n) == Reverse(acc)
      decreases t
    {
      ReverseSnoc(acc, DigitChar(t % 10));
      acc := acc + [DigitChar(t % 10)];
      t := t / 10;
    }
    str := ReverseLoop(acc);
  }

  lemma {:induction false} ReverseSnoc(s: seq<char>, c: char)
    ensures Reverse(s + [c]) == [c] + Reverse(s)
  {
    if |s| > 0 {
      assert (s + [c])[1..] == s[1..] + [c];
      ReverseSnoc(s[1..], c);
    } else {
      assert [c][1..] == [];
    }
  }

  /** string_to_numeric inverts numeric_to_string within T's range. */
  lemma NumericRoundTrip(t: UnsignedType, n: nat)
    requires t.WellFormed() && n <= t.Max()
    ensures StringToNumericSpec(t, Decimal(n)) == Ok(n)
  {
    DecimalCorrect(n);
    DecimalLength(n, t.digits10 + 1);
  }
}
