// date_time: the %-directive formatter (format_basic_string), the
// fixed-offset parser (parse) and the ISO 8601 stream operators built on
// them with the format "%FT%T".
//
// The clock behind a date_time (long_clock, calendar and the bodies of
// the component getters and setters) is not part of this model: the seven
// components the getters return are an input of the formatter, and the
// parser yields the seven values it hands to set_date_time_parts.
module DateTimes {
  import opened Wrappers
  import opened Chars
  import opened StringUtil
  import StreamParsing

  /** parts_t: a C++ short. */
  newtype Short = x: int | -0x8000 <= x < 0x8000

  /** What get_year, get_month, ..., get_milliseconds return. */
  datatype Parts = Parts(year: Short, month: Short, day: Short, hours: Short, mins: Short, secs: Short, ms: Short)

  /** The directive letters the formatter knows. */
  const FormatLetters: set<char> := {'F', 'Y', 'm', 'd', 'T', 'H', 'M', 'S'}

  // ---------------------------------------------------------------------
  // Formatting
  // ---------------------------------------------------------------------

  /** A short written to a stream: '-' for negative values, then the decimal digits. */
  function ShortText(n: Short): (s: seq<char>)
    ensures |s| >= 1
  {
    if n < 0 then "-" + Decimal(-(n as int)) else Decimal(n as int)
  }

  function Zeros(k: int): (z: seq<char>)
    ensures |z| == if k > 0 then k else 0
    ensures forall i :: 0 <= i < |z| ==> z[i] == '0'
  {
    seq(if k > 0 then k else 0, _ => '0')
  }

  /**
   * setfill('0') << setw(w) << n: right-aligned in a field of w, so the
   * '0' fill goes before the whole text, sign included; a longer text is
   * not cut.
   */
  function Padded(n: Short, w: nat): (s: seq<char>)
  {
    Zeros(w - |ShortText(n)|) + ShortText(n)
  }

  /** What one directive letter writes; an unknown letter writes nothing. */
  function Directive(p: Parts, c: char): (s: seq<char>)
    ensures c !in FormatLetters ==> s == []
  {
    match c
    case 'F' => Padded(p.year, 4) + "-" + Padded(p.month, 2) + "-" + Padded(p.day, 2)
    case 'Y' => ShortText(p.year)
    case 'm' => Padded(p.month, 2)
    case 'd' => Padded(p.day, 2)
    case 'T' => Padded(p.hours, 2) + ":" + Padded(p.mins, 2) + ":" + Padded(p.secs, 2) + "." + Padded(p.ms, 3)
    case 'H' => Padded(p.hours, 2)
    case 'M' => Padded(p.mins, 2)
    case 'S' => Padded(p.secs, 2)
    case _ => []
  }

  /**
   * The text the formatter writes for the rest fmt of the format, when
   * gotDelim says whether the previous character was an unconsumed '%'.
   */
  function FormatFrom(p: Parts, fmt: seq<char>, gotDelim: bool): seq<char>
  {
    if |fmt| == 0 then []
    else if !gotDelim then
      if fmt[0] == '%' then FormatFrom(p, fmt[1..], true) else [fmt[0]] + FormatFrom(p, fmt[1..], false)
    else Directive(p, fmt[0]) + FormatFrom(p, fmt[1..], false)
  }

  function FormatSpec(p: Parts, fmt: seq<char>): seq<char>
  {
    FormatFrom(p, fmt, false)
  }

  /** The gotDelim flag after the formatter (or the parser) has read s starting from gotDelim. */
  function StateAfter(s: seq<char>, gotDelim: bool): bool
  {
    if |s| == 0 then gotDelim
    else StateAfter(s[1..], if gotDelim then false else s[0] == '%')
  }

  /**
   * format_basic_string: walks the format once; outside a directive a
   * character is copied and '%' opens a directive; the character after
   * '%' writes its directive and closes it.
   */
  method Format(p: Parts, fmt: seq<char>) returns (out: seq<char>)
    ensures out == FormatSpec(p, fmt)
  {
    out := [];
    var gotDelim := false;
    var i := 0;
    while i < |fmt|
      invariant 0 <= i <= |fmt|
      invariant out + FormatFrom(p, fmt[i..], gotDelim) == FormatSpec(p, fmt)
    {
      FormatStep(p, fmt, i, gotDelim);
      ghost var before, g0 := out, gotDelim;
      if !gotDelim {
        if fmt[i] == '%' {
          gotDelim := true;
        } else {
          out := out + [fmt[i]];
        }
      } else {
        out := out + Directive(p, fmt[i]);
        gotDelim := false;
      }
      Regroup(before, FormatChar(p, fmt[i], g0), FormatFrom(p, fmt[i + 1..], NextState(fmt[i], g0)));
      i := i + 1;
    }
  }

  /** What one format character writes, given the flag before it. */
  function FormatChar(p: Parts, c: char, gotDelim: bool): seq<char>
  {
    if gotDelim then Directive(p, c) else if c == '%' then [] else [c]
  }

  /** The flag after one format character. */
  function NextState(c: char, gotDelim: bool): bool
  {
    !gotDelim && c == '%'
  }

  /** FormatFrom unfolded at position i. */
  lemma FormatStep(p: Parts, fmt: seq<char>, i: nat, gotDelim: bool)
    requires i < |fmt|
    ensures FormatFrom(p, fmt[i..], gotDelim) == FormatChar(p, fmt[i], gotDelim) + FormatFrom(p, fmt[i + 1..], NextState(fmt[i], gotDelim))
  {
    assert fmt[i..][1..] == fmt[i + 1..];
    if !gotDelim && fmt[i] == '%' {
      assert [] + FormatFrom(p, fmt[i + 1..], true) == FormatFrom(p, fmt[i + 1..], true);
    }
  }

  lemma Regroup<T>(a: seq<T>, b: seq<T>, c: seq<T>)
    ensures (a + b) + c == a + (b + c)
  {
  }

  /** A format without '%' is copied unchanged. */
  lemma {:induction false} FormatLiteral(p: Parts, s: seq<char>)
    requires '%' !in s
    ensures FormatSpec(p, s) == s
  {
    if |s| > 0 {
      assert '%' !in s[1..];
      FormatLiteral(p, s[1..]);
    }
  }

  /** Formatting a + b: the text for a, then the text for b from the state a leaves. */
  lemma {:induction false} FormatAppend(p: Parts, a: seq<char>, b: seq<char>, gotDelim: bool)
    ensures FormatFrom(p, a + b, gotDelim) == FormatFrom(p, a, gotDelim) + FormatFrom(p, b, StateAfter(a, gotDelim))
  {
    if |a| == 0 {
      assert a + b == b;
    } else {
      assert (a + b)[1..] == a[1..] + b;
      var next := if gotDelim then false else a[0] == '%';
      FormatAppend(p, a[1..], b, next);
    }
  }

  /**
   * "%c" writes exactly the directive for c: nothing for a letter outside
   * F, Y, m, d, T, H, M, S, so "%%" writes nothing; a '%' at the very end
   * writes nothing either.
   */
  lemma DirectiveOnly(p: Parts, c: char)
    ensures FormatSpec(p, ['%', c]) == Directive(p, c)
    ensures c !in FormatLetters ==> FormatSpec(p, ['%', c]) == []
    ensures FormatSpec(p, "%%") == [] && FormatSpec(p, "%") == []
  {
    var none: seq<char> := [];
    assert ['%', c][1..] == [c] && [c][1..] == none;
    assert FormatFrom(p, [c], true) == Directive(p, c) + FormatFrom(p, none, false);
    assert Directive(p, c) + none == Directive(p, c);
    assert "%%"[1..] == "%" && "%"[1..] == none;
    assert FormatFrom(p, "%", true) == [] + FormatFrom(p, none, false);
    assert FormatFrom(p, "%", false) == FormatFrom(p, none, true);
  }

  /** A trailing '%' after a complete format adds nothing. */
  lemma TrailingPercent(p: Parts, s: seq<char>)
    requires !StateAfter(s, false)
    ensures FormatSpec(p, s + "%") == FormatSpec(p, s)
  {
    FormatAppend(p, s, "%", false);
    DirectiveOnly(p, 'F');
  }

  /** The components an ISO 8601 text can carry: each fits its field width. */
  predicate IsoParts(p: Parts)
  {
    0 <= p.year < 10000 && 0 <= p.month < 100 && 0 <= p.day < 100
    && 0 <= p.hours < 100 && 0 <= p.mins < 100 && 0 <= p.secs < 100 && 0 <= p.ms < 1000
  }

  /** A non-negative component below 10^w fills exactly w digits, read back by string_to_numeric<uint32_t>. */
  lemma PaddedDigits(n: Short, w: nat)
    requires 1 <= w <= 4 && 0 <= n as int < Pow10(w)
    ensures |Padded(n, w)| == w && AllDigits(Padded(n, w))
    ensures StringToNumericSpec(UInt32, Padded(n, w)) == Ok(n as nat)
  {
    var d := Decimal(n as int);
    DecimalLength(n as int, w);
    DecimalCorrect(n as int);
    var z := Zeros(w - |d|);
    assert Padded(n, w) == z + d;
    ZerosValue(z, d);
    StandardTypesWellFormed();
    Pow10Values();
    Pow10Mono(w, 4);
  }

  /** Leading zeros do not change a decimal value. */
  lemma {:induction false} ZerosValue(z: seq<char>, d: seq<char>)
    requires AllDigits(d) && forall i :: 0 <= i < |z| ==> z[i] == '0'
    ensures AllDigits(z + d) && DecimalValue(z + d) == DecimalValue(d)
  {
    if |z| > 0 {
      assert (z + d)[1..] == z[1..] + d;
      ZerosValue(z[1..], d);
    } else {
      assert z + d == d;
    }
  }

  /** The ISO text operator<< writes: date, 'T', time. */
  lemma IsoText(p: Parts)
    ensures FormatSpec(p, IsoFormat) == Directive(p, 'F') + "T" + Directive(p, 'T')
  {
    assert IsoFormat[1..] == "FT%T";
    assert "FT%T"[1..] == "T%T";
    assert "T%T"[1..] == "%T";
    assert "%T"[1..] == "T";
    assert "T"[1..] == [];
    var empty := FormatFrom(p, [], false);
    assert FormatFrom(p, "T", true) == Directive(p, 'T') + empty;
    assert FormatFrom(p, "%T", false) == Directive(p, 'T') + empty;
    assert FormatFrom(p, "T%T", false) == "T" + Directive(p, 'T') + empty;
    assert FormatFrom(p, "FT%T", true) == Directive(p, 'F') + ("T" + Directive(p, 'T') + empty);
  }

  // ---------------------------------------------------------------------
  // Parsing
  // ---------------------------------------------------------------------

  /** What parse throws: invalid_argument for short input, or string_to_numeric's exception. */
  datatype ParseError = InvalidArgument | Numeric(cause: NumericError)

  /**
   * The uint32_t locals year ... ms of parse; None while a local has not
   * been assigned (its value is then indeterminate in C++).
   */
  datatype Scanned = Scanned(
    year: Option<nat>, month: Option<nat>, day: Option<nat>,
    hours: Option<nat>, mins: Option<nat>, secs: Option<nat>, ms: Option<nat>)

  const Unassigned := Scanned(None, None, None, None, None, None, None)

  /** The values parse reads back from the text of p. */
  function ScannedOf(p: Parts): Scanned
    requires IsoParts(p)
  {
    Scanned(Some(p.year as nat), Some(p.month as nat), Some(p.day as nat),
            Some(p.hours as nat), Some(p.mins as nat), Some(p.secs as nat), Some(p.ms as nat))
  }

  /** One parse step: what is left of the input and the locals so far. */
  datatype Step = Step(rest: seq<char>, vals: Scanned)

  /**
   * %F: at least 10 characters, the year at 0-3, the month at 5-6, the day
   * at 8-9 (the first conversion to fail decides the error), then the first
   * 11 characters are erased.
   */
  function ParseDate(tmp: seq<char>, acc: Scanned): Result<Step, ParseError>
  {
    if |tmp| < 10 then Err(InvalidArgument)
    else
      var y := StringToNumericSpec(UInt32, tmp[0..4]);
      var m := StringToNumericSpec(UInt32, tmp[5..7]);
      var d := StringToNumericSpec(UInt32, tmp[8..10]);
      if y.Err? then Err(Numeric(y.error))
      else if m.Err? then Err(Numeric(m.error))
      else if d.Err? then Err(Numeric(d.error))
      else Ok(Step(tmp[if |tmp| < 11 then |tmp| else 11..],
                   acc.(year := Some(y.value), month := Some(m.value), day := Some(d.value))))
  }

  /**
   * %T: at least 12 characters, hours at 0-1, minutes at 3-4, seconds at
   * 6-7, milliseconds at 9-11; then the input is cut to its first 12
   * characters, which are not consumed.
   */
  function ParseTime(tmp: seq<char>, acc: Scanned): Result<Step, ParseError>
  {
    if |tmp| < 12 then Err(InvalidArgument)
    else
      var h := StringToNumericSpec(UInt32, tmp[0..2]);
      var mi := StringToNumericSpec(UInt32, tmp[3..5]);
      var s := StringToNumericSpec(UInt32, tmp[6..8]);
      var ms := StringToNumericSpec(UInt32, tmp[9..12]);
      if h.Err? then Err(Numeric(h.error))
      else if mi.Err? then Err(Numeric(mi.error))
      else if s.Err? then Err(Numeric(s.error))
      else if ms.Err? then Err(Numeric(ms.error))
      else Ok(Step(tmp[..12],
                   acc.(hours := Some(h.value), mins := Some(mi.value), secs := Some(s.value), ms := Some(ms.value))))
  }

  /** A directive letter other than F and T reads nothing. */
  function ParseDirective(tmp: seq<char>, c: char, acc: Scanned): Result<Step, ParseError>
  {
    if c == 'F' then ParseDate(tmp, acc)
    else if c == 'T' then ParseTime(tmp, acc)
    else Ok(Step(tmp, acc))
  }

  /** What parse yields for the rest fmt of the format, from input tmp and locals acc. */
  function ParseFrom(tmp: seq<char>, fmt: seq<char>, gotDelim: bool, acc: Scanned): Result<Scanned, ParseError>
    decreases |fmt|
  {
    if |fmt| == 0 then Ok(acc)
    else if !gotDelim then ParseFrom(tmp, fmt[1..], fmt[0] == '%', acc)
    else
      var step := ParseDirective(tmp, fmt[0], acc);
      if step.Err? then Err(step.error) else ParseFrom(step.value.rest, fmt[1..], false, step.value.vals)
  }

  function ParseSpec(dt: seq<char>, fmt: seq<char>): Result<Scanned, ParseError>
  {
    ParseFrom(dt, fmt, false, Unassigned)
  }

  /** The %F case of parse, with string_to_numeric<uint32_t> for each field. */
  method ReadDate(tmp: seq<char>, acc: Scanned) returns (r: Result<Step, ParseError>)
    ensures r == ParseDate(tmp, acc)
  {
    StandardTypesWellFormed();
    if |tmp| < 10 {
      return Err(InvalidArgument);
    }
    var y := StringToNumeric(UInt32, tmp[0..4]);
    if y.Err? {
      return Err(Numeric(y.error));
    }
    var m := StringToNumeric(UInt32, tmp[5..7]);
    if m.Err? {
      return Err(Numeric(m.error));
    }
    var d := StringToNumeric(UInt32, tmp[8..10]);
    if d.Err? {
      return Err(Numeric(d.error));
    }
    var cut := if |tmp| < 11 then |tmp| else 11;
    r := Ok(Step(tmp[cut..], acc.(year := Some(y.value), month := Some(m.value), day := Some(d.value))));
  }

  /** The %T case of parse. */
  method ReadTime(tmp: seq<char>, acc: Scanned) returns (r: Result<Step, ParseError>)
    ensures r == ParseTime(tmp, acc)
  {
    StandardTypesWellFormed();
    if |tmp| < 12 {
      return Err(InvalidArgument);
    }
    var h := StringToNumeric(UInt32, tmp[0..2]);
    if h.Err? {
      return Err(Numeric(h.error));
    }
    var mi := StringToNumeric(UInt32, tmp[3..5]);
    if mi.Err? {
      return Err(Numeric(mi.error));
    }
    var s := StringToNumeric(UInt32, tmp[6..8]);
    if s.Err? {
      return Err(Numeric(s.error));
    }
    var ms := StringToNumeric(UInt32, tmp[9..12]);
    if ms.Err? {
      return Err(Numeric(ms.error));
    }
    r := Ok(Step(tmp[..12], acc.(hours := Some(h.value), mins := Some(mi.value), secs := Some(s.value), ms := Some(ms.value))));
  }

  /**
   * parse: walks the format with the same gotDelim flag as the formatter;
   * literal characters are skipped without looking at the input.
   */
  method Parse(dt: seq<char>, fmt: seq<char>) returns (r: Result<Scanned, ParseError>)
    ensures r == ParseSpec(dt, fmt)
  {
    var tmp := dt;
    var vals := Unassigned;
    var gotDelim := false;
    var i := 0;
    while i < |fmt|
      invariant 0 <= i <= |fmt|
      invariant ParseFrom(tmp, fmt[i..], gotDelim, vals) == ParseSpec(dt, fmt)
    {
      assert fmt[i..][1..] == fmt[i + 1..];
      if !gotDelim {
        gotDelim := fmt[i] == '%';
      } else {
        var step: Result<Step, ParseError>;
        if fmt[i] == 'F' {
          step := ReadDate(tmp, vals);
        } else if fmt[i] == 'T' {
          step := ReadTime(tmp, vals);
        } else {
          step := Ok(Step(tmp, vals));
        }
        if step.Err? {
          return Err(step.error);
        }
        tmp, vals := step.value.rest, step.value.vals;
        gotDelim := false;
      }
      i := i + 1;
    }
    r := Ok(vals);
  }

  /** Literal format characters are skipped without reading any input. */
  lemma {:induction false} ParseSkipsLiteral(tmp: seq<char>, lit: seq<char>, fmt: seq<char>, acc: Scanned)
    requires '%' !in lit
    ensures ParseFrom(tmp, lit + fmt, false, acc) == ParseFrom(tmp, fmt, false, acc)
  {
    if |lit| > 0 {
      assert (lit + fmt)[1..] == lit[1..] + fmt;
      assert '%' !in lit[1..];
      ParseSkipsLiteral(tmp, lit[1..], fmt, acc);
    } else {
      assert lit + fmt == fmt;
    }
  }

  /** A directive other than %F and %T reads nothing. */
  lemma ParseSkipsDirective(tmp: seq<char>, c: char, fmt: seq<char>, acc: Scanned)
    requires c != 'F' && c != 'T'
    ensures ParseFrom(tmp, ['%', c] + fmt, false, acc) == ParseFrom(tmp, fmt, false, acc)
  {
    assert (['%', c] + fmt)[1..] == [c] + fmt;
    assert ([c] + fmt)[1..] == fmt;
  }

  /** %F on fewer than 10 characters, or %T on fewer than 12, throws invalid_argument. */
  lemma ParseTooShort(tmp: seq<char>, c: char, fmt: seq<char>, acc: Scanned)
    requires (c == 'F' && |tmp| < 10) || (c == 'T' && |tmp| < 12)
    ensures ParseFrom(tmp, ['%', c] + fmt, false, acc) == Err(InvalidArgument)
  {
    assert (['%', c] + fmt)[1..] == [c] + fmt;
    assert ([c] + fmt)[1..] == fmt;
  }

  // ---------------------------------------------------------------------
  // The ISO stream operators
  // ---------------------------------------------------------------------

  /** The format both stream operators use. */
  const IsoFormat: seq<char> := "%FT%T"

  /** ISO_STR_LEN: the characters operator>> reads at most. */
  const IsoLength: nat := 23

  /** operator<<: the components formatted with "%FT%T". */
  method WriteIso(p: Parts) returns (s: seq<char>)
    ensures s == FormatSpec(p, IsoFormat)
    ensures IsoParts(p) ==> |s| == IsoLength
  {
    s := Format(p, IsoFormat);
    if IsoParts(p) {
      IsoLayout(p);
    }
  }

  /** istream::get(buf, n + 1): at most n characters, stopping before a '\n'. */
  function Extracted(s: seq<char>, n: nat): (e: seq<char>)
    ensures |e| <= n && |e| <= |s| && e == s[..|e|] && '\n' !in e
    ensures |e| < n && |e| < |s| ==> s[|e|] == '\n'
  {
    if n == 0 || |s| == 0 || s[0] == '\n' then []
    else [s[0]] + Extracted(s[1..], n - 1)
  }

  /** operator>>: the value parse gives for the text read, and the input left after the read. */
  datatype IsoRead = IsoRead(value: Result<Scanned, ParseError>, rest: seq<char>)

  function ReadIsoSpec(input: seq<char>): IsoRead
  {
    var e := Extracted(input, IsoLength);
    IsoRead(ParseSpec(StreamParsing.CString(e), IsoFormat), input[|e|..])
  }

  /**
   * operator>>: reads up to 23 characters into a buffer, makes a string of
   * it (which stops at a NUL) and parses that with "%FT%T".
   */
  method ReadIso(input: seq<char>) returns (r: IsoRead)
    ensures r == ReadIsoSpec(input)
  {
    var e := Extracted(input, IsoLength);
    var value := Parse(StreamParsing.CString(e), IsoFormat);
    r := IsoRead(value, input[|e|..]);
  }

  /** No line break and no NUL: operator>> reads such a text whole. */
  predicate Plain(s: seq<char>)
  {
    forall i :: 0 <= i < |s| ==> s[i] != '\n' && s[i] != '\0'
  }

  lemma PlainJoin(a: seq<char>, b: seq<char>)
    requires Plain(a) && Plain(b)
    ensures Plain(a + b)
  {
    assert forall i :: 0 <= i < |a| ==> (a + b)[i] == a[i];
    assert forall i :: |a| <= i < |a| + |b| ==> (a + b)[i] == b[i - |a|];
  }

  /** A component padded to its width is plain digits. */
  lemma PaddedPlain(n: Short, w: nat)
    requires 1 <= w <= 4 && 0 <= n as int < Pow10(w)
    ensures |Padded(n, w)| == w && Plain(Padded(n, w))
    ensures StringToNumericSpec(UInt32, Padded(n, w)) == Ok(n as nat)
  {
    PaddedDigits(n, w);
    var s := Padded(n, w);
    assert forall i :: 0 <= i < |s| ==> IsDigit(s[i]);
  }

  /** A component padded to its width reads back as itself. */
  lemma PaddedReads(n: Short, w: nat)
    requires 1 <= w <= 4 && 0 <= n as int < Pow10(w)
    ensures |Padded(n, w)| == w && StringToNumericSpec(UInt32, Padded(n, w)) == Ok(n as nat)
  {
    PaddedDigits(n, w);
  }

  /** %F of in-range components: 10 plain characters. */
  lemma DateLayout(p: Parts)
    requires IsoParts(p)
    ensures |Directive(p, 'F')| == 10 && Plain(Directive(p, 'F'))
  {
    Pow10Values();
    PaddedPlain(p.year, 4);
    PaddedPlain(p.month, 2);
    PaddedPlain(p.day, 2);
    var a := Padded(p.year, 4) + "-";
    PlainJoin(Padded(p.year, 4), "-");
    PlainJoin(a, Padded(p.month, 2));
    PlainJoin(a + Padded(p.month, 2), "-");
    PlainJoin(a + Padded(p.month, 2) + "-", Padded(p.day, 2));
  }

  /** %T of in-range components: 12 plain characters. */
  lemma TimeLayout(p: Parts)
    requires IsoParts(p)
    ensures |Directive(p, 'T')| == 12 && Plain(Directive(p, 'T'))
  {
    Pow10Values();
    PaddedPlain(p.hours, 2);
    PaddedPlain(p.mins, 2);
    PaddedPlain(p.secs, 2);
    PaddedPlain(p.ms, 3);
    var a := Padded(p.hours, 2) + ":";
    var b := a + Padded(p.mins, 2) + ":";
    var c := b + Padded(p.secs, 2) + ".";
    PlainJoin(Padded(p.hours, 2), ":");
    PlainJoin(a, Padded(p.mins, 2));
    PlainJoin(a + Padded(p.mins, 2), ":");
    PlainJoin(b, Padded(p.secs, 2));
    PlainJoin(b + Padded(p.secs, 2), ".");
    PlainJoin(c, Padded(p.ms, 3));
  }

  /** The text of in-range components: 23 plain characters. */
  lemma IsoLayout(p: Parts)
    requires IsoParts(p)
    ensures |FormatSpec(p, IsoFormat)| == IsoLength && Plain(FormatSpec(p, IsoFormat))
  {
    IsoText(p);
    DateLayout(p);
    TimeLayout(p);
    PlainJoin(Directive(p, 'F'), "T");
    PlainJoin(Directive(p, 'F') + "T", Directive(p, 'T'));
  }

  /** The fixed offsets %F reads: year at 0-3, month at 5-6, day at 8-9, the rest after 11. */
  lemma DateSlices(a: seq<char>, b: seq<char>, c: seq<char>, rest: seq<char>)
    requires |a| == 4 && |b| == 2 && |c| == 2
    ensures var t := a + "-" + b + "-" + c + "T" + rest;
      |t| == 11 + |rest| && t[0..4] == a && t[5..7] == b && t[8..10] == c && t[11..] == rest
  {
  }

  /** The fixed offsets %T reads: hours at 0-1, minutes at 3-4, seconds at 6-7, milliseconds at 9-11. */
  lemma TimeSlices(h: seq<char>, m: seq<char>, s: seq<char>, ms: seq<char>)
    requires |h| == 2 && |m| == 2 && |s| == 2 && |ms| == 3
    ensures var t := h + ":" + m + ":" + s + "." + ms;
      |t| == 12 && t[0..2] == h && t[3..5] == m && t[6..8] == s && t[9..12] == ms && t[..12] == t
  {
  }

  /** %F on the ISO text of p reads p's date and leaves the time text. */
  lemma DateStep(p: Parts)
    requires IsoParts(p)
    ensures ParseDate(Directive(p, 'F') + "T" + Directive(p, 'T'), Unassigned)
         == Ok(Step(Directive(p, 'T'), Unassigned.(year := Some(p.year as nat), month := Some(p.month as nat), day := Some(p.day as nat))))
  {
    Pow10Values();
    PaddedReads(p.year, 4);
    PaddedReads(p.month, 2);
    PaddedReads(p.day, 2);
    DateSlices(Padded(p.year, 4), Padded(p.month, 2), Padded(p.day, 2), Directive(p, 'T'));
  }

  /** %T on the time text of p reads p's time and keeps the text. */
  lemma TimeStep(p: Parts, acc: Scanned)
    requires IsoParts(p)
    ensures ParseTime(Directive(p, 'T'), acc)
         == Ok(Step(Directive(p, 'T'), acc.(hours := Some(p.hours as nat), mins := Some(p.mins as nat), secs := Some(p.secs as nat), ms := Some(p.ms as nat))))
  {
    Pow10Values();
    PaddedReads(p.hours, 2);
    PaddedReads(p.mins, 2);
    PaddedReads(p.secs, 2);
    PaddedReads(p.ms, 3);
    assert Directive(p, 'T') == Padded(p.hours, 2) + ":" + Padded(p.mins, 2) + ":" + Padded(p.secs, 2) + "." + Padded(p.ms, 3);
    TimeFields(Padded(p.hours, 2), Padded(p.mins, 2), Padded(p.secs, 2), Padded(p.ms, 3),
               p.hours as nat, p.mins as nat, p.secs as nat, p.ms as nat, acc);
  }

  /** %T on four converting fields at the fixed offsets. */
  lemma TimeFields(h: seq<char>, m: seq<char>, s: seq<char>, ms: seq<char>, vh: nat, vm: nat, vs: nat, vms: nat, acc: Scanned)
    requires |h| == 2 && |m| == 2 && |s| == 2 && |ms| == 3
    requires StringToNumericSpec(UInt32, h) == Ok(vh) && StringToNumericSpec(UInt32, m) == Ok(vm)
    requires StringToNumericSpec(UInt32, s) == Ok(vs) && StringToNumericSpec(UInt32, ms) == Ok(vms)
    ensures var t := h + ":" + m + ":" + s + "." + ms;
      ParseTime(t, acc) == Ok(Step(t, acc.(hours := Some(vh), mins := Some(vm), secs := Some(vs), ms := Some(vms))))
  {
    TimeSlices(h, m, s, ms);
  }

  /** parse with "%FT%T" reads back every component operator<< wrote. */
  lemma IsoRoundTrip(p: Parts)
    requires IsoParts(p)
    ensures ParseSpec(FormatSpec(p, IsoFormat), IsoFormat) == Ok(ScannedOf(p))
  {
    IsoText(p);
    var date, time := Directive(p, 'F'), Directive(p, 'T');
    var text := date + "T" + time;
    var a := Unassigned.(year := Some(p.year as nat), month := Some(p.month as nat), day := Some(p.day as nat));
    DateStep(p);
    TimeStep(p, a);
    var none: seq<char> := [];
    assert IsoFormat[1..] == "FT%T" && "FT%T"[1..] == "T%T" && "T%T"[1..] == "%T";
    assert "%T"[1..] == "T" && "T"[1..] == none;
    assert ParseFrom(time, "T", true, a) == ParseFrom(time, none, false, ScannedOf(p));
    assert ParseFrom(time, "T%T", false, a) == ParseFrom(time, "T", true, a);
    assert ParseFrom(text, "FT%T", true, Unassigned) == ParseFrom(time, "T%T", false, a);
  }

  lemma {:induction false} ExtractedPlain(t: seq<char>, rest: seq<char>)
    requires Plain(t)
    ensures Extracted(t + rest, |t|) == t
  {
    if |t| > 0 {
      assert (t + rest)[1..] == t[1..] + rest;
      assert Plain(t[1..]) by {
        assert forall i :: 0 <= i < |t| - 1 ==> t[1..][i] == t[i + 1];
      }
      ExtractedPlain(t[1..], rest);
    }
  }

  lemma {:induction false} CStringPlain(t: seq<char>)
    requires Plain(t)
    ensures StreamParsing.CString(t) == t
  {
    if |t| > 0 {
      assert Plain(t[1..]) by {
        assert forall i :: 0 <= i < |t| - 1 ==> t[1..][i] == t[i + 1];
      }
      CStringPlain(t[1..]);
    }
  }

  /**
   * operator>> after operator<<: the 23 characters written are read back
   * whole, parse yields the same components, and the input after them is
   * left in the stream.
   */
  lemma StreamRoundTrip(p: Parts, rest: seq<char>)
    requires IsoParts(p)
    ensures ReadIsoSpec(FormatSpec(p, IsoFormat) + rest) == IsoRead(Ok(ScannedOf(p)), rest)
  {
    var t := FormatSpec(p, IsoFormat);
    IsoLayout(p);
    ExtractedPlain(t, rest);
    CStringPlain(t);
    IsoRoundTrip(p);
    assert (t + rest)[|t|..] == rest;
  }
}
