// stream_parser: a tokenizer over an input stream with pushback.
//
// The std::istream the parser reads is modelled by CharStream: the unread
// text, with putback prepending to it, and the fail bit. The parser's own
// state is a class with the delimiter set, the three switches and the last
// delimiter seen. Every operation is a method that moves characters through
// the stream one at a time, proved equal to a step function over the
// abstract state (Config, SV); the lemmas about those step functions state
// what the tokenizer promises.
module StreamParsing {
  import opened Chars

  // ---------------------------------------------------------------------
  // Abstract state
  // ---------------------------------------------------------------------

  /**
   * What a stream still has to offer: the characters the next reads will
   * return, and whether failbit is set (then nothing can be read and a
   * putback is refused, so the text is irrelevant and kept empty).
   */
  datatype SV = SV(rest: seq<char>, failed: bool)
  {
    predicate Normal() { failed ==> |rest| == 0 }
  }

  /** How much a stream can still deliver; no parser step increases it. */
  function Measure(sv: SV): nat
  {
    if sv.failed then 0 else |sv.rest| + 1
  }

  /** The parser's fields: delims_, matchAll_, keepDelim_, skipWhitespace_, lastDelim_. */
  datatype Config = Config(delims: seq<char>, matchAll: bool, keepDelim: bool,
                           skipWs: bool, lastDelim: char)

  /** `is >> c` with noskipws: the next character, or failure at end of input. */
  function ReadSpec(sv: SV): (r: (bool, char, SV))
    ensures r.0 <==> !sv.failed && |sv.rest| > 0
    ensures r.0 ==> r.1 == sv.rest[0] && r.2 == SV(sv.rest[1..], false)
    ensures !r.0 ==> r.2 == SV([], true)
  {
    if sv.failed || |sv.rest| == 0 then (false, '\0', SV([], true))
    else (true, sv.rest[0], SV(sv.rest[1..], false))
  }

  /** `is.putback(c)`: pushes c in front of the input, refused when failbit is set. */
  function PutbackSpec(sv: SV, c: char): (r: SV)
    ensures sv.failed ==> r == sv
    ensures !sv.failed ==> r == SV([c] + sv.rest, false)
  {
    if sv.failed then sv else SV([c] + sv.rest, false)
  }

  // ---------------------------------------------------------------------
  // The input stream
  // ---------------------------------------------------------------------

  /** The istream the parser consumes: the characters still to be read, and failbit. */
  class CharStream {
    var rest: seq<char>
    var failed: bool

    /** A failed stream delivers nothing. */
    ghost predicate Valid()
      reads this
    {
      failed ==> |rest| == 0
    }

    /** The stream as the parser sees it. */
    function View(): (sv: SV)
      reads this
    {
      SV(rest, failed)
    }

    /** operator bool: the stream has not failed. */
    function Good(): (b: bool)
      reads this
      ensures b == !View().failed
    {
      !failed
    }

    /** A string stream over text. */
    constructor (text: seq<char>)
      ensures Valid() && View() == SV(text, false)
    {
      rest := text;
      failed := false;
    }

    /** `is >> c`. */
    method Get() returns (ok: bool, c: char)
      requires Valid()
      modifies this
      ensures Valid()
      ensures (ok, c, View()) == ReadSpec(old(View()))
    {
      if failed || |rest| == 0 {
        rest := [];
        failed := true;
        return false, '\0';
      }
      c := rest[0];
      rest := rest[1..];
      ok := true;
    }

    /** `is.putback(c)`. */
    method Putback(c: char)
      requires Valid()
      modifies this
      ensures Valid()
      ensures View() == PutbackSpec(old(View()), c)
    {
      if !failed {
        rest := [c] + rest;
      }
    }
  }

  // ---------------------------------------------------------------------
  // Specification of match_any
  // ---------------------------------------------------------------------

  /** The outcome of a scan: the token, how many characters were read, and how it ended. */
  datatype Scan = Scan(token: seq<char>, used: nat, hit: bool)

  /** The `leading` flag after reading c (it only changes while skipping). */
  function NextLeading(skip: bool, leading: bool, c: char): bool
  {
    if skip && leading then IsSpace(c) else leading
  }

  /**
   * The match_any loop on the text s: characters up to the first one in
   * delims, leading whitespace dropped while skip is on; hit when a
   * delimiter ended the loop, otherwise the read at end of input failed.
   */
  function ScanAny(s: seq<char>, delims: seq<char>, skip: bool, leading: bool): (r: Scan)
    ensures r.used <= |s|
    ensures r.hit ==> 1 <= r.used
    ensures !r.hit ==> r.used == |s|
  {
    if |s| == 0 then Scan([], 0, false)
    else if s[0] in delims then Scan([], 1, true)
    else
      var r := ScanAny(s[1..], delims, skip, NextLeading(skip, leading, s[0]));
      var kept := if skip && leading && IsSpace(s[0]) then [] else [s[0]];
      Scan(kept + r.token, 1 + r.used, r.hit)
  }

  /** A scan of a suffix, seen from the start of the input: what was read before is prepended. */
  function Shifted(before: seq<char>, consumed: nat, r: Scan): Scan
  {
    Scan(before + r.token, consumed + r.used, r.hit)
  }

  /** One round of the match_any loop on a character that is not a delimiter. */
  lemma AnyAdvance(r0: Scan, token: seq<char>, consumed: nat, s0: seq<char>, delims: seq<char>,
                   skip: bool, leading: bool)
    requires consumed < |s0| && s0[consumed] !in delims
    requires r0 == Shifted(token, consumed, ScanAny(s0[consumed..], delims, skip, leading))
    ensures var c := s0[consumed];
      var kept := if skip && leading && IsSpace(c) then [] else [c];
      r0 == Shifted(token + kept, consumed + 1,
                    ScanAny(s0[consumed + 1..], delims, skip, NextLeading(skip, leading, c)))
  {
    var here := s0[consumed..];
    assert here[1..] == s0[consumed + 1..];
    var c := s0[consumed];
    var kept := if skip && leading && IsSpace(c) then [] else [c];
    var r1 := ScanAny(here[1..], delims, skip, NextLeading(skip, leading, c));
    assert token + (kept + r1.token) == (token + kept) + r1.token;
  }

  /**
   * The match_any loop itself, one character per call: i characters of s
   * have been read, token is what has been kept, leading is still set
   * while only whitespace has been seen.
   */
  function AnyLoop(s: seq<char>, i: nat, delims: seq<char>, skip: bool, leading: bool,
                   token: seq<char>): Scan
    requires i <= |s|
    decreases |s| - i
  {
    if i == |s| then Scan(token, i, false)
    else if s[i] in delims then Scan(token, i + 1, true)
    else if skip && leading && IsSpace(s[i]) then AnyLoop(s, i + 1, delims, skip, leading, token)
    else AnyLoop(s, i + 1, delims, skip, if skip && leading then false else leading, token + [s[i]])
  }

  /** The loop stops after the character that ended it, or at end of input. */
  lemma {:induction false} AnyLoopBounds(s: seq<char>, i: nat, delims: seq<char>, skip: bool, leading: bool,
                                         token: seq<char>)
    requires i <= |s|
    ensures var r := AnyLoop(s, i, delims, skip, leading, token);
      && i <= r.used <= |s|
      && (r.hit ==> i < r.used)
      && (!r.hit ==> r.used == |s|)
    decreases |s| - i
  {
    if i < |s| && s[i] !in delims {
      if skip && leading && IsSpace(s[i]) {
        AnyLoopBounds(s, i + 1, delims, skip, leading, token);
      } else {
        AnyLoopBounds(s, i + 1, delims, skip, if skip && leading then false else leading, token + [s[i]]);
      }
    }
  }

  /** The loop computes the recursive scan of what is left, shifted by what it already read. */
  lemma {:induction false} AnyLoopScan(s: seq<char>, i: nat, delims: seq<char>, skip: bool, leading: bool,
                                       token: seq<char>)
    requires i <= |s|
    ensures AnyLoop(s, i, delims, skip, leading, token) == Shifted(token, i, ScanAny(s[i..], delims, skip, leading))
    decreases |s| - i
  {
    if i == |s| {
      assert token + [] == token;
    } else if s[i] in delims {
      assert token + [] == token;
    } else {
      var c := s[i];
      var kept := if skip && leading && IsSpace(c) then [] else [c];
      AnyLoopScan(s, i + 1, delims, skip, NextLeading(skip, leading, c), token + kept);
      AnyAdvance(Shifted(token, i, ScanAny(s[i..], delims, skip, leading)), token, i, s, delims, skip, leading);
      if skip && leading && IsSpace(c) {
        assert token + kept == token;
      }
    }
  }

  /** match_any on the abstract state: token, new configuration, new stream. */
  function MatchAnyStep(cfg: Config, sv: SV): (seq<char>, Config, SV)
  {
    if sv.failed then ([], cfg, sv)
    else
      var r := AnyLoop(sv.rest, 0, cfg.delims, cfg.skipWs, true, []);
      AnyLoopBounds(sv.rest, 0, cfg.delims, cfg.skipWs, true, []);
      if r.hit then
        (r.token, cfg.(lastDelim := sv.rest[r.used - 1]),
         SV(if cfg.keepDelim then sv.rest[r.used - 1..] else sv.rest[r.used..], false))
      else (r.token, cfg, SV([], true))
  }

  /** Putting back the character just read restores the text. */
  lemma PutbackRestores(s: seq<char>, i: nat)
    requires 0 < i <= |s|
    ensures [s[i - 1]] + s[i..] == s[i - 1..]
  {
  }

  /** MatchAnyStep read off the outcome of the scan. */
  lemma MatchAnyOutcome(cfg: Config, s: seq<char>, r: Scan)
    requires r == AnyLoop(s, 0, cfg.delims, cfg.skipWs, true, [])
    ensures r.used <= |s| && (r.hit ==> 1 <= r.used)
    ensures r.hit ==> (MatchAnyStep(cfg, SV(s, false))
                       == (r.token, cfg.(lastDelim := s[r.used - 1]),
                           SV(if cfg.keepDelim then s[r.used - 1..] else s[r.used..], false)))
    ensures !r.hit ==> MatchAnyStep(cfg, SV(s, false)) == (r.token, cfg, SV([], true))
  {
    AnyLoopBounds(s, 0, cfg.delims, cfg.skipWs, true, []);
  }

  /** Index of the first character of s that is in delims, or |s|. */
  function FirstIn(s: seq<char>, delims: seq<char>): (k: nat)
    ensures k <= |s|
  {
    if |s| == 0 then 0 else if s[0] in delims then 0 else 1 + FirstIn(s[1..], delims)
  }

  /** FirstIn finds the first delimiter: none comes before it. */
  lemma {:induction false} FirstInSpec(s: seq<char>, delims: seq<char>)
    ensures forall j :: 0 <= j < FirstIn(s, delims) ==> s[j] !in delims
    ensures FirstIn(s, delims) < |s| ==> s[FirstIn(s, delims)] in delims
  {
    if s != [] && s[0] !in delims {
      FirstInSpec(s[1..], delims);
    }
  }

  /** FirstIn read off a scan: no delimiter among the first k characters, and one (or the end) at k. */
  lemma {:induction false} FirstInAt(s: seq<char>, delims: seq<char>, k: nat)
    requires k <= |s| && forall j :: 0 <= j < k ==> s[j] !in delims
    ensures k <= FirstIn(s, delims)
    ensures k < |s| && s[k] in delims ==> FirstIn(s, delims) == k
  {
    if k > 0 {
      FirstInAt(s[1..], delims, k - 1);
    }
  }

  /** t without its leading run of whitespace. */
  function DropLeadingSpace(t: seq<char>): (r: seq<char>)
    ensures |r| <= |t|
  {
    if |t| == 0 then []
    else if IsSpace(t[0]) then DropLeadingSpace(t[1..])
    else t
  }

  /** What is dropped is whitespace, what is kept is a suffix starting with non-whitespace. */
  lemma {:induction false} DropLeadingSpaceSpec(t: seq<char>)
    ensures var r := DropLeadingSpace(t);
      && r == t[|t| - |r|..]
      && (r != [] ==> !IsSpace(r[0]))
      && (forall j :: 0 <= j < |t| - |r| ==> IsSpace(t[j]))
  {
    if t != [] && IsSpace(t[0]) {
      DropLeadingSpaceSpec(t[1..]);
      assert t[1..][|t| - 1 - |DropLeadingSpace(t)|..] == t[|t| - |DropLeadingSpace(t)|..];
    }
  }

  /**
   * Whitespace after the first non-whitespace character of a token is
   * kept: dropping the leading run never touches an inner one.
   */
  lemma DropLeadingSpaceKeepsInner(t: seq<char>, u: seq<char>)
    requires t != [] && !IsSpace(t[0])
    ensures DropLeadingSpace(t + u) == t + u
  {
  }

  /**
   * Closed form of match_any's scan: with k the index of the first
   * delimiter, the token is s[..k] (less its leading whitespace when
   * skipping), k + 1 characters are used and the scan hits; without a
   * delimiter the whole input is the token and the scan misses.
   */
  lemma ScanAnyClosedForm(s: seq<char>, delims: seq<char>, skip: bool, leading: bool)
    ensures var k := FirstIn(s, delims);
      var r := ScanAny(s, delims, skip, leading);
      && r.hit == (k < |s|)
      && r.used == (if k < |s| then k + 1 else |s|)
      && r.token == (if skip && leading then DropLeadingSpace(s[..k]) else s[..k])
  {
    ScanAnyUsed(s, delims, skip, leading);
    ScanAnyToken(s, delims, skip, leading);
  }

  /** Where match_any's scan stops: just after the first delimiter, or at the end. */
  lemma {:induction false} ScanAnyUsed(s: seq<char>, delims: seq<char>, skip: bool, leading: bool)
    ensures var k := FirstIn(s, delims);
      var r := ScanAny(s, delims, skip, leading);
      r.hit == (k < |s|) && r.used == (if k < |s| then k + 1 else |s|)
  {
    if |s| > 0 && s[0] !in delims {
      ScanAnyUsed(s[1..], delims, skip, NextLeading(skip, leading, s[0]));
    }
  }

  /** What match_any's scan keeps: the text before the first delimiter, less leading whitespace when skipping. */
  lemma {:induction false} ScanAnyToken(s: seq<char>, delims: seq<char>, skip: bool, leading: bool)
    ensures var k := FirstIn(s, delims);
      ScanAny(s, delims, skip, leading).token == (if skip && leading then DropLeadingSpace(s[..k]) else s[..k])
  {
    if |s| > 0 && s[0] !in delims {
      var nl := NextLeading(skip, leading, s[0]);
      var t := s[1..];
      ScanAnyToken(t, delims, skip, nl);
      var k' := FirstIn(t, delims);
      var u := t[..k'];
      assert FirstIn(s, delims) == 1 + k';
      PrependTake(s, k', u);
      TokenStep(s[0], u, skip, leading);
    }
  }

  /** The token of a scan, one character at a time: what the first character contributes, then the rest. */
  lemma TokenStep(c: char, u: seq<char>, skip: bool, leading: bool)
    ensures (if skip && leading then DropLeadingSpace([c] + u) else [c] + u)
            == (if skip && leading && IsSpace(c) then [] else [c])
               + (if skip && NextLeading(skip, leading, c) then DropLeadingSpace(u) else u)
  {
    assert ([c] + u)[1..] == u;
    if skip && leading && IsSpace(c) {
      assert [] + DropLeadingSpace(u) == DropLeadingSpace(u);
    }
  }

  /** match_any's loop and the recursive scan give the same outcome. */
  lemma MatchAnyByScan(cfg: Config, s: seq<char>)
    ensures var r := ScanAny(s, cfg.delims, cfg.skipWs, true);
      MatchAnyStep(cfg, SV(s, false))
      == if r.hit then (r.token, cfg.(lastDelim := s[r.used - 1]),
                        SV(if cfg.keepDelim then s[r.used - 1..] else s[r.used..], false))
         else (r.token, cfg, SV([], true))
  {
    var r := ScanAny(s, cfg.delims, cfg.skipWs, true);
    AnyLoopScan(s, 0, cfg.delims, cfg.skipWs, true, []);
    assert s[0..] == s;
    assert [] + r.token == r.token;
    assert AnyLoop(s, 0, cfg.delims, cfg.skipWs, true, []) == r;
    MatchAnyOutcome(cfg, s, r);
  }

  /**
   * match_any: the token is everything read before the first delimiter,
   * which is recorded in lastDelim and excluded from the token; with
   * keep-delims it is put back so the next read sees it, without it stays
   * consumed. When the input ends first, the token is what was read, the
   * stream fails and lastDelim keeps its value.
   */
  lemma MatchAnyContract(cfg: Config, s: seq<char>)
    ensures var k := FirstIn(s, cfg.delims);
      var step := MatchAnyStep(cfg, SV(s, false));
      && step.0 == (if cfg.skipWs then DropLeadingSpace(s[..k]) else s[..k])
      && (forall j :: 0 <= j < |step.0| ==> step.0[j] !in cfg.delims)
      && (k < |s| ==>
            && step.1 == cfg.(lastDelim := s[k])
            && s[k] in cfg.delims
            && step.2 == SV(if cfg.keepDelim then s[k..] else s[k + 1..], false))
      && (k == |s| ==> step.1 == cfg && step.2 == SV([], true))
  {
    MatchAnyClosedForm(cfg, s);
    FirstInSpec(s, cfg.delims);
    NoDelimInPrefix(s, cfg.delims, cfg.skipWs);
  }

  /** MatchAnyStep in closed form, from the closed form of the scan. */
  lemma MatchAnyClosedForm(cfg: Config, s: seq<char>)
    ensures var k := FirstIn(s, cfg.delims);
      var token := if cfg.skipWs then DropLeadingSpace(s[..k]) else s[..k];
      MatchAnyStep(cfg, SV(s, false))
      == if k < |s| then (token, cfg.(lastDelim := s[k]), SV(if cfg.keepDelim then s[k..] else s[k + 1..], false))
         else (token, cfg, SV([], true))
  {
    ScanAnyClosedForm(s, cfg.delims, cfg.skipWs, true);
    MatchAnyByScan(cfg, s);
  }

  lemma NoDelimInPrefix(s: seq<char>, delims: seq<char>, skip: bool)
    ensures var k := FirstIn(s, delims);
      var t := if skip then DropLeadingSpace(s[..k]) else s[..k];
      forall j :: 0 <= j < |t| ==> t[j] !in delims
  {
    var k := FirstIn(s, delims);
    FirstInSpec(s, delims);
    DropLeadingSpaceSpec(s[..k]);
    var t := if skip then DropLeadingSpace(s[..k]) else s[..k];
    forall j | 0 <= j < |t| ensures t[j] !in delims {
      assert t[j] == s[..k][k - |t| + j];
    }
  }

  // ---------------------------------------------------------------------
  // Specification of match_all
  // ---------------------------------------------------------------------

  /** Length of the longest common prefix of x and y. */
  function CommonPrefix(x: seq<char>, y: seq<char>): (m: nat)
    ensures m <= |x| && m <= |y|
  {
    if |x| == 0 || |y| == 0 || x[0] != y[0] then 0
    else 1 + CommonPrefix(x[1..], y[1..])
  }

  /** CommonPrefix is the longest common prefix: equal up to it, different at it. */
  lemma {:induction false} CommonPrefixSpec(x: seq<char>, y: seq<char>)
    ensures var m := CommonPrefix(x, y);
      && x[..m] == y[..m]
      && (m < |x| && m < |y| ==> x[m] != y[m])
  {
    if !(x == [] || y == [] || x[0] != y[0]) {
      CommonPrefixSpec(x[1..], y[1..]);
      var m := CommonPrefix(x, y);
      assert x[..m] == [x[0]] + x[1..][..m - 1];
      assert y[..m] == [y[0]] + y[1..][..m - 1];
    }
  }

  /** A character buffer read as a C string: up to, not including, the first NUL. */
  function CString(b: seq<char>): (r: seq<char>)
    ensures |r| <= |b|
  {
    if |b| == 0 || b[0] == '\0' then []
    else [b[0]] + CString(b[1..])
  }

  /**
   * The match_all loop on the text s for the delimiter string d. A
   * character other than d[0] is pushed to the token (leading whitespace
   * skipped). At d[0] up to |d| - 1 more characters are compared with d:
   * a full match ends the token; a mismatch appends everything read in the
   * attempt, as a C string, and scanning resumes AFTER the mismatching
   * character; end of input part-way through also ends the loop.
   * `hit` is set only for a full match.
   */
  function ScanAll(s: seq<char>, d: seq<char>, skip: bool, leading: bool): (r: Scan)
    requires |d| >= 1
    ensures r.used <= |s|
    ensures r.hit ==> |d| <= r.used
    ensures !r.hit ==> r.used == |s|
    decreases |s|
  {
    if |s| == 0 then Scan([], 0, false)
    else if s[0] != d[0] then
      var r := ScanAll(s[1..], d, skip, NextLeading(skip, leading, s[0]));
      var kept := if skip && leading && IsSpace(s[0]) then [] else [s[0]];
      Scan(kept + r.token, 1 + r.used, r.hit)
    else
      var m := CommonPrefix(s[1..], d[1..]);
      if m == |d| - 1 then Scan([], |d|, true)
      else if m == |s| - 1 then Scan([], |s|, false)
      else
        var attempt := s[..m + 2];
        var r := ScanAll(s[m + 2..], d, skip, leading);
        Scan(CString(attempt) + r.token, m + 2 + r.used, r.hit)
  }

  /**
   * The inner for loop of match_all: s[i] == d[0] has been read and
   * s[i + 1..i + j] matched d[1..j]; the loop stops at the first j where
   * the delimiter is complete, the input ends or the next character differs.
   */
  function MatchLen(s: seq<char>, i: nat, d: seq<char>, j: nat): (r: nat)
    requires 1 <= j <= |d| && i + j <= |s|
    ensures j <= r <= |d| && i + r <= |s|
    decreases |d| - j
  {
    if j == |d| || i + j == |s| || s[i + j] != d[j] then j
    else MatchLen(s, i, d, j + 1)
  }

  /** The inner loop stops one character past the common prefix. */
  lemma {:induction false} MatchLenPrefix(s: seq<char>, i: nat, d: seq<char>, j: nat)
    requires 1 <= j <= |d| && i + j <= |s|
    ensures MatchLen(s, i, d, j) == j + CommonPrefix(s[i + j..], d[j..])
    decreases |d| - j
  {
    if !(j == |d| || i + j == |s| || s[i + j] != d[j]) {
      MatchLenPrefix(s, i, d, j + 1);
      assert s[i + j..][1..] == s[i + j + 1..];
      assert d[j..][1..] == d[j + 1..];
    }
  }

  /**
   * The match_all loop itself: i characters of s have been read and token
   * is what has been kept. The next character either cannot start the
   * delimiter (AllOther) or starts an attempt (AllAttempt).
   */
  function AllLoop(s: seq<char>, i: nat, d: seq<char>, skip: bool, leading: bool,
                   token: seq<char>): Scan
    requires |d| >= 1 && i <= |s|
    decreases |s| - i, 1
  {
    if i == |s| then Scan(token, i, false)
    else if s[i] != d[0] then AllOther(s, i, d, skip, leading, token)
    else AllAttempt(s, i, d, skip, leading, token)
  }

  /** The loop after reading s[i], which is not d[0]: kept, or skipped as leading whitespace. */
  function AllOther(s: seq<char>, i: nat, d: seq<char>, skip: bool, leading: bool,
                    token: seq<char>): Scan
    requires |d| >= 1 && i < |s|
    decreases |s| - i, 0
  {
    if skip && leading && IsSpace(s[i]) then AllLoop(s, i + 1, d, skip, leading, token)
    else AllLoop(s, i + 1, d, skip, if skip && leading then false else leading, token + [s[i]])
  }

  /**
   * The loop after reading s[i] == d[0]: a full match or end of input
   * part-way ends it; a mismatch appends the attempt as a C string and
   * the loop resumes after the mismatching character.
   */
  function AllAttempt(s: seq<char>, i: nat, d: seq<char>, skip: bool, leading: bool,
                      token: seq<char>): Scan
    requires |d| >= 1 && i < |s|
    decreases |s| - i, 0
  {
    var j := MatchLen(s, i, d, 1);
    if j == |d| then Scan(token, i + j, true)
    else if i + j == |s| then Scan(token, i + j, false)
    else AllLoop(s, i + j + 1, d, skip, leading, token + CString(s[i..i + j + 1]))
  }

  /**
   * The outcome of the inner loop for an attempt at s[i] == d[0]: whether
   * it counts as a match, how many characters it compared, the text a
   * mismatch appends to the token, and what is left to read.
   */
  datatype Attempt = Attempt(matched: bool, len: nat, text: seq<char>, after: SV)

  function AttemptAt(s: seq<char>, i: nat, d: seq<char>): (a: Attempt)
    requires |d| >= 1 && i < |s|
  {
    var j := MatchLen(s, i, d, 1);
    if j == |d| || i + j == |s| then Attempt(true, j, [], SV(s[i + j..], j < |d|))
    else Attempt(false, j, CString(s[i..i + j + 1]), SV(s[i + j + 1..], false))
  }

  /** An attempt that fails at its (i + 1)-th character, read from a zero-padded buffer. */
  lemma MismatchAttempt(s: seq<char>, at: nat, d: seq<char>, i: nat, b: seq<char>)
    requires 1 <= i < |d| && at + i < |s| && s[at + i] != d[i]
    requires MatchLen(s, at, d, i) == MatchLen(s, at, d, 1)
    requires i + 1 <= |b| && b[..i + 1] == s[at..at + i + 1]
    requires forall j :: i + 1 <= j < |b| ==> b[j] == '\0'
    ensures AttemptAt(s, at, d) == Attempt(false, i, CString(b), SV(s[at + i + 1..], false))
  {
    assert MatchLen(s, at, d, i) == i;
    BufferText(b, s, at, i + 1);
    AttemptMismatch(s, at, d, i);
  }

  /** AttemptAt when the inner loop stops at a mismatching character. */
  lemma AttemptMismatch(s: seq<char>, at: nat, d: seq<char>, j: nat)
    requires |d| >= 1 && at < |s| && j == MatchLen(s, at, d, 1)
    requires j < |d| && at + j < |s|
    ensures AttemptAt(s, at, d) == Attempt(false, j, CString(s[at..at + j + 1]), SV(s[at + j + 1..], false))
  {
  }

  /** The loop stops after the delimiter, or at end of input. */
  lemma {:induction false} AllLoopBounds(s: seq<char>, i: nat, d: seq<char>, skip: bool, leading: bool,
                                         token: seq<char>)
    requires |d| >= 1 && i <= |s|
    ensures var r := AllLoop(s, i, d, skip, leading, token);
      && i <= r.used <= |s|
      && (r.hit ==> i + |d| <= r.used)
      && (!r.hit ==> r.used == |s|)
    decreases |s| - i
  {
    if i == |s| {
    } else if s[i] != d[0] {
      if skip && leading && IsSpace(s[i]) {
        AllLoopBounds(s, i + 1, d, skip, leading, token);
      } else {
        AllLoopBounds(s, i + 1, d, skip, if skip && leading then false else leading, token + [s[i]]);
      }
    } else {
      var j := MatchLen(s, i, d, 1);
      if j != |d| && i + j != |s| {
        AllLoopBounds(s, i + j + 1, d, skip, leading, token + CString(s[i..i + j + 1]));
      }
    }
  }

  /** The loop computes the recursive scan of what is left, shifted by what it already read. */
  lemma {:induction false} AllLoopScan(s: seq<char>, i: nat, d: seq<char>, skip: bool, leading: bool,
                                       token: seq<char>)
    requires |d| >= 1 && i <= |s|
    ensures AllLoop(s, i, d, skip, leading, token) == Shifted(token, i, ScanAll(s[i..], d, skip, leading))
    decreases |s| - i
  {
    if i == |s| {
      assert token + [] == token;
    } else if s[i] != d[0] {
      var kept := if skip && leading && IsSpace(s[i]) then [] else [s[i]];
      var nl := NextLeading(skip, leading, s[i]);
      AllLoopScan(s, i + 1, d, skip, nl, token + kept);
      AllLoopScanOther(s, i, d, skip, leading, token);
    } else {
      var j := MatchLen(s, i, d, 1);
      if j == |d| || i + j == |s| {
        AllLoopScanHit(s, i, d, skip, leading, token, j);
      } else {
        AllLoopScan(s, i + j + 1, d, skip, leading, token + CString(s[i..i + j + 1]));
        AllLoopScanAttempt(s, i, d, skip, leading, token, j);
      }
    }
  }

  /** AllLoopScan at an attempt that ends the loop: a full match, or end of input part-way. */
  lemma AllLoopScanHit(s: seq<char>, i: nat, d: seq<char>, skip: bool, leading: bool, token: seq<char>,
                       j: nat)
    requires |d| >= 1 && i < |s| && s[i] == d[0]
    requires j == MatchLen(s, i, d, 1) && (j == |d| || i + j == |s|)
    ensures AllLoop(s, i, d, skip, leading, token) == Shifted(token, i, ScanAll(s[i..], d, skip, leading))
  {
    MatchLenPrefix(s, i, d, 1);
    assert s[i..][1..] == s[i + 1..];
    assert token + [] == token;
  }

  /** The inductive step of AllLoopScan over a character that cannot start the delimiter. */
  lemma AllLoopScanOther(s: seq<char>, i: nat, d: seq<char>, skip: bool, leading: bool, token: seq<char>)
    requires |d| >= 1 && i < |s| && s[i] != d[0]
    requires var kept := if skip && leading && IsSpace(s[i]) then [] else [s[i]];
      var nl := NextLeading(skip, leading, s[i]);
      AllLoop(s, i + 1, d, skip, nl, token + kept) == Shifted(token + kept, i + 1, ScanAll(s[i + 1..], d, skip, nl))
    ensures AllLoop(s, i, d, skip, leading, token) == Shifted(token, i, ScanAll(s[i..], d, skip, leading))
  {
    var kept := if skip && leading && IsSpace(s[i]) then [] else [s[i]];
    var nl := NextLeading(skip, leading, s[i]);
    AllLoopOther(s, i, d, skip, leading, token);
    ScanAllOtherAt(s, i, d, skip, leading);
    ShiftMore(token, kept, i, 1, ScanAll(s[i + 1..], d, skip, nl));
  }

  /** The inductive step of AllLoopScan over a failed attempt of j + 1 characters. */
  lemma AllLoopScanAttempt(s: seq<char>, i: nat, d: seq<char>, skip: bool, leading: bool, token: seq<char>,
                           j: nat)
    requires |d| >= 1 && i < |s| && s[i] == d[0]
    requires j == MatchLen(s, i, d, 1) && j < |d| && i + j < |s|
    requires var attempt := CString(s[i..i + j + 1]);
      AllLoop(s, i + j + 1, d, skip, leading, token + attempt)
      == Shifted(token + attempt, i + j + 1, ScanAll(s[i + j + 1..], d, skip, leading))
    ensures AllLoop(s, i, d, skip, leading, token) == Shifted(token, i, ScanAll(s[i..], d, skip, leading))
  {
    AllLoopAttempt(s, i, d, skip, leading, token, j, CString(s[i..i + j + 1]));
    ScanAllAttemptAt(s, i, d, skip, leading, j);
    ShiftMore(token, CString(s[i..i + j + 1]), i, j + 1, ScanAll(s[i + j + 1..], d, skip, leading));
  }

  /** One step of the loop over a character that cannot start the delimiter. */
  lemma AllLoopOther(s: seq<char>, i: nat, d: seq<char>, skip: bool, leading: bool, token: seq<char>)
    requires |d| >= 1 && i < |s| && s[i] != d[0]
    ensures var kept := if skip && leading && IsSpace(s[i]) then [] else [s[i]];
      AllLoop(s, i, d, skip, leading, token)
      == AllLoop(s, i + 1, d, skip, NextLeading(skip, leading, s[i]), token + kept)
  {
    if skip && leading && IsSpace(s[i]) {
      assert token + [] == token;
    }
  }

  /** One step of the loop over a failed attempt. */
  lemma AllLoopAttempt(s: seq<char>, i: nat, d: seq<char>, skip: bool, leading: bool, token: seq<char>,
                       j: nat, piece: seq<char>)
    requires |d| >= 1 && i < |s| && s[i] == d[0]
    requires j == MatchLen(s, i, d, 1) && j < |d| && i + j < |s|
    requires piece == CString(s[i..i + j + 1])
    ensures AllLoop(s, i, d, skip, leading, token) == AllLoop(s, i + j + 1, d, skip, leading, token + piece)
  {
  }

  /**
   * What one delimiter attempt at s[i] means for the loop: a match (or end
   * of input part-way) ends it there; a mismatch continues it after the
   * attempt with the attempt's text appended to the token.
   */
  lemma AttemptOutcome(s: seq<char>, i: nat, d: seq<char>, skip: bool, leading: bool, token: seq<char>,
                       j: nat, matched: bool, piece: seq<char>)
    requires |d| >= 1 && i < |s| && s[i] == d[0]
    requires j == MatchLen(s, i, d, 1)
    requires matched == (j == |d| || i + j == |s|)
    requires !matched ==> piece == CString(s[i..i + j + 1])
    ensures matched ==> AllLoop(s, i, d, skip, leading, token) == Scan(token, i + j, j == |d|)
    ensures !matched ==> && i + j + 1 <= |s|
                         && AllLoop(s, i, d, skip, leading, token)
                            == AllLoop(s, i + j + 1, d, skip, leading, token + piece)
  {
    if !matched {
      AllLoopAttempt(s, i, d, skip, leading, token, j, piece);
    }
  }

  /** ScanAll of a suffix over a character that cannot start the delimiter. */
  lemma ScanAllOtherAt(s: seq<char>, i: nat, d: seq<char>, skip: bool, leading: bool)
    requires |d| >= 1 && i < |s| && s[i] != d[0]
    ensures var r := ScanAll(s[i + 1..], d, skip, NextLeading(skip, leading, s[i]));
      var kept := if skip && leading && IsSpace(s[i]) then [] else [s[i]];
      ScanAll(s[i..], d, skip, leading) == Scan(kept + r.token, 1 + r.used, r.hit)
  {
    assert s[i..][1..] == s[i + 1..];
    ScanAllOther(s[i..], d, skip, leading);
  }

  /** ScanAll of a suffix over a failed attempt of j + 1 characters. */
  lemma ScanAllAttemptAt(s: seq<char>, i: nat, d: seq<char>, skip: bool, leading: bool, j: nat)
    requires |d| >= 1 && i < |s| && s[i] == d[0]
    requires j == MatchLen(s, i, d, 1) && j < |d| && i + j < |s|
    ensures var r := ScanAll(s[i + j + 1..], d, skip, leading);
      ScanAll(s[i..], d, skip, leading) == Scan(CString(s[i..i + j + 1]) + r.token, j + 1 + r.used, r.hit)
  {
    var t := s[i..];
    MatchLenPrefix(s, i, d, 1);
    assert t[1..] == s[i + 1..];
    assert t[..j + 1] == s[i..i + j + 1];
    assert t[j + 1..] == s[i + j + 1..];
    ScanAllAttempt(t, d, skip, leading, j - 1);
  }

  /** Prepending to the token what one step kept, and advancing the count by what it read. */
  lemma ShiftMore(token: seq<char>, extra: seq<char>, i: nat, n: nat, r: Scan)
    ensures Shifted(token + extra, i + n, r) == Shifted(token, i, Scan(extra + r.token, n + r.used, r.hit))
  {
    assert (token + extra) + r.token == token + (extra + r.token);
  }

  /** ScanAll over a character that cannot start the delimiter. */
  lemma ScanAllOther(t: seq<char>, d: seq<char>, skip: bool, leading: bool)
    requires |d| >= 1 && |t| > 0 && t[0] != d[0]
    ensures var r := ScanAll(t[1..], d, skip, NextLeading(skip, leading, t[0]));
      var kept := if skip && leading && IsSpace(t[0]) then [] else [t[0]];
      ScanAll(t, d, skip, leading) == Scan(kept + r.token, 1 + r.used, r.hit)
  {
  }

  /** ScanAll over an attempt that fails at its (m + 2)-th character. */
  lemma ScanAllAttempt(t: seq<char>, d: seq<char>, skip: bool, leading: bool, m: nat)
    requires |d| >= 1 && |t| > 0 && t[0] == d[0]
    requires m == CommonPrefix(t[1..], d[1..]) && m < |d| - 1 && m < |t| - 1
    ensures var r := ScanAll(t[m + 2..], d, skip, leading);
      ScanAll(t, d, skip, leading) == Scan(CString(t[..m + 2]) + r.token, m + 2 + r.used, r.hit)
  {
  }

  /** match_all on the abstract state; lastDelim is never touched. */
  function MatchAllStep(cfg: Config, sv: SV): (seq<char>, Config, SV)
    requires |cfg.delims| >= 1
  {
    if sv.failed then ([], cfg, sv)
    else
      var r := AllLoop(sv.rest, 0, cfg.delims, cfg.skipWs, true, []);
      AllLoopBounds(sv.rest, 0, cfg.delims, cfg.skipWs, true, []);
      if r.hit then
        (r.token, cfg,
         SV(if cfg.keepDelim then cfg.delims + sv.rest[r.used..] else sv.rest[r.used..], false))
      else (r.token, cfg, SV([], true))
  }

  /** MatchAllStep read off the outcome of the loop. */
  lemma MatchAllOutcome(cfg: Config, s: seq<char>, r: Scan)
    requires |cfg.delims| >= 1
    requires r == AllLoop(s, 0, cfg.delims, cfg.skipWs, true, [])
    ensures r.used <= |s|
    ensures r.hit ==> (MatchAllStep(cfg, SV(s, false))
                       == (r.token, cfg, SV(if cfg.keepDelim then cfg.delims + s[r.used..] else s[r.used..], false)))
    ensures !r.hit ==> MatchAllStep(cfg, SV(s, false)) == (r.token, cfg, SV([], true))
  {
    AllLoopBounds(s, 0, cfg.delims, cfg.skipWs, true, []);
  }

  /** match_all's loop and the recursive scan give the same outcome. */
  lemma MatchAllByScan(cfg: Config, s: seq<char>)
    requires |cfg.delims| >= 1
    ensures var r := ScanAll(s, cfg.delims, cfg.skipWs, true);
      MatchAllStep(cfg, SV(s, false))
      == if r.hit then (r.token, cfg,
                        SV(if cfg.keepDelim then cfg.delims + s[r.used..] else s[r.used..], false))
         else (r.token, cfg, SV([], true))
  {
    var r := ScanAll(s, cfg.delims, cfg.skipWs, true);
    AllLoopScan(s, 0, cfg.delims, cfg.skipWs, true, []);
    assert s[0..] == s;
    assert [] + r.token == r.token;
    assert AllLoop(s, 0, cfg.delims, cfg.skipWs, true, []) == r;
  }

  /** next_match: dispatch on matchAll_. */
  function NextMatchStep(cfg: Config, sv: SV): (r: (seq<char>, Config, SV))
    requires cfg.matchAll ==> |cfg.delims| >= 1
    ensures r.1.delims == cfg.delims && r.1.matchAll == cfg.matchAll
    ensures r.1.keepDelim == cfg.keepDelim && r.1.skipWs == cfg.skipWs
  {
    if cfg.matchAll then MatchAllStep(cfg, sv) else MatchAnyStep(cfg, sv)
  }

  /**
   * A read never lengthens what the stream still offers; without
   * keep-delims a read that leaves the stream good has consumed at least
   * its delimiter.
   */
  lemma NextMatchShrinks(cfg: Config, sv: SV)
    requires cfg.matchAll ==> |cfg.delims| >= 1
    ensures var r := NextMatchStep(cfg, sv);
      && Measure(r.2) <= Measure(sv)
      && (!cfg.keepDelim && !r.2.failed ==> Measure(r.2) < Measure(sv))
  {
    if !sv.failed {
      if cfg.matchAll {
        MatchAllByScan(cfg, sv.rest);
      } else {
        MatchAnyClosedForm(cfg, sv.rest);
      }
    }
  }

  /** No character of s equals d[0]: no match attempt can start in s. */
  predicate NoStart(s: seq<char>, d: seq<char>)
    requires |d| >= 1
  {
    forall j :: 0 <= j < |s| ==> s[j] != d[0]
  }

  /**
   * No input is lost in match-all mode (without whitespace skipping and
   * NUL characters): on a full match the text read is the token followed
   * by the delimiter; otherwise the input is the token followed by a
   * proper prefix of the delimiter, the one part dropped.
   */
  predicate NoInputLost(s: seq<char>, d: seq<char>, r: Scan)
  {
    && (r.hit ==> r.used <= |s| && s[..r.used] == r.token + d)
    && (!r.hit ==> |r.token| <= |s| < |r.token| + |d| && s == r.token + d[..|s| - |r.token|])
  }

  lemma {:induction false} ScanAllNoInputLost(s: seq<char>, d: seq<char>, leading: bool)
    requires |d| >= 1 && '\0' !in s
    ensures NoInputLost(s, d, ScanAll(s, d, false, leading))
    decreases |s|
  {
    if s == [] {
      assert s == [] + d[..0];
    } else if s[0] != d[0] {
      var nl := NextLeading(false, leading, s[0]);
      ScanAllNoInputLost(s[1..], d, nl);
      NoInputLostOther(s, d, ScanAll(s[1..], d, false, nl));
    } else {
      var m := CommonPrefix(s[1..], d[1..]);
      if m == |d| - 1 || m == |s| - 1 {
        NoInputLostAtStart(s, d, m);
      } else {
        assert '\0' !in s[m + 2..];
        ScanAllNoInputLost(s[m + 2..], d, leading);
        NoInputLostAttempt(s, d, m, ScanAll(s[m + 2..], d, false, leading));
      }
    }
  }

  /** The cases of ScanAllNoInputLost where the attempt at s[0] ends the scan. */
  lemma NoInputLostAtStart(s: seq<char>, d: seq<char>, m: nat)
    requires |d| >= 1 && s != [] && s[0] == d[0]
    requires m == CommonPrefix(s[1..], d[1..]) && (m == |d| - 1 || m == |s| - 1)
    ensures m == |d| - 1 ==> NoInputLost(s, d, Scan([], |d|, true))
    ensures m != |d| - 1 ==> NoInputLost(s, d, Scan([], |s|, false))
  {
    CommonPrefixSpec(s[1..], d[1..]);
    if m == |d| - 1 {
      assert d == [d[0]] + d[1..][..m];
      assert s[..|d|] == [s[0]] + s[1..][..m];
    } else {
      assert s == [s[0]] + s[1..][..m];
      assert d[..|s|] == [d[0]] + d[1..][..m];
      assert s == [] + d[..|s|];
    }
  }

  /** The step of ScanAllNoInputLost over a character that cannot start the delimiter. */
  lemma NoInputLostOther(s: seq<char>, d: seq<char>, r1: Scan)
    requires s != [] && NoInputLost(s[1..], d, r1)
    ensures NoInputLost(s, d, Scan([s[0]] + r1.token, 1 + r1.used, r1.hit))
  {
    if r1.hit {
      PrependTake(s, r1.used, r1.token + d);
    } else {
      PrependEq(s, r1.token, d[..|s| - 1 - |r1.token|]);
    }
  }

  /** The step of ScanAllNoInputLost over a failed attempt of m + 2 characters. */
  lemma NoInputLostAttempt(s: seq<char>, d: seq<char>, m: nat, r2: Scan)
    requires m + 2 <= |s| && '\0' !in s
    requires NoInputLost(s[m + 2..], d, r2)
    ensures NoInputLost(s, d, Scan(CString(s[..m + 2]) + r2.token, m + 2 + r2.used, r2.hit))
  {
    var attempt := s[..m + 2];
    assert '\0' !in attempt;
    CStringNoNul(attempt);
    assert s == attempt + s[m + 2..];
    if r2.hit {
      assert s[..m + 2 + r2.used] == attempt + s[m + 2..][..r2.used];
    } else {
      assert s == (attempt + r2.token) + d[..|s| - |attempt| - |r2.token|];
    }
  }

  lemma PrependTake<T>(s: seq<T>, n: nat, t: seq<T>)
    requires n + 1 <= |s| && s[1..][..n] == t
    ensures s[..n + 1] == [s[0]] + t
  {
  }

  lemma PrependEq<T>(s: seq<T>, a: seq<T>, b: seq<T>)
    requires s != [] && s[1..] == a + b
    ensures s == ([s[0]] + a) + b
  {
    assert s == [s[0]] + s[1..];
  }

  /** A zero-filled buffer read as a C string: only what was written before the zeros counts. */
  lemma {:induction false} CStringPad(b: seq<char>, n: nat)
    requires n <= |b|
    requires forall j :: n <= j < |b| ==> b[j] == '\0'
    ensures CString(b) == CString(b[..n])
  {
    if n == 0 {
    } else if b[0] != '\0' {
      CStringPad(b[1..], n - 1);
      assert b[1..][..n - 1] == b[..n][1..];
    }
  }

  /** The buffer of a failed attempt, read as a C string, is the text of the attempt. */
  lemma BufferText(b: seq<char>, s: seq<char>, at: nat, n: nat)
    requires n <= |b| && at + n <= |s|
    requires b[..n] == s[at..at + n]
    requires forall j :: n <= j < |b| ==> b[j] == '\0'
    ensures CString(b) == CString(s[at..at + n])
  {
    CStringPad(b, n);
  }

  lemma {:induction false} CStringNoNul(b: seq<char>)
    requires '\0' !in b
    ensures CString(b) == b
  {
    if b != [] {
      CStringNoNul(b[1..]);
      assert b == [b[0]] + b[1..];
    }
  }

  /**
   * Overlapping occurrences are missed: in "--->" the delimiter "-->"
   * starts at index 1, but the attempt at index 0 fails on the third
   * character and that character is never retried, so the scan reaches
   * the end of input without a match.
   */
  lemma OverlapMissed()
    ensures ScanAll("--->", "-->", false, true) == Scan("--->", 4, false)
  {
    var s: seq<char> := "--->";
    var d: seq<char> := "-->";
    OverlapAttempt();
    OverlapTail();
    assert s[..3] == "---" && s[3..] == ">";
    CStringNoNul("---");
    assert "---" + ">" == s;
  }

  lemma OverlapAttempt()
    ensures CommonPrefix("-->", "->") == 1
  {
    var x: seq<char> := "-->";
    var y: seq<char> := "->";
    assert x[1..] == "->" && y[1..] == ">";
  }

  lemma OverlapTail()
    ensures ScanAll(">", "-->", false, true) == Scan(">", 1, false)
  {
    var s: seq<char> := ">";
    assert s[1..] == [];
  }

  /**
   * End of input part-way through the delimiter counts as the end of the
   * token: the partial delimiter is dropped, and the stream is left failed.
   */
  lemma {:induction false} ScanAllEofInDelimiter(t: seq<char>, p: seq<char>, d: seq<char>, leading: bool)
    requires |d| >= 1 && 1 <= |p| < |d| && p == d[..|p|]
    requires NoStart(t, d)
    ensures ScanAll(t + p, d, false, leading) == Scan(t, |t| + |p|, false)
    decreases |t|
  {
    if t == [] {
      assert t + p == p;
      var m := CommonPrefix(p[1..], d[1..]);
      assert p[1..] == d[1..][..|p| - 1];
      CommonPrefixOfPrefix(p[1..], d[1..]);
    } else {
      assert (t + p)[1..] == t[1..] + p;
      ScanAllEofInDelimiter(t[1..], p, d, NextLeading(false, leading, t[0]));
      assert t == [t[0]] + t[1..];
    }
  }

  lemma {:induction false} CommonPrefixOfPrefix(x: seq<char>, y: seq<char>)
    requires |x| <= |y| && x == y[..|x|]
    ensures CommonPrefix(x, y) == |x|
  {
    if x != [] {
      assert x[0] == y[0];
      assert x[1..] == y[1..][..|x| - 1];
      CommonPrefixOfPrefix(x[1..], y[1..]);
    }
  }

  /** A full match with keep-delims pushes the whole delimiter back, in order. */
  lemma MatchAllKeepsDelimiter(cfg: Config, s: seq<char>)
    requires |cfg.delims| >= 1 && cfg.keepDelim
    requires ScanAll(s, cfg.delims, cfg.skipWs, true).hit
    ensures var (_, cfg', sv') := MatchAllStep(cfg, SV(s, false));
      && cfg' == cfg
      && |sv'.rest| >= |cfg.delims| && sv'.rest[..|cfg.delims|] == cfg.delims
      && !sv'.failed
  {
    MatchAllByScan(cfg, s);
  }

  // ---------------------------------------------------------------------
  // next_word, discard, peek
  // ---------------------------------------------------------------------

  /** Index of the first non-alphanumeric character of s, or |s|. */
  function FirstNonAlnum(s: seq<char>): (k: nat)
    ensures k <= |s|
    ensures forall j :: 0 <= j < k ==> IsAlnum(s[j])
    ensures k < |s| ==> !IsAlnum(s[k])
  {
    if |s| == 0 then 0 else if !IsAlnum(s[0]) then 0 else 1 + FirstNonAlnum(s[1..])
  }

  /** FirstNonAlnum read off a scan: k alphanumerics, then a non-alphanumeric or the end. */
  lemma {:induction false} FirstNonAlnumAt(s: seq<char>, k: nat)
    requires k <= |s| && forall j :: 0 <= j < k ==> IsAlnum(s[j])
    requires k < |s| ==> !IsAlnum(s[k])
    ensures FirstNonAlnum(s) == k
  {
    if k > 0 {
      FirstNonAlnumAt(s[1..], k - 1);
    }
  }

  /**
   * next_word: the run of alphanumerics; the character that stops it is
   * consumed and not put back; at end of input the stream fails.
   */
  function NextWordStep(sv: SV): (r: (seq<char>, SV))
    ensures forall j :: 0 <= j < |r.0| ==> IsAlnum(r.0[j])
    ensures Measure(r.1) < Measure(sv) || sv.failed
    ensures !sv.failed ==> |r.0| <= |sv.rest| && r.0 == sv.rest[..|r.0|]
    ensures !sv.failed && |r.0| < |sv.rest| ==> !IsAlnum(sv.rest[|r.0|]) && r.1 == SV(sv.rest[|r.0| + 1..], false)
    ensures !sv.failed && |r.0| == |sv.rest| ==> r.1 == SV([], true)
  {
    if sv.failed then ([], sv)
    else
      var k := FirstNonAlnum(sv.rest);
      if k < |sv.rest| then (sv.rest[..k], SV(sv.rest[k + 1..], false))
      else (sv.rest, SV([], true))
  }

  /**
   * discard(cnt, delims, keep): replaces the delimiter set, then reads at
   * most cnt characters, stopping at the first delimiter (recorded in
   * lastDelim, put back when keep is set).
   */
  function DiscardStep(cfg: Config, sv: SV, cnt: nat, delims: seq<char>, keep: bool): (r: (Config, SV))
    ensures r.0 == cfg.(delims := delims, lastDelim := r.0.lastDelim)
    ensures Measure(r.1) <= Measure(sv)
    ensures r.1.Normal() || r.1 == sv
  {
    var cfg1 := cfg.(delims := delims);
    if sv.failed then (cfg1, sv)
    else
      var s := sv.rest;
      var k := FirstIn(s, delims);
      if k < cnt && k < |s| then
        (cfg1.(lastDelim := s[k]), SV(if keep then s[k..] else s[k + 1..], false))
      else if cnt <= |s| then (cfg1, SV(s[cnt..], false))
      else (cfg1, SV([], true))
  }

  /** DiscardStep read off the outcome of the loop and the putback. */
  lemma DiscardStepParts(cfg: Config, sv: SV, cnt: nat, d: seq<char>, keep: bool, hit: bool, c: char,
                         sv1: SV, cfg': Config, sv': SV)
    requires sv.failed ==> !hit && sv1 == sv
    requires !sv.failed ==>
      var s := sv.rest;
      var k := FirstIn(s, d);
      && hit == (k < cnt && k < |s|)
      && (hit ==> c == s[k] && sv1 == SV(s[k + 1..], false))
      && (!hit ==> sv1 == if cnt <= |s| then SV(s[cnt..], false) else SV([], true))
    requires cfg' == if hit then cfg.(delims := d, lastDelim := c) else cfg.(delims := d)
    requires sv' == if hit && keep then PutbackSpec(sv1, c) else sv1
    ensures (cfg', sv') == DiscardStep(cfg, sv, cnt, d, keep)
  {
    if hit && keep {
      var k := FirstIn(sv.rest, d);
      assert [c] + sv.rest[k + 1..] == sv.rest[k..];
    }
  }

  /** numeric_limits<streamsize>::max(), the count of the two-argument discard. */
  const StreamSizeMax: nat := 0x7fff_ffff_ffff_ffff

  /**
   * discard consumes at most cnt characters, stops at the first delimiter
   * and records it; it never reads past that delimiter.
   */
  lemma DiscardContract(cfg: Config, s: seq<char>, cnt: nat, delims: seq<char>, keep: bool)
    ensures var (cfg', sv') := DiscardStep(cfg, SV(s, false), cnt, delims, keep);
      var k := FirstIn(s, delims);
      && cfg'.delims == delims
      && (!sv'.failed ==> |s| - |sv'.rest| <= cnt && sv'.rest == s[|s| - |sv'.rest|..])
      && (k < cnt && k < |s| ==> cfg'.lastDelim == s[k] && sv'.rest == (if keep then s[k..] else s[k + 1..]))
      && (sv'.failed <==> cnt > |s| && k == |s|)
  {
    var k := FirstIn(s, delims);
    var r := DiscardStep(cfg, SV(s, false), cnt, delims, keep);
    if k < cnt && k < |s| {
      assert r.1 == SV(if keep then s[k..] else s[k + 1..], false);
    } else if cnt <= |s| {
      assert r.1 == SV(s[cnt..], false);
    } else {
      assert r.1 == SV([], true);
    }
  }

  /**
   * peek(n): the next n characters (fewer at end of input); when n
   * characters are available the stream is left exactly as it was. At end
   * of input the failed read leaves the stream failed, so the characters
   * put back are refused and lost.
   */
  function PeekStep(sv: SV, n: nat): (r: (seq<char>, SV))
    ensures |r.0| <= n
    ensures !sv.failed && n <= |sv.rest| ==> r.0 == sv.rest[..n] && r.1 == sv
    ensures !sv.failed && n > |sv.rest| ==> r.0 == sv.rest && r.1 == SV([], true)
    ensures Measure(r.1) <= Measure(sv)
  {
    if sv.failed then ([], sv)
    else if n <= |sv.rest| then (sv.rest[..n], sv)
    else (sv.rest, SV([], true))
  }

  // ---------------------------------------------------------------------
  // The parser
  // ---------------------------------------------------------------------

  /** stream_parser: its configuration fields over a shared input stream. */
  class StreamParser {
    const stream: CharStream
    var delims: seq<char>
    var matchAll: bool
    var keepDelim: bool
    var skipWhitespace: bool
    var lastDelim: char

    function Settings(): Config
      reads this
    {
      Config(delims, matchAll, keepDelim, skipWhitespace, lastDelim)
    }

    /** stream_parser(is): no delimiters, every switch off, lastDelim 0. */
    constructor (input: CharStream)
      ensures stream == input
      ensures Settings() == Config([], false, false, false, '\0')
    {
      stream := input;
      delims := [];
      matchAll := false;
      keepDelim := false;
      skipWhitespace := false;
      lastDelim := '\0';
    }

    /** stream_parser(is, delims, matchAll, keepDelim, skipWhitespace); lastDelim 0. */
    constructor WithOptions(input: CharStream, delims: seq<char>, matchAll: bool, keepDelim: bool,
                            skipWhitespace: bool)
      ensures stream == input
      ensures Settings() == Config(delims, matchAll, keepDelim, skipWhitespace, '\0')
    {
      stream := input;
      this.delims := delims;
      this.matchAll := matchAll;
      this.keepDelim := keepDelim;
      this.skipWhitespace := skipWhitespace;
      lastDelim := '\0';
    }

    /** set_delims, also the setdelims manipulator. */
    method SetDelims(d: seq<char>)
      modifies this`delims
      ensures Settings() == old(Settings()).(delims := d)
    {
      delims := d;
    }

    /** set_match_all, also the matchall manipulator. */
    method SetMatchAll(b: bool)
      modifies this`matchAll
      ensures Settings() == old(Settings()).(matchAll := b)
    {
      matchAll := b;
    }

    /** set_keep_delims, also the keepdelims manipulator. */
    method SetKeepDelims(b: bool)
      modifies this`keepDelim
      ensures Settings() == old(Settings()).(keepDelim := b)
    {
      keepDelim := b;
    }

    /** skipws(), also the skipws manipulator. */
    method SkipWs()
      modifies this`skipWhitespace
      ensures Settings() == old(Settings()).(skipWs := true)
    {
      skipWhitespace := true;
    }

    /** noskipws(), also the noskipws manipulator. */
    method NoSkipWs()
      modifies this`skipWhitespace
      ensures Settings() == old(Settings()).(skipWs := false)
    {
      skipWhitespace := false;
    }

    /** get_last_delim. */
    function GetLastDelim(): (c: char)
      reads this
      ensures c == Settings().lastDelim
    {
      lastDelim
    }

    /** match_any: the while (is >> c) loop, then the putback of the delimiter. */
    method MatchAny() returns (token: seq<char>)
      requires stream.Valid()
      modifies this`lastDelim, stream
      ensures stream.Valid()
      ensures (token, Settings(), stream.View()) == MatchAnyStep(old(Settings()), old(stream.View()))
    {
      token := [];
      if !stream.Good() {
        // the first read fails at once: nothing to read, nothing to put back
        return;
      }
      ghost var s0 := stream.rest;
      var hit, c;
      ghost var used;
      token, hit, c, used := AnyLoopRun();
      if stream.Good() && keepDelim {
        stream.Putback(c);
        PutbackRestores(s0, used);
      }
      MatchAnyOutcome(old(Settings()), s0, Scan(token, used, hit));
    }

    /**
     * The while loop of match_any: characters up to the first delimiter
     * (recorded in lastDelim), leading whitespace skipped when asked.
     */
    method AnyLoopRun() returns (token: seq<char>, hit: bool, c: char, ghost used: nat)
      requires stream.Valid() && !stream.failed
      modifies this`lastDelim, stream
      ensures stream.Valid()
      ensures Scan(token, used, hit) == AnyLoop(old(stream.rest), 0, delims, skipWhitespace, true, [])
      ensures hit ==> && 1 <= used <= |old(stream.rest)| && c == old(stream.rest)[used - 1]
                      && lastDelim == c && stream.View() == SV(old(stream.rest)[used..], false)
      ensures !hit ==> lastDelim == old(lastDelim) && stream.View() == SV([], true)
    {
      token := [];
      hit := false;
      c := '\0';
      var leading := true;
      ghost var s0 := stream.rest;
      ghost var r0 := AnyLoop(s0, 0, delims, skipWhitespace, true, []);
      used := 0;
      while true
        invariant stream.Valid() && !stream.failed
        invariant used <= |s0| && stream.rest == s0[used..]
        invariant lastDelim == old(lastDelim)
        invariant r0 == AnyLoop(s0, used, delims, skipWhitespace, leading, token)
        decreases |s0| - used
      {
        var ok;
        ok, c := stream.Get();
        if !ok {
          return;
        }
        if c in delims {
          lastDelim := c;
          hit := true;
          used := used + 1;
          return;
        }
        if skipWhitespace && leading {
          if IsSpace(c) {
            used := used + 1;
            continue;
          } else {
            leading := false;
          }
        }
        token := token + [c];
        used := used + 1;
      }
    }

    /**
     * The inner for loop of match_all. The character s0[at] == delims[0]
     * has just been read into buff[0]; further characters are read into
     * buff while they agree with the delimiter. The attempt is a match when
     * the delimiter is complete or the input ends part-way; otherwise the
     * buffer, read as a C string, is what the token gains, and the buffer
     * is zeroed again.
     */
    method ReadDelimiter(buff: array<char>, ghost s0: seq<char>, ghost at: nat)
      returns (matched: bool, i: nat, appended: seq<char>)
      requires stream.Valid() && !stream.failed
      requires |delims| >= 1 && buff.Length == |delims| + 1
      requires at < |s0| && s0[at] == delims[0] && stream.rest == s0[at + 1..]
      requires buff[0] == delims[0] && forall j :: 1 <= j < buff.Length ==> buff[j] == '\0'
      modifies stream, buff
      ensures stream.Valid()
      ensures Attempt(matched, i, appended, stream.View()) == AttemptAt(s0, at, delims)
      ensures !matched ==> forall j :: 0 <= j < buff.Length ==> buff[j] == '\0'
    {
      matched := true;
      appended := [];
      var end := |delims|;
      i := 1;
      while i < end
        invariant 1 <= i <= end
        invariant stream.Valid() && !stream.failed
        invariant at + i <= |s0| && stream.rest == s0[at + i..]
        invariant buff[..i] == s0[at..at + i]
        invariant forall j :: i <= j < buff.Length ==> buff[j] == '\0'
        invariant MatchLen(s0, at, delims, i) == MatchLen(s0, at, delims, 1)
        decreases end - i
      {
        var ok, c := stream.Get();
        if !ok {
          return;
        }
        assert c == s0[at + i] && stream.rest == s0[at + i + 1..];
        buff[i] := c;
        if c != delims[i] {
          matched := false;
          assert buff[..i + 1] == s0[at..at + i + 1];
          MismatchAttempt(s0, at, delims, i, buff[..]);
          appended := FlushBuffer(buff);
          return;
        }
        i := i + 1;
      }
    }

    /** `nxt.append(buff)` then `memset(buff, 0, n + 1)`: the buffer read as a C string, then cleared. */
    method FlushBuffer(buff: array<char>) returns (text: seq<char>)
      modifies buff
      ensures text == CString(old(buff[..]))
      ensures forall j :: 0 <= j < buff.Length ==> buff[j] == '\0'
    {
      text := CString(buff[..]);
      forall j | 0 <= j < buff.Length {
        buff[j] := '\0';
      }
    }

    /**
     * The putback loops of match_all and peek: the characters of s are
     * put back last first, so that s is what the stream delivers next; on
     * a failed stream every putback is refused.
     */
    method PutbackAll(s: seq<char>)
      requires stream.Valid()
      modifies stream
      ensures stream.Valid()
      ensures old(stream.failed) ==> stream.View() == old(stream.View())
      ensures !old(stream.failed) ==> stream.View() == SV(s + old(stream.rest), false)
    {
      ghost var rest0 := stream.rest;
      var k := |s|;
      while k > 0
        invariant 0 <= k <= |s|
        invariant stream.Valid() && stream.failed == old(stream.failed)
        invariant old(stream.failed) ==> stream.View() == old(stream.View())
        invariant !old(stream.failed) ==> stream.rest == s[k..] + rest0
      {
        k := k - 1;
        stream.Putback(s[k]);
        assert [s[k]] + (s[k + 1..] + rest0) == s[k..] + rest0;
      }
      assert s[0..] == s;
    }

    /**
     * The else branch of match_all's loop: c == delims[0] has just been
     * read (it is s0[at]). The inner loop runs; on a mismatch the attempt
     * is appended to the token, on a match (or end of input part-way) the
     * whole delimiter is put back when keepDelim is set and the loop ends.
     */
    method TryDelimiter(buff: array<char>, c: char, ghost s0: seq<char>, ghost at: nat, ghost leading: bool,
                        token: seq<char>)
      returns (matched: bool, token': seq<char>, ghost next: nat)
      requires stream.Valid() && !stream.failed
      requires |delims| >= 1 && buff.Length == |delims| + 1
      requires forall j :: 0 <= j < buff.Length ==> buff[j] == '\0'
      requires at < |s0| && c == s0[at] && c == delims[0] && stream.rest == s0[at + 1..]
      modifies stream, buff
      ensures stream.Valid()
      ensures var r := AllLoop(s0, at, delims, skipWhitespace, leading, token);
        matched ==> && r.used <= |s0|
                    && token' == r.token
                    && stream.View() == (if r.hit then SV(if keepDelim then delims + s0[r.used..] else s0[r.used..], false)
                                         else SV([], true))
      ensures !matched ==> && at < next <= |s0|
                           && !stream.failed && stream.rest == s0[next..]
                           && AllLoop(s0, at, delims, skipWhitespace, leading, token)
                              == AllLoop(s0, next, delims, skipWhitespace, leading, token')
                           && forall j :: 0 <= j < buff.Length ==> buff[j] == '\0'
    {
      buff[0] := c;
      var i, appended;
      matched, i, appended := ReadDelimiter(buff, s0, at);
      AttemptOutcome(s0, at, delims, skipWhitespace, leading, token, i, matched, appended);
      if matched {
        if keepDelim {
          PutbackAll(delims);
        }
        token' := token;
        next := at + i;
      } else {
        token' := token + appended;
        next := at + i + 1;
      }
    }

    /** match_all: reads until the whole delimiter string has been seen. */
    method MatchAll() returns (token: seq<char>)
      requires stream.Valid() && |delims| >= 1
      modifies stream
      ensures stream.Valid()
      ensures (token, Settings(), stream.View()) == MatchAllStep(old(Settings()), old(stream.View()))
    {
      var buff := new char[|delims| + 1];
      forall j | 0 <= j < buff.Length {
        buff[j] := '\0';
      }
      token := [];
      var leading := true;
      if !stream.Good() {
        return;
      }
      ghost var s0 := stream.rest;
      ghost var r0 := AllLoop(s0, 0, delims, skipWhitespace, true, []);
      ghost var consumed: nat := 0;
      while true
        invariant stream.Valid() && !stream.failed
        invariant consumed <= |s0| && stream.rest == s0[consumed..]
        invariant r0 == AllLoop(s0, consumed, delims, skipWhitespace, leading, token)
        invariant buff.Length == |delims| + 1
        invariant forall j :: 0 <= j < buff.Length ==> buff[j] == '\0'
        decreases |s0| - consumed
      {
        var ok, c := stream.Get();
        if !ok {
          assert r0 == Scan(token, consumed, false);
          break;
        }
        if c != delims[0] {
          AllLoopOther(s0, consumed, delims, skipWhitespace, leading, token);
          if skipWhitespace && leading {
            if IsSpace(c) {
              consumed := consumed + 1;
              continue;
            } else {
              leading := false;
            }
          }
          token := token + [c];
          consumed := consumed + 1;
        } else {
          var matched;
          ghost var next;
          matched, token, next := TryDelimiter(buff, c, s0, consumed, leading, token);
          if matched {
            break;
          }
          consumed := next;
        }
      }
      MatchAllOutcome(old(Settings()), s0, r0);
    }

    /** next_match, also operator>>: match_all or match_any by the matchAll switch. */
    method NextMatch() returns (token: seq<char>)
      requires stream.Valid() && (matchAll ==> |delims| >= 1)
      modifies this`lastDelim, stream
      ensures stream.Valid()
      ensures (token, Settings(), stream.View()) == NextMatchStep(old(Settings()), old(stream.View()))
    {
      if !matchAll {
        token := MatchAny();
      } else {
        token := MatchAll();
      }
    }

    /** next_word: `while (is >> c && isalnum(c))`. */
    method NextWord() returns (word: seq<char>)
      requires stream.Valid()
      modifies stream
      ensures stream.Valid()
      ensures (word, stream.View()) == NextWordStep(old(stream.View()))
    {
      word := [];
      ghost var s0 := stream.rest;
      ghost var failed0 := stream.failed;
      while true
        invariant stream.Valid()
        invariant failed0 ==> word == [] && stream.View() == SV([], true)
        invariant !failed0 ==> && |word| <= |s0| && word == s0[..|word|]
                               && (forall j :: 0 <= j < |word| ==> IsAlnum(s0[j]))
                               && !stream.failed && stream.rest == s0[|word|..]
        decreases Measure(stream.View())
      {
        var ok, c := stream.Get();
        if !ok || !IsAlnum(c) {
          if !failed0 {
            FirstNonAlnumAt(s0, |word|);
            assert |word| == |s0| ==> word == s0;
          }
          return;
        }
        word := word + [c];
      }
    }

    /**
     * discard(cnt, delims, keepDelims): replaces the delimiter set, then
     * reads at most cnt characters and stops at the first delimiter.
     */
    method Discard(cnt: nat, d: seq<char>, keep: bool)
      requires stream.Valid()
      modifies this`delims, this`lastDelim, stream
      ensures stream.Valid()
      ensures (Settings(), stream.View()) == DiscardStep(old(Settings()), old(stream.View()), cnt, d, keep)
    {
      ghost var cfg0 := Settings();
      ghost var sv0 := stream.View();
      SetDelims(d);
      var hit, c := DiscardScan(cnt);
      ghost var sv1 := stream.View();
      if hit {
        lastDelim := c;
        if keep {
          stream.Putback(c);
        }
      }
      DiscardStepParts(cfg0, sv0, cnt, d, keep, hit, c, sv1, Settings(), stream.View());
    }

    /** The for loop of discard: the reads, and whether they stopped at a delimiter. */
    method DiscardScan(cnt: nat) returns (hit: bool, c: char)
      requires stream.Valid()
      modifies stream
      ensures stream.Valid()
      ensures old(stream.failed) ==> !hit && stream.View() == old(stream.View())
      ensures !old(stream.failed) ==>
        var s := old(stream.rest);
        var k := FirstIn(s, delims);
        && hit == (k < cnt && k < |s|)
        && (hit ==> c == s[k] && stream.View() == SV(s[k + 1..], false))
        && (!hit ==> stream.View() == if cnt <= |s| then SV(s[cnt..], false) else SV([], true))
    {
      hit := false;
      c := '\0';
      ghost var s0 := stream.rest;
      ghost var failed0 := stream.failed;
      var i: nat := 0;
      while i < cnt
        invariant i <= cnt && stream.Valid()
        invariant failed0 ==> i == 0 && stream.View() == SV([], true)
        invariant !failed0 ==> && i <= |s0| && !stream.failed && stream.rest == s0[i..]
                               && forall j :: 0 <= j < i ==> s0[j] !in delims
      {
        var ok;
        ok, c := stream.Get();
        if !ok {
          if !failed0 {
            FirstInAt(s0, delims, i);
          }
          return;
        }
        if c in delims {
          FirstInAt(s0, delims, i);
          hit := true;
          return;
        }
        i := i + 1;
      }
      if !failed0 {
        FirstInAt(s0, delims, i);
      }
    }

    /** discard(delims, keepDelims): discard with the largest streamsize as count. */
    method DiscardThrough(d: seq<char>, keep: bool)
      requires stream.Valid()
      modifies this`delims, this`lastDelim, stream
      ensures stream.Valid()
      ensures (Settings(), stream.View()) == DiscardStep(old(Settings()), old(stream.View()), StreamSizeMax, d, keep)
    {
      Discard(StreamSizeMax, d, keep);
    }

    /** peek(count): reads up to count characters, then puts them back last first. */
    method Peek(count: nat) returns (p: seq<char>)
      requires stream.Valid()
      modifies stream
      ensures stream.Valid()
      ensures (p, stream.View()) == PeekStep(old(stream.View()), count)
    {
      p := [];
      ghost var s0 := stream.rest;
      ghost var failed0 := stream.failed;
      var i: nat := 0;
      while i < count
        invariant i <= count && stream.Valid() && |p| == i
        invariant failed0 ==> i == 0 && stream.View() == SV([], true)
        invariant !failed0 ==> i <= |s0| && p == s0[..i] && !stream.failed && stream.rest == s0[i..]
      {
        var ok, c := stream.Get();
        if !ok {
          assert !failed0 ==> p == s0;
          break;
        }
        p := p + [c];
        i := i + 1;
      }
      PutbackAll(p);
      assert !failed0 && i == count ==> p + s0[count..] == s0;
    }
  }
}
