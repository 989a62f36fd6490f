/** `parse_byte_range` and the pattern `BYTE_RANGE_RE` behind it: the value
    of an HTTP `Range` header, in the single-range `bytes=first-last` form of
    section 14.1.2 of RFC 9110, becomes a pair of optional offsets or an
    error. Suffix ranges (`bytes=-500`) and lists of ranges are refused. */
module ByteRangeParser {
  import opened Wrappers
  import opened Decimal

  /** The pair the parser returns; `None` is Python's `None`. */
  datatype ByteRange = ByteRange(first: Option<nat>, last: Option<nat>)

  /** The `ValueError('Invalid byte range %s' % header)` the parser raises. */
  datatype ParseError = InvalidByteRange(header: string)

  /** The characters Python 3's `str.strip()` removes (`str.isspace`). */
  predicate IsWhitespace(c: char) {
    ('\t' <= c <= '\r') || ('\U{1C}' <= c <= ' ') || c == '\U{85}' || c == '\U{A0}'
    || c == '\U{1680}' || ('\U{2000}' <= c <= '\U{200A}') || c == '\U{2028}'
    || c == '\U{2029}' || c == '\U{202F}' || c == '\U{205F}' || c == '\U{3000}'
  }

  /** Every character of `s` is whitespace: `s.strip() == ''`, as
      `BlankIffStripsEmpty` shows. */
  predicate IsBlank(s: string) {
    forall i :: 0 <= i < |s| ==> IsWhitespace(s[i])
  }

  /** `s.lstrip()`: `s` without its leading whitespace. */
  function StripStart(s: string): (r: string)
    ensures |r| <= |s| && r == s[|s| - |r|..]
    ensures forall i :: 0 <= i < |s| - |r| ==> IsWhitespace(s[i])
    ensures r == [] || !IsWhitespace(r[0])
  {
    if s != [] && IsWhitespace(s[0]) then StripStart(s[1..]) else s
  }

  /** `s.rstrip()`: `s` without its trailing whitespace. */
  function StripEnd(s: string): (r: string)
    ensures |r| <= |s| && r == s[..|r|]
    ensures forall i :: |r| <= i < |s| ==> IsWhitespace(s[i])
    ensures r == [] || !IsWhitespace(r[|r| - 1])
  {
    if s != [] && IsWhitespace(s[|s| - 1]) then StripEnd(s[..|s| - 1]) else s
  }

  /** `s.strip()` */
  function Strip(s: string): string {
    StripEnd(StripStart(s))
  }

  /** The blank test of `parse_byte_range` is `strip` coming back empty. */
  lemma BlankIffStripsEmpty(s: string)
    ensures Strip(s) == "" <==> IsBlank(s)
  {
    var r1 := StripStart(s);
    assert Strip(s) == "" ==> r1 == [] by {
      assert Strip(s) == StripEnd(r1);
    }
  }

  /** Length of the longest run of digits at the front of `s`: what a greedy
      `\d+` or `\d*` consumes. */
  function DigitRun(s: string): (n: nat)
    ensures n <= |s| && AllDigits(s[..n])
    ensures n < |s| ==> !IsDigit(s[n])
  {
    if s == [] || !IsDigit(s[0]) then 0
    else
      var k := DigitRun(s[1..]);
      assert s[..k + 1] == [s[0]] + s[1..][..k];
      k + 1
  }

  /** The text `bytes=<g1>-<g2>` that the two groups of the pattern spell. */
  function Spelled(g1: string, g2: Option<string>): string {
    "bytes=" + g1 + "-" + g2.GetOr("")
  }

  /** `BYTE_RANGE_RE.match(s)` with `BYTE_RANGE_RE = bytes=(\d+)-(\d+)?$`,
      giving `m.groups()`. The match is anchored at the start only by
      `match`; `$` accepts the end of the text or a single final newline. */
  function MatchByteRange(s: string): (m: Option<(string, Option<string>)>)
    ensures m.Some? ==>
      |m.value.0| >= 1 && AllDigits(m.value.0) &&
      (m.value.1.Some? ==> |m.value.1.value| >= 1 && AllDigits(m.value.1.value)) &&
      (s == Spelled(m.value.0, m.value.1) || s == Spelled(m.value.0, m.value.1) + "\n")
  {
    if |s| < 6 || s[..6] != "bytes=" then None
    else
      var rest := s[6..];
      var n1 := DigitRun(rest);
      if n1 == 0 || n1 == |rest| || rest[n1] != '-' then None
      else
        var tail := rest[n1 + 1..];
        var n2 := DigitRun(tail);
        var after := tail[n2..];
        if after != "" && after != "\n" then None
        else
          var g2 := if n2 == 0 then None else Some(tail[..n2]);
          assert s == s[..6] + rest[..n1] + "-" + tail[..n2] + after;
          Some((rest[..n1], g2))
  }

  /** `[x and int(x) for x in m.groups()]` */
  function GroupValues(g1: string, g2: Option<string>): (r: ByteRange)
    requires AllDigits(g1) && (g2.Some? ==> AllDigits(g2.value))
    ensures r.first.Some? && (r.last.Some? <==> g2.Some?)
    ensures Canonical(g1) ==> Show(r.first.value) == g1
    ensures g2.Some? && Canonical(g2.value) ==> Show(r.last.value) == g2.value
  {
    assert Canonical(g1) ==> Show(DecimalValue(g1)) == g1 by {
      if Canonical(g1) { ShowOfValue(g1); }
    }
    assert g2.Some? && Canonical(g2.value) ==> Show(DecimalValue(g2.value)) == g2.value by {
      if g2.Some? && Canonical(g2.value) { ShowOfValue(g2.value); }
    }
    ByteRange(Some(DecimalValue(g1)), if g2.Some? then Some(DecimalValue(g2.value)) else None)
  }

  /** `parse_byte_range`. A blank header is "no range"; anything else must
      match the pattern, and a present, non-zero `last` below `first` is
      refused (`if last and last < first`: a `last` of 0 is never refused). */
  function ParseByteRange(s: string): (r: Result<ByteRange, ParseError>)
    ensures IsBlank(s) <==> r == Ok(ByteRange(None, None))
    ensures r.Ok? && r.value.first.None? ==> r.value.last.None?
    ensures r.Ok? && r.value.first.Some? && r.value.last.Some? && r.value.last.value != 0
      ==> r.value.first.value <= r.value.last.value
    ensures r.Err? ==> r.error == InvalidByteRange(s)
    ensures r.Ok? && !IsBlank(s) ==> MatchByteRange(s).Some?
  {
    if IsBlank(s) then Ok(ByteRange(None, None))
    else
      match MatchByteRange(s)
      case None => Err(InvalidByteRange(s))
      case Some((g1, g2)) =>
        var br := GroupValues(g1, g2);
        if br.last.Some? && br.last.value != 0 && br.last.value < br.first.value
        then Err(InvalidByteRange(s))
        else Ok(br)
  }

  /** The language of the pattern: `bytes=`, one or more digits, `-`, any
      number of digits, and nothing else but an optional final newline. */
  ghost predicate RangeSyntax(s: string) {
    exists d1: string, d2: string ::
      |d1| >= 1 && AllDigits(d1) && AllDigits(d2) &&
      (s == "bytes=" + d1 + "-" + d2 || s == "bytes=" + d1 + "-" + d2 + "\n")
  }

  lemma {:induction false} DigitRunOf(a: string, b: string)
    requires AllDigits(a)
    requires b == [] || !IsDigit(b[0])
    ensures DigitRun(a + b) == |a|
  {
    if a != [] {
      assert (a + b)[1..] == a[1..] + b;
      DigitRunOf(a[1..], b);
    }
  }

  /** Every text the pattern describes is matched, with the digits as groups. */
  lemma MatchSpelled(d1: string, d2: string, t: string)
    requires |d1| >= 1 && AllDigits(d1) && AllDigits(d2)
    requires t == "" || t == "\n"
    ensures MatchByteRange("bytes=" + d1 + "-" + d2 + t)
         == Some((d1, if d2 == "" then None else Some(d2)))
  {
    var s := "bytes=" + d1 + "-" + d2 + t;
    assert s[..6] == "bytes=";
    var rest := s[6..];
    assert rest == d1 + ("-" + d2 + t);
    DigitRunOf(d1, "-" + d2 + t);
    var tail := rest[|d1| + 1..];
    assert tail == d2 + t;
    DigitRunOf(d2, t);
    assert tail[..|d2|] == d2 && tail[|d2|..] == t;
    assert rest[..|d1|] == d1;
  }

  /** The matcher accepts exactly the language of the pattern. */
  lemma MatchIffSyntax(s: string)
    ensures MatchByteRange(s).Some? <==> RangeSyntax(s)
  {
    var m := MatchByteRange(s);
    if m.Some? {
      var d2 := m.value.1.GetOr("");
      assert |m.value.0| >= 1 && AllDigits(m.value.0) && AllDigits(d2);
      assert s == "bytes=" + m.value.0 + "-" + d2 || s == "bytes=" + m.value.0 + "-" + d2 + "\n";
    }
    if RangeSyntax(s) {
      var d1: string, d2: string :| |d1| >= 1 && AllDigits(d1) && AllDigits(d2) &&
        (s == "bytes=" + d1 + "-" + d2 || s == "bytes=" + d1 + "-" + d2 + "\n");
      if s == "bytes=" + d1 + "-" + d2 {
        assert s == "bytes=" + d1 + "-" + d2 + "";
        MatchSpelled(d1, d2, "");
      } else {
        MatchSpelled(d1, d2, "\n");
      }
    }
  }

  /** A header that is neither blank nor in the pattern's language raises. */
  lemma RejectsOffPattern(s: string)
    requires !IsBlank(s) && !RangeSyntax(s)
    ensures ParseByteRange(s) == Err(InvalidByteRange(s))
  {
    MatchIffSyntax(s);
  }

  /** What the parser makes of any text in the pattern's language. */
  lemma ParseSpelled(d1: string, d2: string, t: string)
    requires |d1| >= 1 && AllDigits(d1) && AllDigits(d2)
    requires t == "" || t == "\n"
    ensures var s := "bytes=" + d1 + "-" + d2 + t;
            var br := GroupValues(d1, if d2 == "" then None else Some(d2));
            ParseByteRange(s)
              == if br.last.Some? && br.last.value != 0 && br.last.value < br.first.value
                 then Err(InvalidByteRange(s)) else Ok(br)
  {
    var s := "bytes=" + d1 + "-" + d2 + t;
    MatchSpelled(d1, d2, t);
    assert !IsBlank(s) by {
      assert s[0] == 'b';
    }
  }

  /** Round trip: a range written the way `str` writes numbers parses back
      to its two bounds. */
  lemma ParseShownRange(first: nat, last: nat)
    requires first <= last
    ensures ParseByteRange("bytes=" + Show(first) + "-" + Show(last)) == Ok(ByteRange(Some(first), Some(last)))
  {
    ValueOfShow(first);
    ValueOfShow(last);
    assert "bytes=" + Show(first) + "-" + Show(last) == "bytes=" + Show(first) + "-" + Show(last) + "";
    ParseSpelled(Show(first), Show(last), "");
  }

  /** Round trip for an open range `bytes=first-`. */
  lemma ParseShownOpenRange(first: nat)
    ensures ParseByteRange("bytes=" + Show(first) + "-") == Ok(ByteRange(Some(first), None))
  {
    ValueOfShow(first);
    assert "bytes=" + Show(first) + "-" == "bytes=" + Show(first) + "-" + "" + "";
    ParseSpelled(Show(first), "", "");
  }

  /** The `$` of the pattern lets one final newline through. */
  lemma ParseShownRangeNewline(first: nat, last: nat)
    requires first <= last
    ensures ParseByteRange("bytes=" + Show(first) + "-" + Show(last) + "\n") == Ok(ByteRange(Some(first), Some(last)))
  {
    ValueOfShow(first);
    ValueOfShow(last);
    ParseSpelled(Show(first), Show(last), "\n");
  }

  /** Reversed bounds with a non-zero `last` are refused. */
  lemma RejectsReversed(first: nat, last: nat)
    requires 0 < last < first
    ensures ParseByteRange("bytes=" + Show(first) + "-" + Show(last)).Err?
  {
    ValueOfShow(first);
    ValueOfShow(last);
    assert "bytes=" + Show(first) + "-" + Show(last) == "bytes=" + Show(first) + "-" + Show(last) + "";
    ParseSpelled(Show(first), Show(last), "");
  }

  /** `if last and last < first` lets a reversed range whose `last` is 0
      through: `bytes=5-0` gives `(5, 0)`. */
  lemma ReversedZeroAccepted(first: nat)
    requires first > 0
    ensures ParseByteRange("bytes=" + Show(first) + "-0") == Ok(ByteRange(Some(first), Some(0)))
  {
    ValueOfShow(first);
    assert DecimalValue("0") == 0;
    assert "bytes=" + Show(first) + "-0" == "bytes=" + Show(first) + "-" + "0" + "";
    ParseSpelled(Show(first), "0", "");
  }

  /** `match` anchors at the start: leading whitespace makes a header fail. */
  lemma RejectsLeadingWhitespace(s: string)
    requires |s| > 0 && IsWhitespace(s[0]) && !IsBlank(s)
    ensures ParseByteRange(s).Err?
  {
  }

  /** `bytes=0-499` from the parser's unit test. */
  lemma ParserTestFirstRange()
    ensures ParseByteRange("bytes=0-499") == Ok(ByteRange(Some(0), Some(499)))
  {
    assert Show(0) == "0" && Show(499) == "499";
    assert "bytes=" + Show(0) + "-" + Show(499) == "bytes=0-499";
    ParseShownRange(0, 499);
  }

  /** `bytes=987-1024` from the parser's unit test. */
  lemma ParserTestSecondRange()
    ensures ParseByteRange("bytes=987-1024") == Ok(ByteRange(Some(987), Some(1024)))
  {
    assert Show(987) == "987" && Show(1024) == "1024";
    assert "bytes=" + Show(987) + "-" + Show(1024) == "bytes=987-1024";
    ParseShownRange(987, 1024);
  }

  /** The blank header and the open range of the parser's unit test. */
  lemma ParserTestBlankAndOpen()
    ensures ParseByteRange("") == Ok(ByteRange(None, None))
    ensures ParseByteRange("bytes=10-") == Ok(ByteRange(Some(10), None))
  {
    assert Show(10) == "10";
    assert "bytes=" + Show(10) + "-" == "bytes=10-";
    ParseShownOpenRange(10);
  }

  /** `bytes=abc` from the parser's unit test: no digits after `bytes=`. */
  lemma ParserTestRejectsLetters(header: string)
    requires header == "bytes=abc"
    ensures ParseByteRange(header).Err?
  {
    assert !IsBlank(header) by { assert header[0] == 'b'; }
    assert header[..6] == "bytes=" && header[6..] == "abc";
    assert DigitRun("abc") == 0;
  }

  /** `characters=0-10` from the parser's unit test: another unit. */
  lemma ParserTestRejectsUnit(header: string)
    requires header == "characters=0-10"
    ensures ParseByteRange(header).Err?
  {
    assert !IsBlank(header) by { assert header[0] == 'c'; }
    assert header[..6] != "bytes=" by { assert header[1] == 'h'; }
  }

  /** `bytes=100-2` from the parser's unit test: reversed bounds. */
  lemma ParserTestRejectsReversed(header: string)
    requires header == "bytes=100-2"
    ensures ParseByteRange(header).Err?
  {
    assert Show(100) == "100" && Show(2) == "2";
    assert "bytes=" + Show(100) + "-" + Show(2) == header;
    RejectsReversed(100, 2);
  }

  /** The parser with the reversed-bounds test as evidently intended
      (`last is not None and last < first`): a returned `last` is never
      below `first`. */
  function ParseByteRangeStrict(s: string): (r: Result<ByteRange, ParseError>)
    ensures IsBlank(s) <==> r == Ok(ByteRange(None, None))
    ensures r.Ok? && r.value.first.Some? && r.value.last.Some?
      ==> r.value.first.value <= r.value.last.value
    ensures ParseByteRange(s).Err? ==> r.Err?
    ensures r.Ok? ==> r == ParseByteRange(s)
  {
    if IsBlank(s) then Ok(ByteRange(None, None))
    else
      match MatchByteRange(s)
      case None => Err(InvalidByteRange(s))
      case Some((g1, g2)) =>
        var br := GroupValues(g1, g2);
        if br.last.Some? && br.last.value < br.first.value
        then Err(InvalidByteRange(s))
        else Ok(br)
  }

  /** The corrected parser refuses `bytes=first-0` for every `first > 0`. */
  lemma StrictRejectsReversedZero(first: nat)
    requires first > 0
    ensures ParseByteRangeStrict("bytes=" + Show(first) + "-0").Err?
  {
    ReversedZeroAccepted(first);
  }
}
