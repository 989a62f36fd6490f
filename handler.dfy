/** The range branch of `RangeRequestHandler`: `send_head` decides the
    response from the parsed `Range` header and the file, and `copyfile`
    sends the body with `copy_byte_range`. */
module RangeHandler {
  import opened Wrappers
  import opened Decimal
  import opened ByteRangeParser
  import opened ByteRangeCopy

  /** What `send_head` does once a `Range` header is present. */
  datatype Head =
    /** `send_error(code, message)`; `send_head` returns `None`, so no
        file bytes follow (the error page is part of this value) */
    | SendError(code: nat, message: string)
    /** status 206 for the inclusive span `first`..`last` of a file of
        `fileLength` bytes; `send_head` returns the open file */
    | Partial(first: nat, last: nat, fileLength: nat)
    /** a `None` offset compared with the file length: `TypeError`
        escapes and no response is sent */
    | TypeError

  const BAD_RANGE := SendError(400, "Invalid byte range")
  const NOT_FOUND := SendError(404, "File not found")
  const NOT_SATISFIABLE := SendError(416, "Requested Range Not Satisfiable")

  /** `response_length = last - first + 1` */
  function ContentLength(h: Head): int
    requires h.Partial?
  {
    h.last - h.first + 1
  }

  /** Whether offset `k` lies in the range the client asked for. */
  predicate Requested(first: nat, last: Option<nat>, k: nat) {
    first <= k && (last.None? || k <= last.value)
  }

  /** The decision of `send_head` on the range branch, given the parser's
      result and the length of the file (`None` when `open` fails): a parse
      failure before any file access, then a missing file, then a start at
      or past the end; otherwise the end is clamped to the last byte. */
  function SendHead(parsed: Result<ByteRange, ParseError>, fileLength: Option<nat>): (h: Head)
    ensures h == BAD_RANGE <==> parsed.Err?
    ensures h == NOT_FOUND <==> parsed.Ok? && fileLength.None?
    ensures h.TypeError? <==> parsed.Ok? && parsed.value.first.None? && fileLength.Some?
    ensures h == NOT_SATISFIABLE <==>
      parsed.Ok? && parsed.value.first.Some? && fileLength.Some? && parsed.value.first.value >= fileLength.value
    ensures h.Partial? ==>
      parsed.Ok? && parsed.value.first == Some(h.first) && fileLength == Some(h.fileLength) &&
      h.first < h.fileLength && h.last < h.fileLength
  {
    match parsed
    case Err(_) => BAD_RANGE
    case Ok(ByteRange(first, last)) =>
      if fileLength.None? then NOT_FOUND
      else
        var fileLen := fileLength.value;
        if first.None? then TypeError
        else if first.value >= fileLen then NOT_SATISFIABLE
        else
          var end := if last.None? || last.value >= fileLen then fileLen - 1 else last.value;
          Partial(first.value, end, fileLen)
  }

  /** The `Content-Range` value of a 206: `bytes first-last/length`. */
  function ContentRange(h: Head): string
    requires h.Partial?
  {
    "bytes " + Show(h.first) + "-" + Show(h.last) + "/" + Show(h.fileLength)
  }

  /** The headers `send_head` emits with status 206, in the order it sends
      them; `int` reads the `Content-Length` value back as the length of
      the span, after a minus sign when that length is negative. The
      content type and the modification date come from the host server's
      helpers. */
  function Headers(h: Head, contentType: string, lastModified: string): (r: seq<(string, string)>)
    requires h.Partial?
    ensures |r| == 5
    ensures r[0] == ("Content-type", contentType) && r[1] == ("Accept-Ranges", "bytes")
    ensures r[2] == ("Content-Range", ContentRange(h)) && r[4] == ("Last-Modified", lastModified)
    ensures r[3].0 == "Content-Length"
    ensures ContentLength(h) >= 0 ==> AllDigits(r[3].1) && DecimalValue(r[3].1) == ContentLength(h)
    ensures ContentLength(h) < 0 ==>
      |r[3].1| >= 2 && r[3].1[0] == '-' && AllDigits(r[3].1[1..]) && DecimalValue(r[3].1[1..]) == -ContentLength(h)
  {
    ValueOfShowInt(ContentLength(h));
    [ ("Content-type", contentType),
      ("Accept-Ranges", "bytes"),
      ("Content-Range", ContentRange(h)),
      ("Content-Length", ShowInt(ContentLength(h))),
      ("Last-Modified", lastModified) ]
  }

  /** Two digit runs, each followed by the same non-digit separator, split
      a text the same way. */
  lemma SplitAtSeparator(a1: string, b1: string, a2: string, b2: string, sep: char)
    requires AllDigits(a1) && AllDigits(a2) && !IsDigit(sep)
    requires a1 + [sep] + b1 == a2 + [sep] + b2
    ensures a1 == a2 && b1 == b2
  {
    assert a1 + [sep] + b1 == a1 + ([sep] + b1);
    assert a2 + [sep] + b2 == a2 + ([sep] + b2);
    DigitRunOf(a1, [sep] + b1);
    DigitRunOf(a2, [sep] + b2);
    assert a1 == (a1 + [sep] + b1)[..|a1|];
    assert b1 == (a1 + [sep] + b1)[|a1| + 1..];
  }

  /** The `Content-Range` value after `bytes `: the three numerals and
      their separators. */
  lemma ContentRangeTail(h: Head)
    requires h.Partial?
    ensures ContentRange(h)[6..] == Show(h.first) + ['-'] + (Show(h.last) + ['/'] + Show(h.fileLength))
  {
    var a, b, c := Show(h.first), Show(h.last), Show(h.fileLength);
    assert ContentRange(h) == "bytes " + (a + ['-'] + (b + ['/'] + c));
  }

  lemma ShowInjective(m: nat, n: nat)
    requires Show(m) == Show(n)
    ensures m == n
  {
    ValueOfShow(m);
    ValueOfShow(n);
  }

  /** The `Content-Range` value names the span and the file length
      unambiguously: heads with the same value are the same head. */
  lemma ContentRangeDetermines(h1: Head, h2: Head)
    requires h1.Partial? && h2.Partial?
    requires ContentRange(h1) == ContentRange(h2)
    ensures h1 == h2
  {
    ContentRangeTail(h1);
    ContentRangeTail(h2);
    var t1 := Show(h1.last) + ['/'] + Show(h1.fileLength);
    var t2 := Show(h2.last) + ['/'] + Show(h2.fileLength);
    SplitAtSeparator(Show(h1.first), t1, Show(h2.first), t2, '-');
    SplitAtSeparator(Show(h1.last), Show(h1.fileLength), Show(h2.last), Show(h2.fileLength), '/');
    ShowInjective(h1.first, h2.first);
    ShowInjective(h1.last, h2.last);
    ShowInjective(h1.fileLength, h2.fileLength);
  }

  /** A well-formed request is served as its overlap with the file: the
      bytes the client asked for that exist, at least one of them. */
  lemma ServedSpan(first: nat, last: Option<nat>, fileLength: nat)
    requires last.None? || first <= last.value
    requires SendHead(Ok(ByteRange(Some(first), last)), Some(fileLength)).Partial?
    ensures var h := SendHead(Ok(ByteRange(Some(first), last)), Some(fileLength));
            && ContentLength(h) >= 1
            && forall k: nat :: h.first <= k <= h.last <==> Requested(first, last, k) && k < fileLength
  {
  }

  /** The response to a request for a file, as a head and the body bytes
      that follow it. */
  datatype Reply = Reply(head: Head, body: seq<byte>)

  function LengthOf(file: Option<seq<byte>>): Option<nat> {
    if file.Some? then Some(|file.value|) else None
  }

  /** The exchange for a `Range` header and a file (`None` when it cannot
      be opened): `send_head`, then, when it returns the file,
      `copyfile(f, wfile)` with the range as parsed, not as clamped. */
  function Exchange(header: string, file: Option<seq<byte>>): (r: Reply)
    ensures r.head == SendHead(ParseByteRange(header), LengthOf(file))
    ensures r.body != [] <==> r.head.Partial?
    ensures r.head.Partial? ==>
      r.head.first + |r.body| <= |file.value| && r.body == file.value[r.head.first .. r.head.first + |r.body|]
  {
    var parsed := ParseByteRange(header);
    var head := SendHead(parsed, LengthOf(file));
    if head.Partial? then
      Reply(head, Copied(file.value, 0, parsed.value.first, parsed.value.last, DEFAULT_BUFSIZE))
    else
      Reply(head, [])
  }

  /** `copyfile`: without a range, the whole rest of the file (the host
      server's own copy); with one, `copy_byte_range(source, outputfile,
      start, stop)` on the offsets as parsed. */
  method CopyFile(range: Option<ByteRange>, source: InputStream, outputfile: OutputStream)
    modifies source, outputfile
    ensures outputfile.written == old(outputfile.written) +
      if range.None? then Slice(source.data, old(source.pos), |source.data|)
      else Copied(source.data, old(source.pos), range.value.first, range.value.last, DEFAULT_BUFSIZE)
    ensures range.None? ==> source.pos == old(source.pos) + |Slice(source.data, old(source.pos), |source.data|)|
    ensures range.Some? ==>
      source.pos == StartOf(old(source.pos), range.value.first) +
                    |Copied(source.data, old(source.pos), range.value.first, range.value.last, DEFAULT_BUFSIZE)|
  {
    if range.None? {
      var rest := source.Read(-1);
      outputfile.Write(rest);
    } else {
      CopyByteRange(source, outputfile, range.value.first, range.value.last, DEFAULT_BUFSIZE);
    }
  }

  /** One GET with a `Range` header: `send_head`, which rewinds every file
      it opens (it opens one only after the header has parsed), then
      `copyfile` into the response stream when a file came back. */
  method HandleRangeRequest(header: string, file: Option<InputStream>, wfile: OutputStream) returns (head: Head)
    modifies if file.Some? then {file.value} else {}, wfile
    ensures var reply := Exchange(header, if file.Some? then Some(file.value.data) else None);
            head == reply.head && wfile.written == old(wfile.written) + reply.body
    ensures var reply := Exchange(header, if file.Some? then Some(file.value.data) else None);
            file.Some? && ParseByteRange(header).Ok? ==>
              file.value.pos == if head.Partial? then head.first + |reply.body| else 0
    ensures file.Some? && ParseByteRange(header).Err? ==> file.value.pos == old(file.value.pos)
  {
    var parsed := ParseByteRange(header);
    if parsed.Ok? && file.Some? {
      file.value.Seek(0);
    }
    head := SendHead(parsed, if file.Some? then Some(|file.value.data|) else None);
    if head.Partial? {
      CopyFile(Some(parsed.value), file.value, wfile);
    }
  }

  /** A header the parser refuses gets 400 whatever the file: the file is
      never looked at. */
  lemma BadHeaderIgnoresFile(header: string, file: Option<seq<byte>>, other: Option<seq<byte>>)
    requires ParseByteRange(header).Err?
    ensures Exchange(header, file) == Exchange(header, other) == Reply(BAD_RANGE, [])
  {
  }

  /** A file that cannot be opened gets 404 whatever the (parsable) range. */
  lemma MissingFileIs404(header: string)
    requires ParseByteRange(header).Ok?
    ensures Exchange(header, None) == Reply(NOT_FOUND, [])
  {
  }

  /** A blank header parses to `(None, None)`; with a file that opens,
      `first >= file_len` then fails with `TypeError` and nothing is sent. */
  lemma BlankHeaderRaises(header: string, data: seq<byte>)
    requires IsBlank(header)
    ensures Exchange(header, Some(data)) == Reply(TypeError, [])
  {
  }

  /** When the parsed end is absent or non-zero, the body sent is exactly
      the span the 206 headers announce, and its length is the value of
      `Content-Length`. */
  lemma BodyMatchesHeaders(header: string, data: seq<byte>)
    requires Exchange(header, Some(data)).head.Partial?
    requires ParseByteRange(header).value.last != Some(0)
    ensures var reply := Exchange(header, Some(data));
            var h := reply.head;
            && h.first <= h.last
            && reply.body == data[h.first .. h.last + 1]
            && |reply.body| == ContentLength(h)
  {
    var reply := Exchange(header, Some(data));
    var h := reply.head;
    var br := ParseByteRange(header).value;
    assert br.first == Some(h.first) && h.fileLength == |data|;
    assert reply.body == Copied(data, 0, br.first, br.last, DEFAULT_BUFSIZE);
    if br.last.None? {
      assert h.last == |data| - 1;
      CopiedToEnd(data, 0, br.first, br.last, DEFAULT_BUFSIZE);
    } else {
      var stop := br.last.value;
      assert h.first <= stop;
      assert h.last == Min(stop, |data| - 1);
      CopiedBoundedSpan(data, 0, h.first, stop, DEFAULT_BUFSIZE);
    }
  }

  /** When the parsed end is 0 (`bytes=N-0`), the headers announce
      `1 - N` bytes but `if stop` makes the copy send the whole rest of the
      file from `N`. */
  lemma ZeroEndSendsRest(header: string, data: seq<byte>)
    requires Exchange(header, Some(data)).head.Partial?
    requires ParseByteRange(header).value.last == Some(0)
    ensures var reply := Exchange(header, Some(data));
            var h := reply.head;
            && h.last == 0
            && ContentLength(h) == 1 - h.first
            && reply.body == data[h.first..]
  {
    var br := ParseByteRange(header).value;
    CopiedToEnd(data, 0, br.first, br.last, DEFAULT_BUFSIZE);
  }

  /** `Range: bytes=0-0` on a file of two or more bytes: `Content-Length: 1`
      and `Content-Range: bytes 0-0/L`, yet the whole file is sent. */
  lemma ZeroZeroSendsWholeFile(data: seq<byte>)
    requires |data| >= 2
    ensures var reply := Exchange("bytes=0-0", Some(data));
            && reply.head == Partial(0, 0, |data|)
            && Headers(reply.head, "", "")[3].1 == "1"
            && reply.body == data
  {
    assert Show(0) == "0";
    assert "bytes=" + Show(0) + "-" + Show(0) == "bytes=0-0";
    ParseShownRange(0, 0);
    ZeroEndSendsRest("bytes=0-0", data);
    assert ShowInt(1) == "1";
  }

  /** `Range: bytes=N-0` with `0 < N < L`: the reversed range passes the
      parser, `Content-Length` is `1 - N` (0 or negative), and the rest of the file from
      `N` is sent. */
  lemma ReversedZeroServed(first: nat, data: seq<byte>)
    requires 0 < first < |data|
    ensures var reply := Exchange("bytes=" + Show(first) + "-0", Some(data));
            && reply.head == Partial(first, 0, |data|)
            && Headers(reply.head, "", "")[3].1 == ShowInt(1 - first)
            && ContentLength(reply.head) <= 0 < |reply.body|
            && reply.body == data[first..]
  {
    ReversedZeroAccepted(first);
    ZeroEndSendsRest("bytes=" + Show(first) + "-0", data);
    var h := Exchange("bytes=" + Show(first) + "-0", Some(data)).head;
    assert h == Partial(first, 0, |data|);
    assert ContentLength(h) == 1 - first;
  }

  /** `bytes=first-last` with `0 < last`, `first <= last` and `first`
      inside the file: 206 for the overlap of the range with the file. */
  lemma ServeShownRange(first: nat, last: nat, data: seq<byte>)
    requires first <= last && 0 < last && first < |data|
    ensures Exchange("bytes=" + Show(first) + "-" + Show(last), Some(data))
         == Reply(Partial(first, Min(last, |data| - 1), |data|), data[first .. Min(last + 1, |data|)])
  {
    var header := "bytes=" + Show(first) + "-" + Show(last);
    ParseShownRange(first, last);
    assert ParseByteRange(header) == Ok(ByteRange(Some(first), Some(last)));
    var h := SendHead(Ok(ByteRange(Some(first), Some(last))), Some(|data|));
    assert h == Partial(first, Min(last, |data| - 1), |data|);
    assert Exchange(header, Some(data)).head == h;
    BodyMatchesHeaders(header, data);
  }

  /** `bytes=first-` with `first` inside the file: 206 for the rest of it. */
  lemma ServeShownOpenRange(first: nat, data: seq<byte>)
    requires first < |data|
    ensures Exchange("bytes=" + Show(first) + "-", Some(data))
         == Reply(Partial(first, |data| - 1, |data|), data[first..])
  {
    ParseShownOpenRange(first);
    BodyMatchesHeaders("bytes=" + Show(first) + "-", data);
  }

  /** `bytes=first-` with `first` at or past the end: 416, no file bytes. */
  lemma ServeShownOpenRangePastEnd(first: nat, data: seq<byte>)
    requires first >= |data|
    ensures Exchange("bytes=" + Show(first) + "-", Some(data)) == Reply(NOT_SATISFIABLE, [])
  {
    ParseShownOpenRange(first);
  }

  /** `bytes=0-9` parses as `(0, 9)`. */
  lemma ParsesFirstTen(header: string)
    requires header == "bytes=0-9"
    ensures ParseByteRange(header) == Ok(ByteRange(Some(0), Some(9)))
  {
    assert "bytes=" + Show(0) + "-" + Show(9) == header by {
      assert Show(0) == "0" && Show(9) == "9";
    }
    ParseShownRange(0, 9);
  }

  /** `bytes=6-10` parses as `(6, 10)`. */
  lemma ParsesMidFile(header: string)
    requires header == "bytes=6-10"
    ensures ParseByteRange(header) == Ok(ByteRange(Some(6), Some(10)))
  {
    assert "bytes=" + Show(6) + "-" + Show(10) == header by {
      assert Show(6) == "6" && Show(10) == "10";
    }
    ParseShownRange(6, 10);
  }

  /** `bytes=10-100` parses as `(10, 100)`. */
  lemma ParsesPastEof(header: string)
    requires header == "bytes=10-100"
    ensures ParseByteRange(header) == Ok(ByteRange(Some(10), Some(100)))
  {
    assert "bytes=" + Show(10) + "-" + Show(100) == header by {
      assert Show(10) == "10" && Show(100) == "100";
    }
    ParseShownRange(10, 100);
  }

  /** `bytes=10-` parses as `(10, None)`. */
  lemma ParsesFromTen(header: string)
    requires header == "bytes=10-"
    ensures ParseByteRange(header) == Ok(ByteRange(Some(10), None))
  {
    assert "bytes=" + Show(10) + "-" == header by {
      assert Show(10) == "10";
    }
    ParseShownOpenRange(10);
  }

  /** `bytes=16-` parses as `(16, None)`. */
  lemma ParsesFromSixteen(header: string)
    requires header == "bytes=16-"
    ensures ParseByteRange(header) == Ok(ByteRange(Some(16), None))
  {
    assert "bytes=" + Show(16) + "-" == header by {
      assert Show(16) == "16";
    }
    ParseShownOpenRange(16);
  }

  /** `bytes=17-` parses as `(17, None)`. */
  lemma ParsesFromSeventeen(header: string)
    requires header == "bytes=17-"
    ensures ParseByteRange(header) == Ok(ByteRange(Some(17), None))
  {
    assert "bytes=" + Show(17) + "-" == header by {
      assert Show(17) == "17";
    }
    ParseShownOpenRange(17);
  }

  /** The 206 headers for bytes 0 to 9 of the 17-byte test file. */
  lemma HeadersOfFirstTen(contentType: string, lastModified: string)
    ensures Headers(Partial(0, 9, 17), contentType, lastModified)[2] == ("Content-Range", "bytes 0-9/17")
    ensures Headers(Partial(0, 9, 17), contentType, lastModified)[3] == ("Content-Length", "10")
  {
    assert Show(0) == "0" && Show(9) == "9" && Show(17) == "17" && ShowInt(10) == "10";
    assert "bytes " + Show(0) + "-" + Show(9) + "/" + Show(17) == "bytes 0-9/17";
  }

  /** The 206 headers for bytes 6 to 10 of the 17-byte test file. */
  lemma HeadersOfMidFile(contentType: string, lastModified: string)
    ensures Headers(Partial(6, 10, 17), contentType, lastModified)[2] == ("Content-Range", "bytes 6-10/17")
    ensures Headers(Partial(6, 10, 17), contentType, lastModified)[3] == ("Content-Length", "5")
  {
    assert Show(6) == "6" && Show(10) == "10" && Show(17) == "17" && ShowInt(5) == "5";
    assert "bytes " + Show(6) + "-" + Show(10) + "/" + Show(17) == "bytes 6-10/17";
  }

  /** The 206 headers for bytes 10 to 16 of the 17-byte test file. */
  lemma HeadersOfTail(contentType: string, lastModified: string)
    ensures Headers(Partial(10, 16, 17), contentType, lastModified)[2] == ("Content-Range", "bytes 10-16/17")
    ensures Headers(Partial(10, 16, 17), contentType, lastModified)[3] == ("Content-Length", "7")
  {
    assert Show(10) == "10" && Show(16) == "16" && Show(17) == "17" && ShowInt(7) == "7";
    assert "bytes " + Show(10) + "-" + Show(16) + "/" + Show(17) == "bytes 10-16/17";
  }

  /** The 206 headers for the last byte of the 17-byte test file. */
  lemma HeadersOfLastByte(contentType: string, lastModified: string)
    ensures Headers(Partial(16, 16, 17), contentType, lastModified)[2] == ("Content-Range", "bytes 16-16/17")
    ensures Headers(Partial(16, 16, 17), contentType, lastModified)[3] == ("Content-Length", "1")
  {
    assert Show(16) == "16" && Show(17) == "17" && ShowInt(1) == "1";
    assert "bytes " + Show(16) + "-" + Show(16) + "/" + Show(17) == "bytes 16-16/17";
  }

  /** test_range_request: `bytes=0-9` on the 17-byte test file. */
  lemma ServerTestRangeRequest(header: string, data: seq<byte>, contentType: string, lastModified: string)
    requires header == "bytes=0-9" && |data| == 17
    ensures var reply := Exchange(header, Some(data));
            && reply == Reply(Partial(0, 9, 17), data[0..10])
            && Headers(reply.head, contentType, lastModified)[2] == ("Content-Range", "bytes 0-9/17")
            && Headers(reply.head, contentType, lastModified)[3] == ("Content-Length", "10")
  {
    ParsesFirstTen(header);
    assert Exchange(header, Some(data)).head == Partial(0, 9, 17);
    BodyMatchesHeaders(header, data);
    HeadersOfFirstTen(contentType, lastModified);
  }

  /** test_open_range_request: `bytes=10-` on the 17-byte test file. */
  lemma ServerTestOpenRange(header: string, data: seq<byte>, contentType: string, lastModified: string)
    requires header == "bytes=10-" && |data| == 17
    ensures var reply := Exchange(header, Some(data));
            && reply == Reply(Partial(10, 16, 17), data[10..])
            && Headers(reply.head, contentType, lastModified)[2] == ("Content-Range", "bytes 10-16/17")
            && Headers(reply.head, contentType, lastModified)[3] == ("Content-Length", "7")
  {
    ParsesFromTen(header);
    assert Exchange(header, Some(data)).head == Partial(10, 16, 17);
    BodyMatchesHeaders(header, data);
    assert data[10 .. 17] == data[10..];
    HeadersOfTail(contentType, lastModified);
  }

  /** test_mid_file_range_request: `bytes=6-10` on the 17-byte test file. */
  lemma ServerTestMidFileRange(header: string, data: seq<byte>, contentType: string, lastModified: string)
    requires header == "bytes=6-10" && |data| == 17
    ensures var reply := Exchange(header, Some(data));
            && reply == Reply(Partial(6, 10, 17), data[6..11])
            && Headers(reply.head, contentType, lastModified)[2] == ("Content-Range", "bytes 6-10/17")
            && Headers(reply.head, contentType, lastModified)[3] == ("Content-Length", "5")
  {
    ParsesMidFile(header);
    assert Exchange(header, Some(data)).head == Partial(6, 10, 17);
    BodyMatchesHeaders(header, data);
    HeadersOfMidFile(contentType, lastModified);
  }

  /** test_range_past_eof: `bytes=10-100` is clamped to the last byte. */
  lemma ServerTestRangePastEof(header: string, data: seq<byte>, contentType: string, lastModified: string)
    requires header == "bytes=10-100" && |data| == 17
    ensures var reply := Exchange(header, Some(data));
            && reply == Reply(Partial(10, 16, 17), data[10..])
            && Headers(reply.head, contentType, lastModified)[2] == ("Content-Range", "bytes 10-16/17")
            && Headers(reply.head, contentType, lastModified)[3] == ("Content-Length", "7")
  {
    ParsesPastEof(header);
    assert Exchange(header, Some(data)).head == Partial(10, 16, 17);
    BodyMatchesHeaders(header, data);
    assert data[10 .. 17] == data[10..];
    HeadersOfTail(contentType, lastModified);
  }

  /** test_range_at_eof: `bytes=16-` is the last byte alone. */
  lemma ServerTestRangeAtEof(header: string, data: seq<byte>, contentType: string, lastModified: string)
    requires header == "bytes=16-" && |data| == 17
    ensures var reply := Exchange(header, Some(data));
            && reply == Reply(Partial(16, 16, 17), data[16..])
            && Headers(reply.head, contentType, lastModified)[2] == ("Content-Range", "bytes 16-16/17")
            && Headers(reply.head, contentType, lastModified)[3] == ("Content-Length", "1")
  {
    ParsesFromSixteen(header);
    assert Exchange(header, Some(data)).head == Partial(16, 16, 17);
    BodyMatchesHeaders(header, data);
    assert data[16 .. 17] == data[16..];
    HeadersOfLastByte(contentType, lastModified);
  }

  /** test_range_starting_past_eof: `bytes=17-` on 17 bytes is 416. */
  lemma ServerTestStartingPastEof(data: seq<byte>)
    requires |data| == 17
    ensures Exchange("bytes=17-", Some(data)) == Reply(NOT_SATISFIABLE, [])
  {
    ParsesFromSeventeen("bytes=17-");
  }

  /** test_404 and test_bad_range: `send_head` decides 404 and 400, but
      on a handler made for the request neither status goes out. */
  lemma ServerTestErrors(data: seq<byte>)
    ensures Exchange("bytes=6-10", None) == Reply(NOT_FOUND, [])
    ensures Exchange("bytes=abc", Some(data)) == Reply(BAD_RANGE, [])
    ensures Delivered(FRESH, ParseByteRange("bytes=6-10"), None) == AttributeError
    ensures Delivered(FRESH, ParseByteRange("bytes=abc"), Some(|data|)) == AttributeError
  {
    ParsesMidFile("bytes=6-10");
    ParserTestRejectsLetters("bytes=abc");
  }

  /** The handler's per-request attributes that `log_message` reads:
      `None` while the attribute does not exist on the handler object,
      `Some(v)` once it has been assigned `v`. */
  datatype Attributes = Attributes(range: Option<Option<ByteRange>>, fileLength: Option<Option<nat>>)

  /** A handler object made for this request (one request per connection
      under HTTP/1.0): neither attribute exists yet. */
  const FRESH := Attributes(None, None)

  /** `self.range = None` and `self.file_length = None` assigned before
      anything else, as the branch without a `Range` header does. */
  const DEFAULTED := Attributes(Some(None), Some(None))

  /** The attributes when `send_head` has reached its decision, starting
      from `initial`: `self.range` is assigned only once the parser has
      returned, `self.file_length` only once the file is open. */
  function AttributesAt(initial: Attributes, parsed: Result<ByteRange, ParseError>, fileLength: Option<nat>): Attributes {
    if parsed.Err? then initial
    else if fileLength.None? then initial.(range := Some(Some(parsed.value)))
    else Attributes(Some(Some(parsed.value)), Some(Some(fileLength.value)))
  }

  /** What follows the decision of `send_head`: the decision goes ahead, or
      `AttributeError` escapes before its status line is sent. */
  datatype Outcome = Proceeds(head: Head) | AttributeError

  /** `send_error` and `send_response` both log the request before the
      status line goes out, and `log_message` reads `self.range` and then
      `self.file_length`; when either does not exist, the lookup raises.
      A `TypeError` escapes before anything is logged. */
  function Delivered(initial: Attributes, parsed: Result<ByteRange, ParseError>, fileLength: Option<nat>): Outcome {
    var head := SendHead(parsed, fileLength);
    var a := AttributesAt(initial, parsed, fileLength);
    if !head.TypeError? && (a.range.None? || a.fileLength.None?) then AttributeError
    else Proceeds(head)
  }

  /** On a handler made for the request, the 400 and the 404 never reach
      the client: `self.range` (after a parse failure) or
      `self.file_length` (after a failed `open`) was never assigned when
      `send_error` logs. The 416, the 206 and the `TypeError` are
      unaffected. */
  lemma ErrorsRaiseOnFreshHandler(parsed: Result<ByteRange, ParseError>, fileLength: Option<nat>)
    ensures Delivered(FRESH, parsed, fileLength) == AttributeError <==> parsed.Err? || fileLength.None?
    ensures Delivered(FRESH, parsed, fileLength) != AttributeError ==>
      Delivered(FRESH, parsed, fileLength) == Proceeds(SendHead(parsed, fileLength))
  {
  }

  /** With both attributes assigned up front, every decision of
      `send_head` goes ahead: 400 and 404 included. */
  lemma DefaultedHandlerProceeds(parsed: Result<ByteRange, ParseError>, fileLength: Option<nat>)
    ensures Delivered(DEFAULTED, parsed, fileLength) == Proceeds(SendHead(parsed, fileLength))
  {
  }

  /** The exchange with both corrections: the parser refuses every `last`
      below `first`, and the copy honours a `stop` of 0. */
  function ExchangeStrict(header: string, file: Option<seq<byte>>): (r: Reply)
    ensures r.head == SendHead(ParseByteRangeStrict(header), LengthOf(file))
    ensures r.body != [] <==> r.head.Partial?
  {
    var parsed := ParseByteRangeStrict(header);
    var head := SendHead(parsed, LengthOf(file));
    if head.Partial? then
      Reply(head, CopiedUntil(file.value, 0, parsed.value.first, parsed.value.last, DEFAULT_BUFSIZE))
    else
      Reply(head, [])
  }

  /** With both corrections, every 206 sends exactly the span its headers
      announce: at least one byte, and as many as `Content-Length` says. */
  lemma StrictBodyMatchesHeaders(header: string, data: seq<byte>, contentType: string, lastModified: string)
    requires ExchangeStrict(header, Some(data)).head.Partial?
    ensures var reply := ExchangeStrict(header, Some(data));
            var h := reply.head;
            && h.first <= h.last
            && reply.body == data[h.first .. h.last + 1]
            && |reply.body| == ContentLength(h) >= 1
            && AllDigits(Headers(h, contentType, lastModified)[3].1)
            && DecimalValue(Headers(h, contentType, lastModified)[3].1) == |reply.body|
  {
    var reply := ExchangeStrict(header, Some(data));
    var h := reply.head;
    var br := ParseByteRangeStrict(header).value;
    assert br.first == Some(h.first) && h.fileLength == |data|;
    assert reply.body == CopiedUntil(data, 0, br.first, br.last, DEFAULT_BUFSIZE);
    if br.last.None? {
      assert h.last == |data| - 1;
    } else {
      assert h.first <= br.last.value;
      assert h.last == Min(br.last.value, |data| - 1);
    }
    assert reply.body == data[h.first .. h.last + 1];
  }
}
