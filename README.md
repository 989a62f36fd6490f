# RangeHTTPServer byte ranges, in Dafny

RangeHTTPServer is a static file server that adds HTTP `Range` support to
Python's `SimpleHTTPRequestHandler`. It handles only the single-range form
`bytes=first-last` or `bytes=first-` (section 14.1.2 of RFC 9110). This
project models the three parts of `RangeHTTPServer/__init__.py` that decide
what such a request gets back, and proves what they do:

- `parse_byte_range` and its pattern `BYTE_RANGE_RE`: module
  `ByteRangeParser` (`parser.dfy`). This is a pure function from the header
  text to a `Result` holding a pair of optional offsets. Python's
  `ValueError` becomes `Err(InvalidByteRange(header))`. The regular
  expression is modelled as a greedy matcher. `RangeSyntax` describes the
  language it accepts, and `MatchIffSyntax` proves that the matcher accepts
  exactly that language.
- `copy_byte_range`: module `ByteRangeCopy` (`copy.dfy`). It is an
  imperative model. The input file is a class `InputStream` with fixed
  contents and a position that `Seek` and `Read` change. The response stream
  is a class `OutputStream` whose `Write` appends. The copy loop is a
  `while true` loop with `break`, the same shape as the source. It is proved
  against the function `Copied`, which says which bytes get written.
- The range branch of `RangeRequestHandler.send_head` and the dispatch in
  `copyfile`: module `RangeHandler` (`handler.dfy`).
  - `SendHead` is a pure function from the parse result and the file length
    to a `Head`. A `Head` is one of: `send_error(code, message)`, a 206 for
    a resolved span, or the `TypeError` that escapes on a blank header.
  - `Headers` gives the header lines of a 206.
  - `CopyFile` and `HandleRangeRequest` are the imperative side: they call
    `copy_byte_range` with the offsets as parsed.
  - `Exchange` combines all of this into one head and one body.
  - The handler's per-request fields (`self.range`, `self.file_length`)
    become explicit values: `HandleRangeRequest` passes the parsed range
    straight to `CopyFile`.
  - `Delivered` adds what `log_message` does with those fields. The host
    server's `send_error` and `send_response` log the request before they
    send the status line, and the override of `log_message` reads both
    fields. So `Delivered` says whether `send_head`'s decision actually
    reaches the client.

`Decimal` (`decimal.dfy`) models Python's `int()` on a run of digits and
`str()` on an integer. `Wrappers` (`wrappers.dfy`) holds `Option`, `Result`,
`Min` and `Max`.

In these places the model follows the code as written:
- The header is not trimmed before matching. `strip()` is used only to
  detect a blank header. Leading whitespace therefore makes a header fail
  (`RejectsLeadingWhitespace`). A single trailing newline is accepted,
  because `$` also matches before a final newline (`ParseShownRangeNewline`).
- Reversed bounds are refused only when `last` is non-zero
  (`ReversedZeroAccepted`). The docstring (`__init__.py:56-58`) promises
  "the two numbers in 'bytes=123-456'", and section 14.1.2 of RFC 9110 calls
  a range whose last position is below its first invalid.
- A blank header is not served as a whole file. It raises `TypeError`
  (`BlankHeaderRaises`).
- The copy gets the unclamped parsed range. A `stop` of 0 is treated like
  no stop at all (`ZeroEndSendsRest`).

## Model

| member | source | states |
|---|---|---|
| `Decimal.Show` | RangeHTTPServer/__init__.py:125-127 | `str(n)` of a non-negative integer is canonical: one or more ASCII digits with no leading zero, and two or more digits exactly when n >= 10 |
| `Decimal.ShowInt` | RangeHTTPServer/__init__.py:120-127 | `str(response_length)` is a canonical numeral for a non-negative length, and a minus sign followed by one for a negative length |
| `Decimal.ValueOfShow` | RangeHTTPServer/__init__.py:67 | `int` reads back what `str` writes: DecimalValue(Show(n)) == n |
| `Decimal.ValueOfShowInt` | RangeHTTPServer/__init__.py:120-127 | `int` reads back what `str` writes for any integer: the numeral denotes the value, or, after the minus sign, the value's magnitude |
| `Decimal.ShowOfValue` | RangeHTTPServer/__init__.py:67 | the reverse round trip: a canonical numeral is what `str` writes for its `int` value |
| `ByteRangeParser.DigitRun` | RangeHTTPServer/__init__.py:54 | greedy `\d`: the result is the longest all-digit prefix, and the character after it (if there is one) is not a digit |
| `ByteRangeParser.StripStart` | RangeHTTPServer/__init__.py:60 | `lstrip`: the result is a suffix of the input, everything removed is whitespace, and the result does not start with whitespace |
| `ByteRangeParser.StripEnd` | RangeHTTPServer/__init__.py:60 | `rstrip`: the result is a prefix of the input, everything removed is whitespace, and the result does not end with whitespace |
| `ByteRangeParser.BlankIffStripsEmpty` | RangeHTTPServer/__init__.py:60 | the blank test `IsBlank` (every character is whitespace) holds exactly when `strip()` returns the empty string |
| `ByteRangeParser.MatchByteRange` | RangeHTTPServer/__init__.py:54-63 | a match has a non-empty digit group, an optional non-empty digit group, and the input spells `bytes=<g1>-<g2>`, optionally followed by a single newline |
| `ByteRangeParser.MatchSpelled` | RangeHTTPServer/__init__.py:54-63 | every text of the form `bytes=` digits `-` digits, with an optional final newline, is matched, and the digit runs are returned as the groups |
| `ByteRangeParser.MatchIffSyntax` | RangeHTTPServer/__init__.py:54-65 | the matcher succeeds exactly on the language of the pattern (both directions) |
| `ByteRangeParser.GroupValues` | RangeHTTPServer/__init__.py:67 | `x and int(x)` over the groups: `first` is always present, `last` is present exactly when its group took part, and each canonical group is what `str` writes for the value read from it |
| `ByteRangeParser.ParseByteRange` | RangeHTTPServer/__init__.py:55-70 | the result is `(None, None)` exactly when the header is blank; `first` is absent only when `last` is too; a present non-zero `last` is never below `first`; an error carries the header; a non-blank accepted header matches the pattern |
| `ByteRangeParser.RejectsOffPattern` | RangeHTTPServer/__init__.py:60-65 | a header that is neither blank nor in the pattern's language raises `ValueError` |
| `ByteRangeParser.ParseSpelled` | RangeHTTPServer/__init__.py:63-70 | for any text in the pattern's language, the result is the `int` values of the groups, or an error when `last` is non-zero and below `first` |
| `ByteRangeParser.ParseShownRange` | RangeHTTPServer/__init__.py:63-70 | round trip: `bytes=<str(a)>-<str(b)>` parses to `(a, b)` for every a <= b |
| `ByteRangeParser.ParseShownOpenRange` | RangeHTTPServer/__init__.py:63-70 | round trip: `bytes=<str(a)>-` parses to `(a, None)` |
| `ByteRangeParser.ParseShownRangeNewline` | RangeHTTPServer/__init__.py:54 | `$` admits one final newline: `bytes=<str(a)>-<str(b)>` followed by a newline still parses to `(a, b)` |
| `ByteRangeParser.RejectsReversed` | RangeHTTPServer/__init__.py:67-69 | `bytes=<str(a)>-<str(b)>` with 0 < b < a raises |
| `ByteRangeParser.ReversedZeroAccepted` | RangeHTTPServer/__init__.py:68 | `bytes=<str(a)>-0` with a > 0 is accepted as `(a, 0)`, because `if last` is false for 0 |
| `ByteRangeParser.RejectsLeadingWhitespace` | RangeHTTPServer/__init__.py:60-65 | a non-blank header that starts with whitespace raises, because `match` anchors at the start of the untrimmed text |
| `ByteRangeParser.ParserTestFirstRange` | tests/RangeHTTPServer_test.py:11 | `bytes=0-499` parses to `(0, 499)` |
| `ByteRangeParser.ParserTestSecondRange` | tests/RangeHTTPServer_test.py:12 | `bytes=987-1024` parses to `(987, 1024)` |
| `ByteRangeParser.ParserTestBlankAndOpen` | tests/RangeHTTPServer_test.py:13-14 | `''` parses to `(None, None)`, and `bytes=10-` parses to `(10, None)` |
| `ByteRangeParser.ParserTestRejectsLetters` | tests/RangeHTTPServer_test.py:16-17 | `bytes=abc` raises |
| `ByteRangeParser.ParserTestRejectsUnit` | tests/RangeHTTPServer_test.py:18-19 | `characters=0-10` raises |
| `ByteRangeParser.ParserTestRejectsReversed` | tests/RangeHTTPServer_test.py:20-21 | `bytes=100-2` raises |
| `ByteRangeParser.ParseByteRangeStrict` | RangeHTTPServer/__init__.py:68 | corrected parser (`last is not None`): a returned `last` is never below `first`; it refuses whatever the original refuses; where it accepts, it agrees with the original |
| `ByteRangeParser.StrictRejectsReversedZero` | RangeHTTPServer/__init__.py:68 | the corrected parser refuses `bytes=<str(a)>-0` for every a > 0 |
| `ByteRangeCopy.InputStream.Seek` | RangeHTTPServer/__init__.py:37 | `seek(start)` sets the position to `start`, even past the end |
| `ByteRangeCopy.InputStream.Tell` | RangeHTTPServer/__init__.py:39 | `tell()` returns the current position and changes nothing |
| `ByteRangeCopy.InputStream.Read` | RangeHTTPServer/__init__.py:40 | `read(n)` returns at most n bytes from the position (everything to the end when n < 0, nothing at or past the end), and moves the position by the number of bytes returned |
| `ByteRangeCopy.OutputStream.Write` | RangeHTTPServer/__init__.py:43 | `write(buf)` appends buf to what was written before |
| `ByteRangeCopy.ReadWithinBounds` | RangeHTTPServer/__init__.py:39-40 | each read asks for at most `bufsize` bytes and gets no more than it asks for; if the position is at or before `stop + 1` and `bufsize` is not negative, it is never carried past `stop + 1` (a negative `bufsize` reads to the end) |
| `ByteRangeCopy.ReadStep` | RangeHTTPServer/__init__.py:38-43 | loop invariant step: one read stays within the copy's limit, and appends its chunk to the span copied so far; an empty read means the whole span has been copied |
| `ByteRangeCopy.CopyLoop` | RangeHTTPServer/__init__.py:38-43 | the loop terminates; the output grows by exactly the bytes from the start position up to where the copy stops; the position ends right after them |
| `ByteRangeCopy.CopyByteRange` | RangeHTTPServer/__init__.py:26-43 | `copy_byte_range` writes exactly `Copied(contents, position, start, stop, bufsize)` after what was already written, and leaves the input position just past it |
| `ByteRangeCopy.CopyByteRangeStrict` | RangeHTTPServer/__init__.py:37-43 | corrected copy (`if stop is not None`): it writes exactly `CopiedUntil(contents, position, start, stop, bufsize)`, which honours every given `stop`, 0 included (for `start <= stop + 1` that is bytes `start` through `stop`, see `StrictCopiesSpan`), and it leaves the input position just past what it wrote |
| `ByteRangeCopy.StrictCopiesSpan` | RangeHTTPServer/__init__.py:39 | for `start <= stop + 1` and a positive `bufsize`, the corrected copy writes exactly bytes `start` through `stop`, cut short at the end of the stream, including when `stop` is 0 |
| `ByteRangeCopy.CopiedBoundedSpan` | RangeHTTPServer/__init__.py:37-43 | for start <= stop + 1, stop > 0 and a positive `bufsize`, the copy writes exactly the source bytes from start up to `min(stop + 1, length)`, whatever `bufsize` is |
| `ByteRangeCopy.CopiedToEnd` | RangeHTTPServer/__init__.py:37-39 | with `stop` absent or 0, the copy writes everything from `start` (or from the current position when `start` is absent) to the end |
| `ByteRangeCopy.CopiedPastStop` | RangeHTTPServer/__init__.py:39-40 | with start > stop + 1, the first read size is negative, so the copy writes the rest of the stream |
| `ByteRangeCopy.CopiedIgnoresBufsize` | RangeHTTPServer/__init__.py:39 | the bytes written do not depend on the (positive) chunk size |
| `ByteRangeCopy.CopierTest` | tests/RangeHTTPServer_test.py:24-46 | the copier's unit test, on the 36 characters `0-9a-z`: the five copies write `456789a`, `01234`, `qrstuvwxyz`, `0123456789` and the whole alphabet |
| `RangeHandler.SendHead` | RangeHTTPServer/__init__.py:91-120 | resolution in source order: 400 exactly on a parse error; 404 exactly when the header parsed and the open failed; `TypeError` exactly for a blank header on an opened file; 416 exactly when `first >= len`; a 206 span has its start from the header and `first, last < len` |
| `RangeHandler.ServedSpan` | RangeHTTPServer/__init__.py:114-120 | for a well-formed range, the 206 span is exactly the overlap of the requested range with the file, and its length is at least 1 |
| `RangeHandler.Headers` | RangeHTTPServer/__init__.py:122-128 | a 206 sends `Content-type`, `Accept-Ranges: bytes`, `Content-Range`, `Content-Length` and `Last-Modified`, in that order; `int` reads the `Content-Length` value back as `last - first + 1`, after a minus sign when that is negative |
| `RangeHandler.ContentRangeDetermines` | RangeHTTPServer/__init__.py:125-126 | the `Content-Range` value `bytes first-last/length` names its head unambiguously: two 206 heads with the same value are the same head |
| `RangeHandler.Exchange` | RangeHTTPServer/__init__.py:91-139 | `send_head` then `copyfile`: the head is `send_head`'s decision, a body is sent exactly when the head is a 206, and the body is a run of the file that starts at the announced first byte |
| `RangeHandler.CopyFile` | RangeHTTPServer/__init__.py:132-139 | `copyfile` with no range copies the rest of the file; with a range, it writes what `copy_byte_range(start, stop)` writes, using the offsets as parsed; either way the input position ends just past the bytes written |
| `RangeHandler.HandleRangeRequest` | RangeHTTPServer/__init__.py:91-139 | the imperative request (`send_head`, then `copyfile` when a file came back) produces the head and the body that `Exchange` specifies; a file opened after the header parsed is left just past the body on a 206 and rewound to 0 otherwise, and an unparsable header leaves the file untouched |
| `RangeHandler.BadHeaderIgnoresFile` | RangeHTTPServer/__init__.py:91-95 | `send_head` decides 400, with no file bytes after it, for an unparsable header, and the decision does not depend on the file |
| `RangeHandler.MissingFileIs404` | RangeHTTPServer/__init__.py:102-106 | `send_head` decides 404, with no file bytes after it, for a parsable header and a file that cannot be opened |
| `RangeHandler.BlankHeaderRaises` | RangeHTTPServer/__init__.py:60-61 | a blank header on a file that opens ends in `TypeError`, and nothing is sent |
| `RangeHandler.BodyMatchesHeaders` | RangeHTTPServer/__init__.py:118-139 | when the parsed end is absent or non-zero, the body is exactly bytes `first..last` of the 206 and has `Content-Length` bytes |
| `RangeHandler.ZeroEndSendsRest` | RangeHTTPServer/__init__.py:39 | when the parsed end is 0, the 206 announces `1 - first` bytes with `last` 0, but the body is the whole rest of the file from `first` |
| `RangeHandler.ZeroZeroSendsWholeFile` | RangeHTTPServer/__init__.py:132-139 | `bytes=0-0` on a file of 2 or more bytes: 206 with `Content-Length: 1`, but the body is the whole file |
| `RangeHandler.ReversedZeroServed` | RangeHTTPServer/__init__.py:67-69 | `bytes=<str(n)>-0` with 0 < n < len gets a 206 for `(n, 0)` with `Content-Length` `str(1 - n)` <= 0, while a non-empty body (the rest of the file) is sent |
| `RangeHandler.ServeShownRange` | RangeHTTPServer/__init__.py:114-139 | `bytes=<str(a)>-<str(b)>` with a <= b, b > 0 and a < len gets a 206 for `a..min(b, len - 1)`, and that span is the body |
| `RangeHandler.ServeShownOpenRange` | RangeHTTPServer/__init__.py:114-139 | `bytes=<str(a)>-` with a < len gets a 206 for `a..len - 1`, and the body is the rest of the file |
| `RangeHandler.ServeShownOpenRangePastEnd` | RangeHTTPServer/__init__.py:114-116 | `bytes=<str(a)>-` with a >= len gets 416 and no file bytes |
| `RangeHandler.HeadersOfFirstTen` | tests/server_test.py:57-62 | the 206 for bytes 0..9 of 17 carries `Content-Range: bytes 0-9/17` and `Content-Length: 10` |
| `RangeHandler.ServerTestRangeRequest` | tests/server_test.py:52-62 | `bytes=0-9` on 17 bytes: 206, `Content-Range: bytes 0-9/17`, `Content-Length: 10`, and the body is bytes 0..9 |
| `RangeHandler.HeadersOfTail` | tests/server_test.py:65-75 | the 206 for bytes 10..16 of 17 carries `Content-Range: bytes 10-16/17` and `Content-Length: 7` |
| `RangeHandler.ServerTestOpenRange` | tests/server_test.py:65-75 | `bytes=10-` on 17 bytes: 206 for 10..16 with those headers, and the body is bytes 10..16 |
| `RangeHandler.HeadersOfMidFile` | tests/server_test.py:83-88 | the 206 for bytes 6..10 of 17 carries `Content-Range: bytes 6-10/17` and `Content-Length: 5` |
| `RangeHandler.ServerTestMidFileRange` | tests/server_test.py:78-88 | `bytes=6-10`: 206, `Content-Range: bytes 6-10/17`, `Content-Length: 5`, and the body is bytes 6..10 |
| `RangeHandler.ServerTestRangePastEof` | tests/server_test.py:103-113 | `bytes=10-100` is clamped: 206 for 10..16, `Content-Length: 7` |
| `RangeHandler.HeadersOfLastByte` | tests/server_test.py:121-126 | the 206 for byte 16 of 17 carries `Content-Range: bytes 16-16/17` and `Content-Length: 1` |
| `RangeHandler.ServerTestRangeAtEof` | tests/server_test.py:116-126 | `bytes=16-`: 206 for the last byte alone, `Content-Length: 1` |
| `RangeHandler.ServerTestStartingPastEof` | tests/server_test.py:129-132 | `bytes=17-` on 17 bytes gets 416 |
| `RangeHandler.ServerTestErrors` | tests/server_test.py:91-100 | `send_head` decides 404 for a missing file and 400 for `bytes=abc`, as the tests expect; on a handler made for the request, `AttributeError` escapes before either status is sent |
| `RangeHandler.ErrorsRaiseOnFreshHandler` | RangeHTTPServer/__init__.py:141-148 | on a handler made for the request, logging raises `AttributeError` exactly on the 400 and 404 paths; on every other path `send_head`'s decision goes ahead |
| `RangeHandler.DefaultedHandlerProceeds` | RangeHTTPServer/__init__.py:80-83 | with `self.range` and `self.file_length` set to `None` first, every decision of `send_head` goes ahead, 400 and 404 included |
| `RangeHandler.ExchangeStrict` | RangeHTTPServer/__init__.py:91-139 | the exchange with both corrections: the head is the decision on the strictly parsed range, and a body is sent exactly when the head is a 206 |
| `RangeHandler.StrictBodyMatchesHeaders` | RangeHTTPServer/__init__.py:118-139 | with both corrections, every 206 sends exactly bytes `first..last`; that is at least one byte, and the length matches what `int` reads from `Content-Length` |

## Left out

- The branch of `send_head` with no `Range` header, and the length it
  records for logging (`RangeHTTPServer/__init__.py:81-90`). That branch is
  the host server's own `send_head`. `CopyFile`'s branch with no range
  models the host server's whole-file copy as "copy the rest of the file".
- The host server's helpers are not modelled: `translate_path`,
  `guess_type`, `date_time_string`, `send_error`, `send_response`,
  `send_header` and `end_headers`. The content type and the modification
  date are parameters of `Headers`. Sending a status and headers is
  modelled as the returned `Head` value. The HTML error page that
  `send_error` writes after a 400, 404 or 416 is part of that value too:
  the body of a `Reply` holds only bytes of the file. The one thing `send_error` and
  `send_response` do first, logging the request, is modelled by
  `Delivered`.
- `open`: it becomes an optional file (`None` when `IOError` is raised).
  The length from seeking to the end and the `st_size` of `os.fstat` are
  one value, the length of the contents. That holds for a regular file
  that does not change during the request.
- The file handle's lifetime: closing it, and the leak on the 416 path.
- The stderr progress bar (`RangeHTTPServer/__init__.py:31-35,45-51`). It
  uses floating point under Python 3 and never writes to the response.
- `ByteRangeCopy.CopyByteRange` does not model the `ZeroDivisionError` of
  the progress bar. Its estimated span `approx_stop - approx_start` (lines
  31-33) is 0 in two cases, and then the division on line 46 raises after
  the first non-empty chunk has been written:
  - `start` equals a non-zero `stop` (for example `bytes=5-5`). The first
    read size is `stop + 1 - start`, which is 1, so the first chunk is the
    whole span. The body is complete, and the model leaves out only the
    exception raised after it.
  - `stop` is `None` or 0 and `start` is `bufsize * 100`, which is 1638400
    by default (`bytes=1638400-` or `bytes=1638400-0`). When more than
    16384 bytes remain from `start`, the body stops after the first 16384.
    `CopyByteRange`, `Copied`, `CopiedToEnd`, `BodyMatchesHeaders`,
    `ZeroEndSendsRest`, `ReversedZeroServed` and `ServeShownOpenRange`
    state the whole rest of the file in that case.
- `ByteRangeCopy.CopiedPastStop`: `InputStream.Read` reads to the end for
  every negative size. That is what in-memory streams such as `io.BytesIO`
  do, and what Python 2 file objects did. Python 3's
  buffered binary files, which `open(path, 'rb')` returns, accept only -1
  and raise `ValueError` for smaller sizes. So under Python 3 a direct
  call with `start >= stop + 3` (non-zero `stop`), or with `bufsize < -1`,
  raises instead of copying the rest. The server never makes such a call:
  the parser refuses a non-zero `last` below `first`.
- The format and the output of `log_message`
  (`RangeHTTPServer/__init__.py:141-148`). Its attribute lookups are
  modelled by `Delivered`: see the third finding below. `Exchange` and
  `HandleRangeRequest` report what `send_head` decides, which is what the
  client receives once the corrected handler is in place.
- The Python 2/3 import shim, and `RangeHTTPServer/__main__.py`.
- Python 2. `RangeHTTPServer/__init__.py:48` holds the non-ASCII
  characters `'█'` and `'░'`, and the file declares no source encoding, so
  Python 2 refuses to compile it (PEP 263). The behaviour modelled is
  therefore Python 3's. The remarks on Python 2 below only say where it
  would differ. The tests that import `StringIO` and `BaseHTTPServer` run
  only under Python 2, so they could never load this file: the model
  states what they expect, but they never exercised it.
- I/O errors during a read or a write. Short reads from non-regular files
  are not modelled either: `Read` returns as many bytes as remain, up to
  the size asked for.
- `ByteRangeParser.MatchByteRange`: `\d` is modelled as the ASCII digits
  only. Python 3's `\d` and `int` also accept other Unicode decimal digits.
  The server decodes header values as ISO-8859-1, which contains no other
  decimal digits.
- `ByteRangeParser.ParseByteRange` does not model the limit on the length
  of the digit strings that `int()` accepts. Python 3.11 and later, and
  the 2022 security releases of 3.7 to 3.10, refuse more than 4300 digits
  by default and raise `ValueError`. So `bytes=` followed by 4301 digits
  and `-` goes down the 400 path there, where the model accepts it and
  decides 416. Python 2 and older Python 3 releases have no such limit.
- `ByteRangeParser.IsBlank` follows Python 3's `str.strip()` (the
  characters for which `str.isspace()` is true). Under Python 2, byte
  strings strip only ASCII whitespace.
- `RangeHandler.SendHead`: on a blank header, Python 3 raises `TypeError`
  at the comparison on line 114, and Python 2 raises it at the subtraction
  on line 120. Both are modelled as the single outcome `TypeError`.

## Findings

| source | as written | input that shows it | evidently intended | confidence | as-written member | corrected member |
|---|---|---|---|---|---|---|
| RangeHTTPServer/__init__.py:68 | `if last and last < first` does not test a `last` of 0 | `Range: bytes=5-0` on a file of 6 or more bytes is accepted as `(5, 0)`: 206 with `Content-Range: bytes 5-0/L` and `Content-Length: -4` | refuse every range whose `last` is below `first` (`last is not None`) | not executed | `ByteRangeParser.ReversedZeroAccepted` | `ByteRangeParser.ParseByteRangeStrict` |
| RangeHTTPServer/__init__.py:141-148 | `log_message` reads `self.range` and `self.file_length`. `send_head` assigns `self.range` only after the parser returns (line 92), and `self.file_length` only once the file is open (line 109). `send_error` logs the request before it sends the status line | `Range: bytes=abc` on a handler made for the request: `AttributeError` escapes before the 400 status line is sent, and the connection closes with no response. The same happens for a file that cannot be opened, instead of the 404 | assign both attributes before anything can fail, as the branch without a `Range` header does on lines 82-83, so that the 400 and 404 reach the client as tests/server_test.py:91-100 expect | not executed | `RangeHandler.ErrorsRaiseOnFreshHandler` | `RangeHandler.DefaultedHandlerProceeds` |
| RangeHTTPServer/__init__.py:39 | `if stop` treats a `stop` of 0 as no stop | `Range: bytes=0-0` on a file of 2 or more bytes: `Content-Length: 1`, but the whole file is sent | bound the copy whenever a `stop` is given (`stop is not None`) | not executed | `RangeHandler.ZeroZeroSendsWholeFile` | `ByteRangeCopy.CopyByteRangeStrict` |

`ExchangeStrict` is the exchange with both corrections in place. It uses
`ParseByteRangeStrict` and the bytes that `CopyByteRangeStrict` writes.
`StrictBodyMatchesHeaders` proves that every 206 it produces sends exactly
what its headers announce. For the third finding, `Exchange`,
`HandleRangeRequest` and the lemmas about them report `send_head`'s
decision. By `DefaultedHandlerProceeds`, that decision is exactly what the
corrected handler delivers. Apart from that, the rest of the model keeps
the behaviour of the code as written.
