/** `copy_byte_range`: copy an inclusive span of a seekable input stream to
    an output stream in chunks of at most `bufsize` bytes, the way
    `shutil.copyfileobj` copies a whole stream. */
module ByteRangeCopy {
  import opened Wrappers

  type byte = bv8

  /** The chunk size `copy_byte_range` uses unless told otherwise. */
  const DEFAULT_BUFSIZE: int := 16 * 1024

  /** The bytes of `data` at offsets `from` up to, not including, `to`,
      cut short at the end of `data`. */
  function Slice(data: seq<byte>, from: nat, to: nat): (r: seq<byte>)
    ensures |r| == if from < to && from < |data| then Min(to, |data|) - from else 0
  {
    var lo := Min(from, |data|);
    data[lo .. Max(lo, Min(to, |data|))]
  }

  /** A readable, seekable binary file: fixed contents and a position that
      `seek` and `read` move. The position may lie past the end. */
  class InputStream {
    const data: seq<byte>
    var pos: nat

    constructor (contents: seq<byte>)
      ensures data == contents && pos == 0
    {
      data := contents;
      pos := 0;
    }

    /** `seek(offset)` */
    method Seek(offset: nat)
      modifies this
      ensures pos == offset
    {
      pos := offset;
    }

    /** `tell()` */
    method Tell() returns (offset: nat)
      ensures offset == pos
    {
      offset := pos;
    }

    /** `read(size)`: at most `size` bytes from the position on, or all of
        them when `size` is negative; empty at or past the end. */
    method Read(size: int) returns (chunk: seq<byte>)
      modifies this
      ensures chunk == Slice(data, old(pos), if size < 0 then |data| else old(pos) + size)
      ensures pos == old(pos) + |chunk|
    {
      chunk := Slice(data, pos, if size < 0 then |data| else pos + size);
      pos := pos + |chunk|;
    }
  }

  /** A writable stream: everything written, in order. */
  class OutputStream {
    var written: seq<byte>

    constructor ()
      ensures written == []
    {
      written := [];
    }

    /** `write(buf)` */
    method Write(buf: seq<byte>)
      modifies this
      ensures written == old(written) + buf
    {
      written := written + buf;
    }
  }

  /** The position the copy starts from: `start`, or wherever the input
      stands when `start` is `None`. */
  function StartOf(pos: nat, start: Option<nat>): (from: nat)
    ensures start.Some? ==> from == start.value
    ensures start.None? ==> from == pos
  {
    start.GetOr(pos)
  }

  /** The `stop` the loop honours: `if stop` treats a `stop` of 0 like
      `None`. */
  function Honoured(stop: Option<nat>): Option<nat> {
    if stop.Some? && stop.value != 0 then stop else None
  }

  /** The offset at which a copy from `from` with bound `bound` stops
      reading, before the end of a `size`-byte stream cuts it short.
      A bound already behind `from` makes the first read size negative,
      which reads to the end; so does a negative `bufsize`; a zero `bufsize`
      reads nothing. */
  function CopyEnd(from: nat, bound: Option<nat>, bufsize: int, size: nat): nat {
    if bound.Some? && bound.value + 1 < from then size
    else if bufsize < 0 then size
    else if bufsize == 0 then from
    else if bound.Some? then bound.value + 1
    else size
  }

  /** What the copy loop writes when it honours `bound`. */
  function CopiedUntil(data: seq<byte>, pos: nat, start: Option<nat>, bound: Option<nat>, bufsize: int): seq<byte> {
    var from := StartOf(pos, start);
    Slice(data, from, CopyEnd(from, bound, bufsize, |data|))
  }

  /** What `copy_byte_range(infile, outfile, start, stop, bufsize)` writes,
      given the input's contents and position. */
  function Copied(data: seq<byte>, pos: nat, start: Option<nat>, stop: Option<nat>, bufsize: int): seq<byte> {
    CopiedUntil(data, pos, start, Honoured(stop), bufsize)
  }

  lemma SliceSplit(data: seq<byte>, a: nat, b: nat, c: nat)
    requires a <= b <= c
    ensures Slice(data, a, c) == Slice(data, a, b) + Slice(data, b, c)
  {
  }

  /** The size of the next read: `min(bufsize, stop + 1 - tell())` under a
      bound, `bufsize` without one. */
  function ReadSize(bound: Option<nat>, bufsize: int, pos: nat): int {
    if bound.Some? && bound.value + 1 - pos < bufsize then bound.value + 1 - pos else bufsize
  }

  /** The furthest the position gets during a copy from `from`. */
  function Limit(data: seq<byte>, from: nat, bound: Option<nat>, bufsize: int): nat {
    var end := CopyEnd(from, bound, bufsize, |data|);
    if end <= from || |data| <= from then from else if end <= |data| then end else |data|
  }

  /** One read of the copy loop at `pos`: it never carries the position
      past the limit, and when it comes back empty the copy has written
      everything it is to write. */
  lemma ReadStep(data: seq<byte>, from: nat, pos: nat, bound: Option<nat>, bufsize: int)
    requires from <= pos <= Limit(data, from, bound, bufsize)
    ensures var n := ReadSize(bound, bufsize, pos);
            var chunk := Slice(data, pos, if n < 0 then |data| else pos + n);
            && pos + |chunk| <= Limit(data, from, bound, bufsize)
            && Slice(data, from, pos + |chunk|) == Slice(data, from, pos) + chunk
            && (chunk == [] ==> Slice(data, from, pos) == Slice(data, from, CopyEnd(from, bound, bufsize, |data|)))
  {
    var n := ReadSize(bound, bufsize, pos);
    var chunk := Slice(data, pos, if n < 0 then |data| else pos + n);
    SliceSplit(data, from, pos, pos + |chunk|);
  }

  /** Each read of the loop asks for at most `bufsize` bytes, gets no more
      than it asks for, and under a bound at or after the position never
      carries the position past `stop + 1`. */
  lemma ReadWithinBounds(data: seq<byte>, pos: nat, bound: Option<nat>, bufsize: int)
    ensures var n := ReadSize(bound, bufsize, pos);
            var chunk := Slice(data, pos, if n < 0 then |data| else pos + n);
            && n <= bufsize
            && (n >= 0 ==> |chunk| <= n)
            && (bound.Some? && pos <= bound.value + 1 && bufsize >= 0 ==> pos + |chunk| <= bound.value + 1)
  {
  }

  /** The loop of `copy_byte_range` from the current position on,
      honouring `bound` as its stop. */
  method CopyLoop(infile: InputStream, outfile: OutputStream, bound: Option<nat>, bufsize: int)
    modifies infile, outfile
    ensures outfile.written == old(outfile.written) + Slice(infile.data, old(infile.pos), CopyEnd(old(infile.pos), bound, bufsize, |infile.data|))
    ensures infile.pos == old(infile.pos) + |Slice(infile.data, old(infile.pos), CopyEnd(old(infile.pos), bound, bufsize, |infile.data|))|
  {
    ghost var from := infile.pos;
    ghost var limit := Limit(infile.data, from, bound, bufsize);
    ghost var before := outfile.written;
    while true
      invariant from <= infile.pos <= limit
      invariant outfile.written == before + Slice(infile.data, from, infile.pos)
      decreases |infile.data| - infile.pos
    {
      var here := infile.Tell();
      var toRead := ReadSize(bound, bufsize, here);
      ReadStep(infile.data, from, infile.pos, bound, bufsize);
      var buf := infile.Read(toRead);
      if buf == [] {
        assert Slice(infile.data, from, infile.pos) == Slice(infile.data, from, CopyEnd(from, bound, bufsize, |infile.data|));
        break;
      }
      outfile.Write(buf);
    }
  }

  /** `copy_byte_range`: seek to `start` when given, then read chunks of
      `min(bufsize, stop + 1 - tell())` bytes (of `bufsize` bytes when
      `stop` is `None` or 0) and write each one, until a read comes back
      empty. */
  method CopyByteRange(infile: InputStream, outfile: OutputStream, start: Option<nat>, stop: Option<nat>, bufsize: int)
    modifies infile, outfile
    ensures outfile.written == old(outfile.written) + Copied(infile.data, old(infile.pos), start, stop, bufsize)
    ensures infile.pos == StartOf(old(infile.pos), start) + |Copied(infile.data, old(infile.pos), start, stop, bufsize)|
  {
    if start.Some? {
      infile.Seek(start.value);
    }
    CopyLoop(infile, outfile, Honoured(stop), bufsize);
  }

  /** The copy with `if stop is not None` in place of `if stop`: a `stop`
      of 0 bounds the copy like any other. */
  method CopyByteRangeStrict(infile: InputStream, outfile: OutputStream, start: Option<nat>, stop: Option<nat>, bufsize: int)
    modifies infile, outfile
    ensures outfile.written == old(outfile.written) + CopiedUntil(infile.data, old(infile.pos), start, stop, bufsize)
    ensures infile.pos == StartOf(old(infile.pos), start) + |CopiedUntil(infile.data, old(infile.pos), start, stop, bufsize)|
  {
    if start.Some? {
      infile.Seek(start.value);
    }
    CopyLoop(infile, outfile, stop, bufsize);
  }

  /** With `start <= stop + 1`, a positive `bufsize` and a stop the loop
      honours, exactly the bytes `start` through `stop` are copied, cut
      short at the end of the stream, whatever the chunk size. */
  lemma CopiedBoundedSpan(data: seq<byte>, pos: nat, start: nat, stop: nat, bufsize: int)
    requires start <= stop + 1 && stop > 0 && bufsize > 0
    ensures Copied(data, pos, Some(start), Some(stop), bufsize)
         == if start < |data| then data[start .. Min(stop + 1, |data|)] else []
  {
  }

  /** Without a stop the loop honours (`None` or 0), everything from the
      start (or the current position) to the end of the stream is copied. */
  lemma CopiedToEnd(data: seq<byte>, pos: nat, start: Option<nat>, stop: Option<nat>, bufsize: int)
    requires stop.None? || stop.value == 0
    requires bufsize != 0
    ensures var from := StartOf(pos, start);
            Copied(data, pos, start, stop, bufsize) == if from < |data| then data[from..] else []
  {
  }

  /** A stop already behind the start reads the rest of the stream. */
  lemma CopiedPastStop(data: seq<byte>, pos: nat, start: nat, stop: nat, bufsize: int)
    requires stop > 0 && stop + 1 < start
    ensures Copied(data, pos, Some(start), Some(stop), bufsize) == if start < |data| then data[start..] else []
  {
  }

  /** The corrected copy bounds every given `stop`, 0 included: with
      `start <= stop + 1` and a positive `bufsize` it copies exactly the
      bytes `start` through `stop`, cut short at the end of the stream. */
  lemma StrictCopiesSpan(data: seq<byte>, pos: nat, start: nat, stop: nat, bufsize: int)
    requires start <= stop + 1 && bufsize > 0
    ensures CopiedUntil(data, pos, Some(start), Some(stop), bufsize)
         == if start < |data| then data[start .. Min(stop + 1, |data|)] else []
  {
  }

  /** The bytes written do not depend on the chunk size. */
  lemma CopiedIgnoresBufsize(data: seq<byte>, pos: nat, start: Option<nat>, stop: Option<nat>, b1: int, b2: int)
    requires b1 > 0 && b2 > 0
    ensures Copied(data, pos, start, stop, b1) == Copied(data, pos, start, stop, b2)
  {
  }

  /** The copier's unit test, on the 36 characters `0-9a-z`: the five
      outputs it compares, in order. */
  method CopierTest(alphabet: seq<byte>) returns (outputs: seq<seq<byte>>)
    requires |alphabet| == 36
    ensures outputs == [alphabet[4..11], alphabet[0..5], alphabet[26..], alphabet[0..10], alphabet]
  {
    var inbuffer := new InputStream(alphabet);
    var outbuffer := new OutputStream();
    CopyByteRange(inbuffer, outbuffer, Some(4), Some(10), DEFAULT_BUFSIZE);
    assert outbuffer.written == alphabet[4..11];
    outputs := [outbuffer.written];
    outbuffer := new OutputStream();
    CopyByteRange(inbuffer, outbuffer, Some(0), Some(4), DEFAULT_BUFSIZE);
    assert outbuffer.written == alphabet[0..5];
    outputs := outputs + [outbuffer.written];
    outbuffer := new OutputStream();
    CopyByteRange(inbuffer, outbuffer, Some(26), None, DEFAULT_BUFSIZE);
    assert outbuffer.written == alphabet[26..];
    outputs := outputs + [outbuffer.written];
    outbuffer := new OutputStream();
    CopyByteRange(inbuffer, outbuffer, Some(0), Some(9), 10);
    assert outbuffer.written == alphabet[0..10];
    outputs := outputs + [outbuffer.written];
    inbuffer.Seek(0);
    outbuffer := new OutputStream();
    CopyByteRange(inbuffer, outbuffer, None, None, DEFAULT_BUFSIZE);
    assert outbuffer.written == alphabet;
    outputs := outputs + [outbuffer.written];
  }
}
