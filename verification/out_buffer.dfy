/**
 * The fixed-size output buffer of writepattern.cpp (`outbuff`, `outpos`, `currsize` and the
 * buffered `putchar`). The file is modelled as the sequence of characters handed to `fwrite`.
 */
module OutBuffer {

  /** `BUFFSIZE` on platforms other than Mac OS X (which uses 4096). */
  const BuffSize: nat := 8192

  /** `currsize` is an `unsigned int`, so it counts modulo 2^32. */
  const UIntRange: nat := 0x1_0000_0000

  /**
   * `flushed` is everything `fwrite` has already received; `buff` is the whole array
   * `outbuff` (stale bytes beyond `outpos` included).
   */
  datatype OutBuf = OutBuf(flushed: string, buff: seq<char>, outpos: nat, currsize: nat)

  /** The array has its fixed size, the cursor is inside it, and `currsize` counts the flushed bytes. */
  predicate Valid(b: OutBuf) {
    && |b.buff| == BuffSize
    && b.outpos <= BuffSize
    && b.currsize == |b.flushed| % UIntRange
  }

  /** The characters put so far: flushed bytes followed by the used prefix of the array. */
  function Contents(b: OutBuf): string
    requires Valid(b)
  {
    b.flushed + b.buff[..b.outpos]
  }

  /**
   * writepattern.cpp `putchar`: a full buffer is written out in one block first, then the
   * character goes in at `outpos`.
   */
  function PutChar(b: OutBuf, ch: char): (r: OutBuf)
    requires Valid(b)
    ensures Valid(r)
    ensures 1 <= r.outpos <= BuffSize
    ensures Contents(r) == Contents(b) + [ch]
    ensures b.outpos == BuffSize ==> r.flushed == b.flushed + b.buff && r.currsize == (b.currsize + BuffSize) % UIntRange
    ensures b.outpos < BuffSize ==> r.flushed == b.flushed && r.currsize == b.currsize && r.outpos == b.outpos + 1
  {
    var full := b.outpos == BuffSize;
    var b1 := if full then OutBuf(b.flushed + b.buff, b.buff, 0, (b.currsize + BuffSize) % UIntRange) else b;
    var r := OutBuf(b1.flushed, b1.buff[b1.outpos := ch], b1.outpos + 1, b1.currsize);
    assert r.buff[..r.outpos] == b1.buff[..b1.outpos] + [ch];
    assert full ==> Contents(b) == b1.flushed;
    r
  }

  /** Puts every character of `s`, one `putchar` after another. */
  method PutString(b: OutBuf, s: string) returns (r: OutBuf)
    requires Valid(b)
    ensures Valid(r)
    ensures Contents(r) == Contents(b) + s
    ensures |s| > 0 ==> r.outpos >= 1
  {
    r := b;
    var i := 0;
    while i < |s|
      invariant 0 <= i <= |s|
      invariant Valid(r)
      invariant Contents(r) == Contents(b) + s[..i]
      invariant i > 0 ==> r.outpos >= 1
    {
      r := PutChar(r, s[i]);
      assert s[..i + 1] == s[..i] + [s[i]];
      i := i + 1;
    }
    assert s[..|s|] == s;
  }

  /**
   * The RLE header is `sprintf`ed straight into the array (with its terminating NUL), and
   * `outpos` is set to its length; nothing has been written to the file yet.
   */
  function StartWithHeader(stale: seq<char>, header: string): (b: OutBuf)
    requires |stale| == BuffSize
    requires |header| + 1 <= BuffSize
    ensures Valid(b)
    ensures Contents(b) == header
    ensures b.flushed == ""
  {
    var buff := header + ['\0'] + stale[|header| + 1..];
    assert buff[..|header|] == header;
    OutBuf("", buff, |header|, 0)
  }

  /** The last `fwrite` sends only the used prefix of the array. */
  function Finish(b: OutBuf): (file: string)
    requires Valid(b)
  {
    b.flushed + b.buff[..b.outpos]
  }

  /** Buffering loses and reorders nothing: the file holds the header followed by the body. */
  method BufferedFile(stale: seq<char>, header: string, body: string) returns (file: string)
    requires |stale| == BuffSize
    requires |header| + 1 <= BuffSize
    ensures file == header + body
  {
    var b := StartWithHeader(stale, header);
    b := PutString(b, body);
    file := Finish(b);
    assert file == Contents(b);
  }
}
