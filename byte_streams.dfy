/** What the two telnet input streams share: Java's signed bytes, the outcome of
  * one read from the socket, and the run of text bytes that may be moved to the
  * text buffer in one go. */
module ByteStreams {
  /** A Java byte. */
  newtype JByte = x: int | -128 <= x < 128

  /** The size of the connection buffer and of the text buffer. */
  const BUFFERSIZE: int := 1000

  /** IAC (255) read as a signed byte. */
  const SIGNED_IAC: JByte := -1

  /** What one `read(byte[])` on the socket does: deliver some bytes, time out
    * (a SocketTimeoutException) or report the end of the stream (-1). */
  datatype ReadOutcome = Bytes(data: seq<JByte>) | Timeout | Closed

  /** A read that fits the connection buffer. */
  predicate FitsBuffer(incoming: ReadOutcome)
  {
    incoming.Bytes? ==> |incoming.data| <= BUFFERSIZE
  }

  /** StreamStatus: NONE, TEXT, TELNET and EOF. */
  datatype StreamStatus = Nothing | Text | Telnet | Eof

  /** fillConnectionBuffer: true (content ready), false (end of stream), or the
    * timeout it lets through. */
  datatype FillResult = Filled | Ended | TimedOut

  /** The value of a byte as an unsigned int: `if (b < 0) b += 256`. */
  function Unsigned(b: JByte): (r: int)
    ensures 0 <= r < 256 && (r - b as int) % 256 == 0
    ensures r == 255 <==> b == SIGNED_IAC
  {
    if b < 0 then b as int + 256 else b as int
  }

  function UnsignedAll(bs: seq<JByte>): (r: seq<int>)
    ensures |r| == |bs|
    decreases |bs|
  {
    if bs == [] then [] else [Unsigned(bs[0])] + UnsignedAll(bs[1..])
  }

  lemma {:induction false} UnsignedAllAppend(a: seq<JByte>, b: seq<JByte>)
    ensures UnsignedAll(a + b) == UnsignedAll(a) + UnsignedAll(b)
    decreases |a|
  {
    if a == [] {
      assert a + b == b;
    } else {
      assert (a + b)[1..] == a[1..] + b;
      UnsignedAllAppend(a[1..], b);
    }
  }

  /** How many bytes moveNonTelnetFromConnectionToTextBuffer moves: up to the
    * first IAC, the end of the bytes, or `room` bytes, whichever comes first. */
  function TextRunLength(bytes: seq<JByte>, room: int): (n: nat)
    ensures n <= |bytes| && (room >= 0 ==> n <= room)
    decreases |bytes|
  {
    if bytes == [] || room <= 0 || bytes[0] == SIGNED_IAC then 0
    else 1 + TextRunLength(bytes[1..], room - 1)
  }

  /** n is the length of a run: the first n bytes are IAC-free and fit the
    * room, and they end at an IAC, at the end of the bytes, or at the room. */
  predicate IsTextRun(bytes: seq<JByte>, room: int, n: int)
  {
    0 <= n <= |bytes| && n <= room && SIGNED_IAC !in bytes[..n]
    && (n == |bytes| || n == room || bytes[n] == SIGNED_IAC)
  }

  /** The run is the longest IAC-free prefix that fits the room. */
  lemma {:induction false} TextRunLengthFacts(bytes: seq<JByte>, room: int)
    requires room >= 0
    ensures IsTextRun(bytes, room, TextRunLength(bytes, room))
    decreases |bytes|
  {
    if bytes != [] && room > 0 && bytes[0] != SIGNED_IAC {
      TextRunLengthFacts(bytes[1..], room - 1);
      var n := TextRunLength(bytes, room);
      assert bytes[..n] == [bytes[0]] + bytes[1..][..n - 1];
    }
  }

  /** ... and it is the only one: any run has the length TextRunLength computes. */
  lemma {:induction false} TextRunLengthIs(bytes: seq<JByte>, room: int, n: int)
    requires IsTextRun(bytes, room, n)
    ensures TextRunLength(bytes, room) == n
    decreases n
  {
    if n > 0 {
      assert bytes[..n] == [bytes[0]] + bytes[1..][..n - 1];
      TextRunLengthIs(bytes[1..], room - 1, n - 1);
    }
  }

  /** The copy loop of moveNonTelnetFromConnectionToTextBuffer: copies the
    * bytes of src from `from` on to dst from `at` on, until an IAC, the end
    * `to`, or the end of dst; returns how many it copied. */
  method CopyTextRun(src: array<JByte>, from: int, to: int, dst: array<JByte>, lo: int, at: int) returns (n: nat)
    requires src != dst && 0 <= from <= to <= src.Length && 0 <= lo <= at <= dst.Length
    modifies dst
    ensures IsTextRun(src[from..to], dst.Length - at, n)
    ensures dst[lo..at] == old(dst[lo..at])
    ensures dst[lo..at + n] == old(dst[lo..at]) + src[from..from + n]
  {
    ghost var before := dst[lo..at];
    n := 0;
    while from + n < to && at + n < dst.Length
      invariant from + n <= to && at + n <= dst.Length
      invariant forall k :: from <= k < from + n ==> src[k] != SIGNED_IAC
      invariant forall k :: 0 <= k < at ==> dst[k] == old(dst[k])
      invariant forall k :: at <= k < at + n ==> dst[k] == src[from + k - at]
    {
      var c := src[from + n];
      if c == SIGNED_IAC {
        break;
      }
      dst[at + n] := c;
      n := n + 1;
    }
    assert src[from..to][..n] == src[from..from + n];
    assert dst[lo..at] == before;
    ghost var after, copied := dst[lo..at + n], before + src[from..from + n];
    assert forall k :: 0 <= k < |after| ==> after[k] == copied[k];
  }

  /** The shift loop of shiftTextBuffer: moves the bytes from `from` up to
    * `to` to the start of the array. */
  method ShiftDown(a: array<JByte>, from: int, to: int)
    requires 0 <= from <= to <= a.Length
    modifies a
    ensures a[..to - from] == old(a[from..to])
  {
    ghost var moved := a[from..to];
    var i := from;
    while i < to
      invariant from <= i <= to
      invariant forall k :: 0 <= k < i - from ==> a[k] == moved[k]
      invariant forall k :: i <= k < to ==> a[k] == moved[k - from]
    {
      a[i - from] := a[i];
      i := i + 1;
    }
  }

  /** The first n elements of a slice of an array are the slice of the first n. */
  lemma SlicePrefix(a: array<JByte>, lo: int, hi: int, s: seq<JByte>, n: int)
    requires 0 <= lo <= hi <= a.Length && s == a[lo..hi] && 0 <= n <= |s|
    ensures s[..n] == a[lo..lo + n]
  {
  }

  /** The suffix from k starts with element k and goes on with the suffix from k + 1. */
  lemma SuffixStep<T>(s: seq<T>, k: nat, rest: seq<T>, tail: seq<T>)
    requires k < |s| && rest == s[k..] && tail == s[k + 1..]
    ensures rest != [] && rest[0] == s[k] && rest[1..] == tail
  {
  }

  /** Element k of a slice of an array is the array's element lo + k. */
  lemma SliceAt(a: array<JByte>, lo: int, hi: int, s: seq<JByte>, k: int)
    requires 0 <= lo <= hi <= a.Length && s == a[lo..hi] && 0 <= k < |s|
    ensures s[k] == a[lo + k]
  {
  }
}
