/** TelnetStream: the older twin of TelnetInputStream. It buffers and splits
  * the bytes from the server in the same way, but it decides by itself when
  * the bytes of a telnet code are complete (telnetCodeIncomplete) and makes
  * the raw byte list of the code available instead of a parsed code. Its
  * internal byte stream also converts a negative byte by adding 255 rather
  * than 256 before the UTF-8 reader sees it; the model follows the code. */
module TelnetStreams {
  import opened Wrappers
  import opened ByteStreams
  import TelnetCodes
  import TelnetInputStreams
  import Utf8

  // ================================================================ telnet codes

  /** telnetCodeIncomplete: at most one byte; or IAC X with X one of SB, WILL,
    * WONT, DO, DONT (250 and up) and nothing after it; or IAC SB ... not yet
    * ending in SE. */
  predicate TelnetCodeIncomplete(list: seq<int>)
  {
    if |list| <= 1 then true
    else if list[1] < 250 then false
    else if |list| == 2 then true
    else if list[1] != TelnetCodes.SB then false
    else list[|list| - 1] != TelnetCodes.SE
  }

  datatype RawScan = RawScan(complete: bool, consumed: nat, list: seq<int>)

  /** The loop of readRemainingTelnetCode on values: bytes are added to the
    * list while the code is incomplete and bytes are left. */
  function ScanList(partial: seq<int>, bytes: seq<JByte>): (r: RawScan)
    requires TelnetCodeIncomplete(partial)
    ensures r.consumed <= |bytes|
    ensures r.complete == !TelnetCodeIncomplete(r.list)
    ensures !r.complete ==> r.consumed == |bytes|
    decreases |bytes|
  {
    if bytes == [] then RawScan(false, 0, partial)
    else
      var list := partial + [Unsigned(bytes[0])];
      if !TelnetCodeIncomplete(list) then RawScan(true, 1, list)
      else
        var r := ScanList(list, bytes[1..]);
        r.(consumed := r.consumed + 1)
  }

  /** One byte of the scan: it completes the code, or the scan goes on from
    * the longer list and counts the byte. */
  lemma ScanListStep(partial: seq<int>, bytes: seq<JByte>, list: seq<int>, tail: seq<JByte>)
    requires TelnetCodeIncomplete(partial) && bytes != [] && list == partial + [Unsigned(bytes[0])] && tail == bytes[1..]
    ensures !TelnetCodeIncomplete(list) ==> ScanList(partial, bytes) == RawScan(true, 1, list)
    ensures TelnetCodeIncomplete(list) ==>
      ScanList(partial, bytes) == ScanList(list, tail).(consumed := ScanList(list, tail).consumed + 1)
  {
  }

  /** The loop of readRemainingTelnetCode, one byte on: the scan of the whole
    * unread bytes is the code just completed, or what is left to scan. */
  lemma ScanListLoopStep(scan: RawScan, k: nat, partial: seq<int>, bytes: seq<JByte>, list: seq<int>, tail: seq<JByte>)
    requires TelnetCodeIncomplete(partial) && bytes != [] && list == partial + [Unsigned(bytes[0])] && tail == bytes[1..]
    requires scan == ScanList(partial, bytes).(consumed := ScanList(partial, bytes).consumed + k)
    ensures !TelnetCodeIncomplete(list) ==> scan == RawScan(true, k + 1, list)
    ensures TelnetCodeIncomplete(list) ==> scan == ScanList(list, tail).(consumed := ScanList(list, tail).consumed + k + 1)
  {
    ScanListStep(partial, bytes, list, tail);
  }

  /** The loop of readRemainingTelnetCode once the bytes have run out. */
  lemma ScanListExhausted(scan: RawScan, k: nat, list: seq<int>, bytes: seq<JByte>)
    requires TelnetCodeIncomplete(list) && bytes == []
    requires scan == ScanList(list, bytes).(consumed := ScanList(list, bytes).consumed + k)
    ensures scan == RawScan(false, k, list)
  {
  }

  /** The scan never overshoots: the list is the partial code followed by the
    * bytes consumed, and before the last of them the code was still
    * incomplete. */
  lemma {:induction false} ScanListStops(partial: seq<int>, bytes: seq<JByte>)
    requires TelnetCodeIncomplete(partial)
    ensures ScanList(partial, bytes).list == partial + UnsignedAll(bytes[..ScanList(partial, bytes).consumed])
    ensures forall k :: 0 <= k < ScanList(partial, bytes).consumed ==> IncompleteAfter(partial, bytes, k)
    decreases |bytes|
  {
    if bytes != [] {
      var list := partial + [Unsigned(bytes[0])];
      var n := ScanList(partial, bytes).consumed;
      assert IncompleteAfter(partial, bytes, 0) by {
        assert bytes[..0] == [];
      }
      TelnetInputStreams.ScanPrefix(partial, bytes, n);
      if TelnetCodeIncomplete(list) {
        ScanListStops(list, bytes[1..]);
        forall k | 1 <= k < n
          ensures IncompleteAfter(partial, bytes, k)
        {
          assert IncompleteAfter(list, bytes[1..], k - 1);
          TelnetInputStreams.ScanPrefix(partial, bytes, k);
        }
      } else {
        assert UnsignedAll(bytes[1..][..0]) == [];
      }
    }
  }

  /** The first k bytes, added to the partial code, leave it incomplete. */
  predicate IncompleteAfter(partial: seq<int>, bytes: seq<JByte>, k: nat)
  {
    k <= |bytes| && TelnetCodeIncomplete(partial + UnsignedAll(bytes[..k]))
  }

  /** IAC followed by a command byte below 250 is a code of two bytes. */
  lemma TwoByteCodes(cmd: JByte, rest: seq<JByte>)
    requires 0 <= cmd as int < 250
    ensures ScanList([], [SIGNED_IAC, cmd] + rest) == RawScan(true, 2, [TelnetCodes.IAC, cmd as int])
  {
    var bytes := [SIGNED_IAC, cmd] + rest;
    assert bytes[1..] == [cmd] + rest && bytes[1..][1..] == rest;
  }

  /** IAC followed by WILL, WONT, DO, DONT or IAC takes one more byte. */
  lemma ThreeByteCodes(cmd: JByte, option: JByte, rest: seq<JByte>)
    requires Unsigned(cmd) > TelnetCodes.SB
    ensures ScanList([], [SIGNED_IAC, cmd, option] + rest)
      == RawScan(true, 3, [TelnetCodes.IAC, Unsigned(cmd), Unsigned(option)])
  {
    var bytes := [SIGNED_IAC, cmd, option] + rest;
    assert bytes[1..] == [cmd, option] + rest && bytes[1..][1..] == [option] + rest;
    assert bytes[1..][1..][1..] == rest;
    assert [] + [Unsigned(bytes[0])] == [255] && [255] + [Unsigned(cmd)] == [255, Unsigned(cmd)];
    assert ScanList([255, Unsigned(cmd)], bytes[1..][1..]) == RawScan(true, 1, [TelnetCodes.IAC, Unsigned(cmd), Unsigned(option)]);
    assert ScanList([255], bytes[1..]) == RawScan(true, 2, [TelnetCodes.IAC, Unsigned(cmd), Unsigned(option)]);
  }

  /** So IAC IAC x is one three-byte code here, whereas TelnetInputStream
    * completes IAC IAC after two bytes and reads x after it. */
  lemma IacIacDiffers(x: JByte)
    ensures ScanList([], [SIGNED_IAC, SIGNED_IAC, x]).consumed == 3
    ensures TelnetInputStreams.ScanCode([], [SIGNED_IAC, SIGNED_IAC, x]).consumed == 2
  {
    ThreeByteCodes(SIGNED_IAC, x, []);
    assert [SIGNED_IAC, SIGNED_IAC, x] + [] == [SIGNED_IAC, SIGNED_IAC, x];
    var bytes := [SIGNED_IAC, SIGNED_IAC, x];
    assert bytes[1..] == [SIGNED_IAC, x] && bytes[1..][1..] == [x];
    TelnetInputStreams.ExtendPartial([], 255);
    TelnetInputStreams.ExtendPartial([255], 255);
    assert TelnetCodes.ReadSingle([255, 255]).Some?;
  }

  // ================================================================ the text bytes

  /** What the internal byte stream hands to the UTF-8 reader: a negative byte
    * plus 255, one less than its unsigned value. */
  function ReaderByte(b: JByte): (r: int)
    ensures b >= 0 ==> r == Unsigned(b)
    ensures b < 0 ==> r == Unsigned(b) - 1
  {
    if b < 0 then b as int + 255 else b as int
  }

  function ReaderBytes(bs: seq<JByte>): (r: seq<int>)
    ensures |r| == |bs|
    decreases |bs|
  {
    if bs == [] then [] else [ReaderByte(bs[0])] + ReaderBytes(bs[1..])
  }

  lemma {:induction false} ReaderBytesAppend(a: seq<JByte>, b: seq<JByte>)
    ensures ReaderBytes(a + b) == ReaderBytes(a) + ReaderBytes(b)
    decreases |a|
  {
    if a == [] {
      assert a + b == b;
    } else {
      assert (a + b)[1..] == a[1..] + b;
      ReaderBytesAppend(a[1..], b);
    }
  }

  predicate Ascii(bs: seq<JByte>)
  {
    forall i :: 0 <= i < |bs| ==> bs[i] >= 0
  }

  /** On ASCII text the reader sees the bytes that arrived. */
  lemma {:induction false} AsciiBytesAgree(bs: seq<JByte>)
    requires Ascii(bs)
    ensures ReaderBytes(bs) == UnsignedAll(bs)
    decreases |bs|
  {
    if bs != [] {
      assert Ascii(bs[1..]) by {
        forall i | 0 <= i < |bs| - 1
          ensures bs[1..][i] >= 0
        {
          assert bs[1..][i] == bs[i + 1];
        }
      }
      AsciiBytesAgree(bs[1..]);
    }
  }

  /** Beyond ASCII the character changes: the UTF-8 bytes C3 A9 of U+00E9 reach
    * the reader as C2 A8 and are read as U+00A8. */
  lemma NonAsciiChanges()
    ensures Utf8.Decode(UnsignedAll([-61, -87])).chars == [0xE9]
    ensures Utf8.Decode(ReaderBytes([-61, -87])).chars == [0xA8]
  {
    assert UnsignedAll([-61, -87]) == [0xC3, 0xA9] by {
      assert [-61, -87][1..] == [-87 as JByte];
    }
    assert ReaderBytes([-61, -87]) == [0xC2, 0xA8] by {
      assert [-61, -87][1..] == [-87 as JByte];
    }
    assert [0xC3, 0xA9][2..] == [] && [0xC3, 0xA9][..2] == [0xC3, 0xA9];
    assert [0xC2, 0xA8][2..] == [] && [0xC2, 0xA8][..2] == [0xC2, 0xA8];
  }

  // ================================================================ the probe, on values

  /** What a TelnetStream holds between probes: the unread bytes of the
    * connection buffer, the partial telnet code, the bytes the UTF-8 reader
    * holds back, and the text and raw code last made available. */
  datatype StreamState = StreamState(
    unread: seq<JByte>,
    partial: seq<int>,
    pending: seq<int>,
    text: Option<seq<int>>,
    code: Option<seq<int>>)

  predicate ValidState(s: StreamState)
  {
    TelnetCodeIncomplete(s.partial) && Utf8.Incomplete(s.pending) && |s.unread| <= BUFFERSIZE
  }

  datatype Probe = Probe(status: StreamStatus, state: StreamState)

  /** The bytes a probe works on: those left unread, or else what the read delivers. */
  function Available(s: StreamState, incoming: ReadOutcome): seq<JByte>
  {
    if s.unread != [] then s.unread else if incoming.Bytes? then incoming.data else []
  }

  /** The telnet path: the code's bytes are taken until it is complete. */
  function ScanStep(s: StreamState, bytes: seq<JByte>): (r: Probe)
    requires TelnetCodeIncomplete(s.partial)
  {
    var scan := ScanList(s.partial, bytes);
    Probe(
      if scan.complete then Telnet else Nothing,
      s.(unread := bytes[scan.consumed..], partial := if scan.complete then [] else scan.list,
         code := if scan.complete then Some(scan.list) else s.code))
  }

  /** readTextBufferToString, on values. */
  function DecodeInto(s: StreamState, moved: seq<int>): (r: Probe)
  {
    var d := Utf8.Decode(s.pending + moved);
    Probe(
      if d.chars == [] then Nothing else Text,
      s.(pending := d.rest, text := if d.chars == [] then s.text else Some(d.chars)))
  }

  /** The text path: the run of bytes before the next IAC is decoded, as the
    * internal byte stream converts them, behind what the reader held back. */
  function TextStep(s: StreamState, bytes: seq<JByte>): (r: Probe)
  {
    var n := TextRunLength(bytes, BUFFERSIZE);
    DecodeInto(s.(unread := bytes[n..]), ReaderBytes(bytes[..n]))
  }

  /** probeAvailableContent, on values. */
  function ProbeSpec(s: StreamState, incoming: ReadOutcome): (r: Probe)
    requires TelnetCodeIncomplete(s.partial)
  {
    if s.unread == [] && incoming.Closed? then Probe(Eof, s)
    else if s.unread == [] && incoming.Timeout? then Probe(Nothing, s)
    else
      var bytes := Available(s, incoming);
      if bytes == [] then Probe(Nothing, s)
      else if s.partial != [] || bytes[0] == SIGNED_IAC then ScanStep(s, bytes)
      else TextStep(s, bytes)
  }

  // ================================================================ properties of the probe

  /** The source is read only when every byte read before has been used. */
  lemma ProbeReadsOnlyWhenConsumed(s: StreamState, x: ReadOutcome, y: ReadOutcome)
    requires TelnetCodeIncomplete(s.partial) && s.unread != []
    ensures ProbeSpec(s, x) == ProbeSpec(s, y)
  {
  }

  /** A timeout changes nothing, and neither does the end of the stream. */
  lemma ProbeWithoutBytes(s: StreamState)
    requires TelnetCodeIncomplete(s.partial) && s.unread == []
    ensures ProbeSpec(s, Timeout) == Probe(Nothing, s)
    ensures ProbeSpec(s, Closed) == Probe(Eof, s)
  {
  }

  /** A probe keeps the stream's state valid. */
  lemma ProbeKeepsValidity(s: StreamState, incoming: ReadOutcome)
    requires ValidState(s) && FitsBuffer(incoming)
    ensures ValidState(ProbeSpec(s, incoming).state)
  {
    var bytes := Available(s, incoming);
    if bytes != [] && !(s.partial != [] || bytes[0] == SIGNED_IAC) {
      TextRunLengthFacts(bytes, BUFFERSIZE);
    }
  }

  /** The telnet path is taken exactly when a partial code is pending or the
    * next byte is IAC; it yields TELNET with the completed list and a fresh
    * partial code, or NONE keeping the bytes in the partial code. */
  lemma ProbeTelnetPath(s: StreamState, incoming: ReadOutcome)
    requires TelnetCodeIncomplete(s.partial) && Available(s, incoming) != []
    requires s.unread != [] || incoming.Bytes?
    requires s.partial != [] || Available(s, incoming)[0] == SIGNED_IAC
    ensures ProbeSpec(s, incoming).status in {Telnet, Nothing}
    ensures ProbeSpec(s, incoming).state.text == s.text && ProbeSpec(s, incoming).state.pending == s.pending
    ensures ProbeSpec(s, incoming).status == Telnet
      ==> ProbeSpec(s, incoming).state.partial == [] && ProbeSpec(s, incoming).state.code.Some?
          && !TelnetCodeIncomplete(ProbeSpec(s, incoming).state.code.value)
    ensures ProbeSpec(s, incoming).status == Nothing
      ==> ProbeSpec(s, incoming).state.unread == [] && ProbeSpec(s, incoming).state.code == s.code
          && ProbeSpec(s, incoming).state.partial == s.partial + UnsignedAll(Available(s, incoming))
  {
    var bytes := Available(s, incoming);
    ScanListStops(s.partial, bytes);
    assert bytes[..|bytes|] == bytes;
  }

  /** The text path moves neither an IAC nor anything after one, and a probe
    * that finds no complete character leaves the available text as it was. */
  lemma ProbeTextPath(s: StreamState, incoming: ReadOutcome)
    requires ValidState(s) && FitsBuffer(incoming) && Available(s, incoming) != []
    requires s.unread != [] || incoming.Bytes?
    requires s.partial == [] && Available(s, incoming)[0] != SIGNED_IAC
    ensures ProbeSpec(s, incoming).status in {Text, Nothing}
    ensures ProbeSpec(s, incoming).state.code == s.code && ProbeSpec(s, incoming).state.partial == []
    ensures TelnetInputStreams.TextTaken(Available(s, incoming), ProbeSpec(s, incoming).state.unread)
    ensures ProbeSpec(s, incoming).status == Nothing ==> ProbeSpec(s, incoming).state.text == s.text
  {
    var bytes := Available(s, incoming);
    TextRunLengthFacts(bytes, BUFFERSIZE);
    var n := TextRunLength(bytes, BUFFERSIZE);
    assert bytes == bytes[..n] + bytes[n..];
  }

  /** On ASCII text a TelnetStream finds the same text as a TelnetInputStream. */
  lemma AsciiTextAgrees(s: StreamState, bytes: seq<JByte>)
    requires Ascii(bytes)
    ensures TextStep(s, bytes).state.text
      == TelnetInputStreams.TextStep(TelnetInputStreams.InputState(s.unread, s.partial, s.pending, s.text, None), bytes).state.text
  {
    var n := TextRunLength(bytes, BUFFERSIZE);
    assert Ascii(bytes[..n]) by {
      forall i | 0 <= i < n
        ensures bytes[..n][i] >= 0
      {
        assert bytes[..n][i] == bytes[i];
      }
    }
    AsciiBytesAgree(bytes[..n]);
  }

  // ================================================================ the stream

  class TelnetStream {
    var textBuffer: array<JByte>
    var connectionBuffer: array<JByte>
    var textBufferSize: int
    var textBufferStart: int
    var connectionBufferSize: int
    var connectionBufferStart: int
    /** The bytes of an incomplete character that the UTF-8 reader holds back. */
    var decoderPending: seq<int>
    var partialTelnetCode: seq<int>
    var availableTelnetCode: Option<seq<int>>
    var availableText: Option<seq<int>>
    /** The bytes of the connection buffer not used yet. */
    ghost var unread: seq<JByte>
    /** The bytes of the text buffer not read by the UTF-8 reader yet. */
    ghost var buffered: seq<JByte>

    /** The connection buffer holds BUFFERSIZE bytes, its cursors lie within it
      * (its size is -1 after the end of the stream), and `unread` is what lies
      * between them. */
    ghost predicate Connection()
      reads this`connectionBuffer, this`connectionBufferStart, this`connectionBufferSize, this`unread, connectionBuffer
    {
      connectionBuffer.Length == BUFFERSIZE
      && 0 <= connectionBufferStart <= BUFFERSIZE && -1 <= connectionBufferSize <= BUFFERSIZE
      && (connectionBufferSize >= 0 ==> connectionBufferStart <= connectionBufferSize)
      && unread == if connectionBufferSize < 0 then [] else connectionBuffer[connectionBufferStart..connectionBufferSize]
    }

    /** The text buffer holds BUFFERSIZE bytes and `buffered` is what lies
      * between its cursors. */
    ghost predicate TextBuffered()
      reads this`textBuffer, this`textBufferStart, this`textBufferSize, this`buffered, textBuffer
    {
      textBuffer.Length == BUFFERSIZE && 0 <= textBufferStart <= textBufferSize <= BUFFERSIZE
      && buffered == textBuffer[textBufferStart..textBufferSize]
    }

    /** Both buffers are in that shape, and they are distinct. */
    ghost predicate Buffers()
      reads this, textBuffer, connectionBuffer
    {
      Connection() && TextBuffered() && textBuffer != connectionBuffer
    }

    /** Between probes, moreover, the UTF-8 reader has drained the text buffer
      * and the partial code is incomplete. */
    ghost predicate Valid()
      reads this, textBuffer, connectionBuffer
    {
      Buffers() && buffered == [] && TelnetCodeIncomplete(partialTelnetCode) && Utf8.Incomplete(decoderPending)
    }

    ghost function State(): StreamState
      reads this
    {
      StreamState(unread, partialTelnetCode, decoderPending, availableText, availableTelnetCode)
    }

    constructor ()
      ensures Valid() && State() == StreamState([], [], [], None, None)
      ensures fresh(textBuffer) && fresh(connectionBuffer)
    {
      textBuffer := new JByte[BUFFERSIZE](_ => 0);
      connectionBuffer := new JByte[BUFFERSIZE](_ => 0);
      textBufferSize := 0;
      textBufferStart := 0;
      connectionBufferSize := 0;
      connectionBufferStart := 0;
      decoderPending := [];
      partialTelnetCode := [];
      availableTelnetCode := None;
      availableText := None;
      unread := [];
      buffered := [];
    }

    /** readString. */
    function ReadString(): (r: Option<seq<int>>)
      reads this
      ensures r == availableText
    {
      availableText
    }

    /** readTelnetCode: returns the available code and forgets it, so that a
      * second call returns nothing. */
    method ReadTelnetCode() returns (r: Option<seq<int>>)
      modifies this`availableTelnetCode
      ensures r == old(availableTelnetCode) && availableTelnetCode == None
      ensures State() == old(State()).(code := None)
    {
      r := availableTelnetCode;
      availableTelnetCode := None;
    }

    /** fillConnectionBuffer: reads from the source only when every byte has been used. */
    method FillConnectionBuffer(incoming: ReadOutcome) returns (r: FillResult)
      requires Buffers() && FitsBuffer(incoming)
      modifies this`connectionBufferSize, this`connectionBufferStart, this`unread, connectionBuffer
      ensures Buffers()
      ensures old(unread) != [] ==> r == Filled && unread == old(unread)
      ensures old(unread) == [] && incoming.Timeout? ==> r == TimedOut && unread == []
      ensures old(unread) == [] && incoming.Closed? ==> r == Ended && unread == []
      ensures old(unread) == [] && incoming.Bytes? ==> r == Filled && unread == incoming.data
    {
      if connectionBufferStart < connectionBufferSize {
        return Filled;
      }
      match incoming {
        case Timeout =>
          r := TimedOut;
        case Closed =>
          connectionBufferSize := -1;
          unread := [];
          r := Ended;
        case Bytes(data) =>
          forall i | 0 <= i < |data| {
            connectionBuffer[i] := data[i];
          }
          connectionBufferSize := |data|;
          connectionBufferStart := 0;
          unread := data;
          r := Filled;
      }
    }

    /** shiftTextBuffer: the unread bytes of the text buffer move to its start,
      * in order. */
    method ShiftTextBuffer()
      requires Buffers()
      modifies this`textBufferStart, this`textBufferSize, textBuffer
      ensures Buffers() && textBufferStart == 0 && textBufferSize == |buffered| && buffered == old(buffered)
      ensures State() == old(State())
    {
      if textBufferStart >= textBufferSize {
        textBufferStart := 0;
        textBufferSize := 0;
      }
      if textBufferStart != 0 {
        ShiftDown(textBuffer, textBufferStart, textBufferSize);
        textBufferSize := textBufferSize - textBufferStart;
        textBufferStart := 0;
      }
    }

    /** moveNonTelnetFromConnectionToTextBuffer: copies bytes until an IAC, the
      * end of the connection buffer, or a full text buffer; the IAC stays in the
      * connection buffer. */
    method MoveNonTelnet() returns (ghost n: nat)
      requires Buffers() && unread != []
      modifies this`connectionBufferStart, this`textBufferSize, this`unread, this`buffered, textBuffer
      ensures Buffers()
      ensures IsTextRun(old(unread), BUFFERSIZE - old(textBufferSize), n)
      ensures buffered == old(buffered) + old(unread)[..n] && unread == old(unread)[n..]
      ensures State() == old(State()).(unread := unread)
    {
      ghost var bytes := unread;
      var copied := CopyTextRun(connectionBuffer, connectionBufferStart, connectionBufferSize, textBuffer, textBufferStart, textBufferSize);
      n := copied;
      assert IsTextRun(bytes, BUFFERSIZE - textBufferSize, n);
      SlicePrefix(connectionBuffer, connectionBufferStart, connectionBufferSize, bytes, n);
      assert Buffers();
      Append(copied, bytes[..n]);
      Consume(copied);
    }

    /** The connection buffer's start cursor moves past n used bytes. */
    method Consume(n: nat)
      requires Buffers() && unread != [] && n <= |unread|
      modifies this`connectionBufferStart, this`unread
      ensures Buffers() && unread == old(unread)[n..]
      ensures State() == old(State()).(unread := unread)
    {
      assert unread[n..] == connectionBuffer[connectionBufferStart + n..connectionBufferSize];
      connectionBufferStart, unread := connectionBufferStart + n, unread[n..];
    }

    /** The text buffer's end cursor moves past the n bytes written after it. */
    method Append(n: nat, ghost written: seq<JByte>)
      requires Buffers() && |written| == n && textBufferSize + n <= BUFFERSIZE
      requires textBuffer[textBufferStart..textBufferSize + n] == buffered + written
      modifies this`textBufferSize, this`buffered
      ensures Buffers() && buffered == old(buffered) + written
      ensures State() == old(State())
    {
      textBufferSize, buffered := textBufferSize + n, buffered + written;
    }

    /** What the internal byte stream delivers to the UTF-8 reader from the
      * text buffer, one `read()` per byte. */
    method TextBufferBytes() returns (bytes: seq<int>)
      requires TextBuffered()
      ensures bytes == ReaderBytes(buffered)
    {
      bytes := [];
      var i := textBufferStart;
      while i < textBufferSize
        invariant textBufferStart <= i <= textBufferSize
        invariant bytes == ReaderBytes(textBuffer[textBufferStart..i])
      {
        assert textBuffer[textBufferStart..i + 1] == textBuffer[textBufferStart..i] + [textBuffer[i]];
        ReaderBytesAppend(textBuffer[textBufferStart..i], [textBuffer[i]]);
        var c := textBuffer[i] as int;
        if c < 0 {
          c := c + 255;
        }
        bytes := bytes + [c];
        i := i + 1;
      }
    }

    /** readTextBufferToString: the UTF-8 reader drains the text buffer and
      * decodes what it holds, keeping back the bytes of an incomplete
      * character; the text becomes available only when there is some. */
    method ReadTextBufferToString() returns (status: StreamStatus)
      requires Buffers()
      modifies this`textBufferStart, this`decoderPending, this`availableText, this`buffered
      ensures Buffers() && buffered == [] && Utf8.Incomplete(decoderPending)
      ensures Probe(status, State()) == DecodeInto(old(State()), ReaderBytes(old(buffered)))
    {
      var bytes := TextBufferBytes();
      textBufferStart, buffered := textBufferSize, [];
      assert Buffers();
      var d := Utf8.Decode(decoderPending + bytes);
      decoderPending := d.rest;
      if d.chars == [] {
        status := Nothing;
      } else {
        availableText := Some(d.chars);
        status := Text;
      }
    }

    /** readTextFromConnectionBuffer: the text path of a probe. */
    method ReadTextFromConnectionBuffer() returns (status: StreamStatus)
      requires Valid() && unread != []
      modifies this`textBufferStart, this`textBufferSize, this`connectionBufferStart, this`decoderPending
      modifies this`availableText, this`unread, this`buffered, textBuffer
      ensures Valid()
      ensures Probe(status, State()) == TextStep(old(State()), old(unread))
    {
      ghost var s, bytes := State(), unread;
      ghost var n := TextRunLength(bytes, BUFFERSIZE);
      ShiftTextBuffer();
      assert textBufferSize == 0;
      assert State() == s && unread == bytes && buffered == [];
      ghost var moved := MoveNonTelnet();
      TextRunLengthIs(bytes, BUFFERSIZE, moved);
      assert moved == n && buffered == bytes[..n];
      assert State() == s.(unread := bytes[n..]);
      status := ReadTextBufferToString();
    }

    /** The loop of readRemainingTelnetCode: adds unread bytes to the partial
      * code while it is incomplete, and returns where it stopped and the list. */
    method ScanConnectionBuffer() returns (i: int, list: seq<int>)
      requires Connection() && unread != [] && TelnetCodeIncomplete(partialTelnetCode)
      ensures connectionBufferStart <= i
      ensures ScanList(partialTelnetCode, unread) == RawScan(!TelnetCodeIncomplete(list), i - connectionBufferStart, list)
    {
      ghost var scan := ScanList(partialTelnetCode, unread);
      i, list := connectionBufferStart, partialTelnetCode;
      ghost var k := 0;
      while TelnetCodeIncomplete(list) && i < connectionBufferSize
        invariant i == connectionBufferStart + k && k <= |unread|
        invariant TelnetCodeIncomplete(list) ==> scan == ScanList(list, unread[k..]).(consumed := ScanList(list, unread[k..]).consumed + k)
        invariant !TelnetCodeIncomplete(list) ==> scan == RawScan(true, k, list)
      {
        var c := connectionBuffer[i] as int;
        SliceAt(connectionBuffer, connectionBufferStart, connectionBufferSize, unread, k);
        SuffixStep(unread, k, unread[k..], unread[k + 1..]);
        if c < 0 {
          c := c + 256;
        }
        ScanListLoopStep(scan, k, list, unread[k..], list + [c], unread[k + 1..]);
        list := list + [c];
        i, k := i + 1, k + 1;
      }
      if TelnetCodeIncomplete(list) {
        ScanListExhausted(scan, k, list, unread[k..]);
      }
    }

    /** readRemainingTelnetCode: the telnet path of a probe. */
    method ReadRemainingTelnetCode() returns (status: StreamStatus)
      requires Valid() && unread != []
      modifies this`connectionBufferStart, this`unread, this`partialTelnetCode, this`availableTelnetCode
      ensures Valid()
      ensures Probe(status, State()) == ScanStep(old(State()), old(unread))
    {
      var i, list := ScanConnectionBuffer();
      Consume(i - connectionBufferStart);
      if TelnetCodeIncomplete(list) {
        partialTelnetCode := list;
        return Nothing;
      }
      availableTelnetCode, partialTelnetCode := Some(list), [];
      return Telnet;
    }

    /** probeAvailableContent: at most one read, then either the telnet path or
      * the text path. */
    method ProbeAvailableContent(incoming: ReadOutcome) returns (status: StreamStatus)
      requires Valid() && FitsBuffer(incoming)
      modifies this, textBuffer, connectionBuffer
      ensures Valid()
      ensures Probe(status, State()) == ProbeSpec(old(State()), incoming)
    {
      ghost var s := State();
      var filled := FillConnectionBuffer(incoming);
      assert unread == Available(s, incoming) && State() == s.(unread := unread);
      if filled == Ended {
        return Eof;
      }
      if filled == TimedOut {
        return Nothing;
      }
      if connectionBufferStart >= connectionBufferSize {
        return Nothing;
      }
      if |partialTelnetCode| > 0 {
        status := ReadRemainingTelnetCode();
      } else if connectionBuffer[connectionBufferStart] == SIGNED_IAC {
        status := ReadRemainingTelnetCode();
      } else {
        status := ReadTextFromConnectionBuffer();
      }
    }
  }
}
