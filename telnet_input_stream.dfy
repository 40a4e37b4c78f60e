/** TelnetInputStream: separates the bytes arriving from the server into text
  * and telnet codes, in arrival order. Bytes are first read into a connection
  * buffer; a run of text bytes up to the next IAC is moved to a text buffer and
  * decoded as UTF-8, while a telnet code is scanned one byte at a time until
  * one of the three code readers accepts it. */
module TelnetInputStreams {
  import opened Wrappers
  import opened ByteStreams
  import opened TelnetCodes
  import Utf8

  // ================================================================ scanning codes

  /** The lists on which the single and negotiation readers do not raise their
    * "scanning not done char by char" error. */
  predicate ReadersAccept(list: seq<int>)
  {
    (|list| >= 2 && !StartsLongerCode(list[1]) ==> |list| == 2)
    && (|list| >= 3 && IsNegotiation(list[1]) ==> |list| == 3)
  }

  /** tryPartialToCompleteTelnetCode: the first of the three readers that accepts the list. */
  function TryComplete(list: seq<int>): (r: Option<TelnetCode>)
    requires ReadersAccept(list)
    ensures r.Some? ==> ValidCode(r.value)
  {
    var single := ReadSingle(list);
    if single.Some? then single
    else
      var support := ReadSupport(list);
      if support.Some? then support else ReadSubNegotiation(list)
  }

  /** The bytes of a code scanned so far that do not complete a code yet. */
  predicate PartialCode(p: seq<int>)
  {
    |p| <= 1
    || (|p| == 2 && StartsLongerCode(p[1]))
    || (|p| >= 3 && p[1] == SB && (|p| == 3 || p[|p| - 1] != SE))
  }

  /** A partial code is accepted by every reader, and none of them completes it. */
  lemma PartialCodeIsIncomplete(p: seq<int>)
    requires PartialCode(p)
    ensures ReadersAccept(p) && TryComplete(p).None?
  {
  }

  /** Adding one byte to a partial code never raises the readers' error, and
    * what is not complete afterwards is again a partial code. */
  lemma ExtendPartial(p: seq<int>, b: int)
    requires PartialCode(p)
    ensures ReadersAccept(p + [b])
    ensures TryComplete(p + [b]).None? ==> PartialCode(p + [b])
  {
    assert (p + [b])[..|p|] == p;
  }

  datatype Scan = Scan(code: Option<TelnetCode>, consumed: nat, partial: seq<int>)

  /** readRemainingTelnetCode on a pending partial code and the unread bytes: the
    * code found, the number of bytes used, and the partial code left. */
  function ScanCode(partial: seq<int>, bytes: seq<JByte>): (r: Scan)
    requires PartialCode(partial)
    ensures r.consumed <= |bytes|
    ensures r.code.None? ==> r.consumed == |bytes| && PartialCode(r.partial)
    ensures r.code.Some? ==> r.partial == [] && r.consumed >= 1 && ValidCode(r.code.value)
    decreases |bytes|
  {
    if bytes == [] then Scan(None, 0, partial)
    else
      var p := partial + [Unsigned(bytes[0])];
      ExtendPartial(partial, Unsigned(bytes[0]));
      var c := TryComplete(p);
      if c.Some? then Scan(c, 1, [])
      else
        var r := ScanCode(p, bytes[1..]);
        Scan(r.code, r.consumed + 1, r.partial)
  }

  /** The scan stops at exactly the first byte that completes a code: every
    * shorter prefix leaves a partial code, and the code is what the readers
    * make of the bytes up to that one. Without a code, every byte was added. */
  lemma ScanStopsAtFirstCode(partial: seq<int>, bytes: seq<JByte>)
    requires PartialCode(partial)
    ensures forall k :: 0 <= k < ScanCode(partial, bytes).consumed ==> PartialAfter(partial, bytes, k)
    ensures ScanCode(partial, bytes).code.Some? ==> CompletedAfter(partial, bytes, ScanCode(partial, bytes))
    ensures ScanCode(partial, bytes).code.None? ==> ScanCode(partial, bytes).partial == partial + UnsignedAll(bytes)
  {
    forall k | 0 <= k < ScanCode(partial, bytes).consumed
      ensures PartialAfter(partial, bytes, k)
    {
      ScanPrefixIsPartial(partial, bytes, k);
    }
    if ScanCode(partial, bytes).code.Some? {
      ScanCompletes(partial, bytes);
    } else {
      ScanWithoutCode(partial, bytes);
    }
  }

  lemma {:induction false} ScanPrefixIsPartial(partial: seq<int>, bytes: seq<JByte>, k: nat)
    requires PartialCode(partial) && k < ScanCode(partial, bytes).consumed
    ensures PartialAfter(partial, bytes, k)
    decreases k
  {
    if k == 0 {
      assert partial + UnsignedAll(bytes[..0]) == partial;
    } else {
      var p := partial + [Unsigned(bytes[0])];
      ExtendPartial(partial, Unsigned(bytes[0]));
      ScanPrefixIsPartial(p, bytes[1..], k - 1);
      ScanPrefix(partial, bytes, k);
    }
  }

  lemma {:induction false} ScanCompletes(partial: seq<int>, bytes: seq<JByte>)
    requires PartialCode(partial) && ScanCode(partial, bytes).code.Some?
    ensures CompletedAfter(partial, bytes, ScanCode(partial, bytes))
    decreases |bytes|
  {
    var p := partial + [Unsigned(bytes[0])];
    ExtendPartial(partial, Unsigned(bytes[0]));
    if TryComplete(p).None? {
      ScanCompletes(p, bytes[1..]);
      ScanPrefix(partial, bytes, ScanCode(partial, bytes).consumed);
    } else {
      assert ScanCode(partial, bytes) == Scan(TryComplete(p), 1, []);
      ScanPrefix(partial, bytes, 1);
      assert UnsignedAll(bytes[1..][..0]) == [];
      assert partial + UnsignedAll(bytes[..1]) == p;
    }
  }

  lemma {:induction false} ScanWithoutCode(partial: seq<int>, bytes: seq<JByte>)
    requires PartialCode(partial) && ScanCode(partial, bytes).code.None?
    ensures ScanCode(partial, bytes).partial == partial + UnsignedAll(bytes)
    decreases |bytes|
  {
    if bytes != [] {
      var p := partial + [Unsigned(bytes[0])];
      ExtendPartial(partial, Unsigned(bytes[0]));
      ScanWithoutCode(p, bytes[1..]);
    }
  }

  /** The first k bytes, added to the partial code, still leave a partial code. */
  predicate PartialAfter(partial: seq<int>, bytes: seq<JByte>, k: nat)
  {
    k <= |bytes| && PartialCode(partial + UnsignedAll(bytes[..k]))
  }

  /** A scan that started k bytes earlier. */
  function Later(scan: Scan, k: nat): Scan
  {
    scan.(consumed := scan.consumed + k)
  }

  /** One byte of the scan: it completes a code, or the scan goes on from the
    * longer partial code and counts the byte. */
  lemma ScanCodeStep(partial: seq<int>, bytes: seq<JByte>, p: seq<int>, tail: seq<JByte>)
    requires PartialCode(partial) && bytes != [] && p == partial + [Unsigned(bytes[0])] && tail == bytes[1..]
    ensures ReadersAccept(p)
    ensures TryComplete(p).Some? ==> ScanCode(partial, bytes) == Scan(TryComplete(p), 1, [])
    ensures TryComplete(p).None? ==> PartialCode(p) && ScanCode(partial, bytes) == Later(ScanCode(p, tail), 1)
  {
    ExtendPartial(partial, Unsigned(bytes[0]));
  }

  /** The loop of readRemainingTelnetCode, one byte on: the scan of the whole
    * unread bytes is the code just completed, or what is left to scan. */
  lemma ScanLoopStep(scan: Scan, k: nat, partial: seq<int>, bytes: seq<JByte>, b: JByte, p: seq<int>, tail: seq<JByte>, code: Option<TelnetCode>)
    requires PartialCode(partial) && bytes != [] && b == bytes[0] && p == partial + [Unsigned(b)] && tail == bytes[1..]
    requires code == TryComplete(p) && scan == Later(ScanCode(partial, bytes), k)
    ensures code.None? ==> PartialCode(p) && scan == Later(ScanCode(p, tail), k + 1)
    ensures code.Some? ==> scan == Scan(code, k + 1, [])
  {
    ScanCodeStep(partial, bytes, p, tail);
  }

  /** The loop of readRemainingTelnetCode once the bytes have run out. */
  lemma ScanExhausted(scan: Scan, k: nat, partial: seq<int>, bytes: seq<JByte>)
    requires PartialCode(partial) && bytes == [] && scan == Later(ScanCode(partial, bytes), k)
    ensures scan == Scan(None, k, partial)
  {
  }

  /** The bytes the scan consumed, added to the partial code, make its code. */
  predicate CompletedAfter(partial: seq<int>, bytes: seq<JByte>, scan: Scan)
  {
    scan.consumed <= |bytes|
    && var list := partial + UnsignedAll(bytes[..scan.consumed]);
    ReadersAccept(list) && TryComplete(list) == scan.code
  }

  /** Adding the first k bytes is adding the first byte, then k - 1 more. */
  lemma ScanPrefix(partial: seq<int>, bytes: seq<JByte>, k: nat)
    requires 1 <= k <= |bytes|
    ensures partial + UnsignedAll(bytes[..k]) == (partial + [Unsigned(bytes[0])]) + UnsignedAll(bytes[1..][..k - 1])
  {
    assert bytes[..k] == [bytes[0]] + bytes[1..][..k - 1];
    UnsignedAllAppend([bytes[0]], bytes[1..][..k - 1]);
  }

  // ================================================================ the probe, on values

  /** What a TelnetInputStream holds between probes: the unread bytes of the
    * connection buffer, the partial telnet code, the bytes the UTF-8 reader
    * holds back, and the text and code last made available. */
  datatype InputState = InputState(
    unread: seq<JByte>,
    partial: seq<int>,
    pending: seq<int>,
    text: Option<seq<int>>,
    code: Option<TelnetCode>)

  predicate ValidState(s: InputState)
  {
    PartialCode(s.partial) && Utf8.Incomplete(s.pending) && |s.unread| <= BUFFERSIZE
  }

  datatype Probe = Probe(status: StreamStatus, state: InputState)

  /** The bytes a probe works on: those left unread, or else what the read delivers. */
  function Available(s: InputState, incoming: ReadOutcome): seq<JByte>
  {
    if s.unread != [] then s.unread else if incoming.Bytes? then incoming.data else []
  }

  /** The telnet path: a pending partial code, or an IAC as the next byte. */
  function ScanStep(s: InputState, bytes: seq<JByte>): (r: Probe)
    requires PartialCode(s.partial)
  {
    var scan := ScanCode(s.partial, bytes);
    Probe(
      if scan.code.Some? then Telnet else Nothing,
      s.(unread := bytes[scan.consumed..], partial := scan.partial,
         code := if scan.code.Some? then scan.code else s.code))
  }

  /** The text path: the run of bytes before the next IAC is decoded together
    * with what the reader held back. */
  function TextStep(s: InputState, bytes: seq<JByte>): (r: Probe)
  {
    var n := TextRunLength(bytes, BUFFERSIZE);
    DecodeInto(s.(unread := bytes[n..]), UnsignedAll(bytes[..n]))
  }

  /** readTextBufferToString, on values: the moved bytes are decoded behind the
    * held-back ones; the text is replaced only when there is some. */
  function DecodeInto(s: InputState, moved: seq<int>): (r: Probe)
  {
    var d := Utf8.Decode(s.pending + moved);
    Probe(
      if d.chars == [] then Nothing else Text,
      s.(pending := d.rest, text := if d.chars == [] then s.text else Some(d.chars)))
  }

  /** probeAvailableContent, on values. */
  function ProbeSpec(s: InputState, incoming: ReadOutcome): (r: Probe)
    requires PartialCode(s.partial)
  {
    if s.unread == [] && incoming.Closed? then Probe(Eof, s)
    else if s.unread == [] && incoming.Timeout? then Probe(Nothing, s)
    else
      var bytes := Available(s, incoming);
      if bytes == [] then Probe(Nothing, s)
      else if s.partial != [] || bytes[0] == SIGNED_IAC then ScanStep(s, bytes)
      else TextStep(s, bytes)
  }

  // ================================================================ properties of the probe

  /** The source is read only when every byte read before has been used. */
  lemma ProbeReadsOnlyWhenConsumed(s: InputState, x: ReadOutcome, y: ReadOutcome)
    requires PartialCode(s.partial) && s.unread != []
    ensures ProbeSpec(s, x) == ProbeSpec(s, y)
  {
  }

  /** A timeout changes nothing, and neither does the end of the stream. */
  lemma ProbeWithoutBytes(s: InputState)
    requires PartialCode(s.partial) && s.unread == []
    ensures ProbeSpec(s, Timeout) == Probe(Nothing, s)
    ensures ProbeSpec(s, Closed) == Probe(Eof, s)
  {
  }

  /** A probe keeps the stream's state valid. */
  lemma ProbeKeepsValidity(s: InputState, incoming: ReadOutcome)
    requires ValidState(s) && FitsBuffer(incoming)
    ensures ValidState(ProbeSpec(s, incoming).state)
  {
    var bytes := Available(s, incoming);
    if bytes != [] && !(s.partial != [] || bytes[0] == SIGNED_IAC) {
      TextRunLengthFacts(bytes, BUFFERSIZE);
    }
  }

  /** The telnet path is taken exactly when a partial code is pending or the
    * next byte is IAC; it yields TELNET or NONE and never touches the text. */
  lemma ProbeTelnetPath(s: InputState, incoming: ReadOutcome)
    requires PartialCode(s.partial) && Available(s, incoming) != []
    requires s.unread != [] || incoming.Bytes?
    requires s.partial != [] || Available(s, incoming)[0] == SIGNED_IAC
    ensures ProbeSpec(s, incoming).status in {Telnet, Nothing}
    ensures ProbeSpec(s, incoming).state.text == s.text && ProbeSpec(s, incoming).state.pending == s.pending
    ensures ProbeSpec(s, incoming).status == Telnet <==> ScanCode(s.partial, Available(s, incoming)).code.Some?
    ensures ProbeSpec(s, incoming).state.code
      == if ProbeSpec(s, incoming).status == Telnet then ScanCode(s.partial, Available(s, incoming)).code else s.code
  {
  }

  /** The text path moves neither an IAC nor anything after one: the bytes it
    * takes are IAC-free, and what is left starts with the IAC. A probe that
    * finds no complete character leaves the available text as it was. */
  lemma ProbeTextPath(s: InputState, incoming: ReadOutcome)
    requires ValidState(s) && FitsBuffer(incoming) && Available(s, incoming) != []
    requires s.unread != [] || incoming.Bytes?
    requires s.partial == [] && Available(s, incoming)[0] != SIGNED_IAC
    ensures ProbeSpec(s, incoming).status in {Text, Nothing}
    ensures ProbeSpec(s, incoming).state.code == s.code && ProbeSpec(s, incoming).state.partial == []
    ensures TextTaken(Available(s, incoming), ProbeSpec(s, incoming).state.unread)
    ensures ProbeSpec(s, incoming).status == Nothing ==> ProbeSpec(s, incoming).state.text == s.text
  {
    var bytes := Available(s, incoming);
    TextRunLengthFacts(bytes, BUFFERSIZE);
    var n := TextRunLength(bytes, BUFFERSIZE);
    assert bytes == bytes[..n] + bytes[n..];
  }

  /** `rest` is what is left of `bytes` after a non-empty IAC-free run that
    * ends at an IAC or at the end of the bytes. */
  predicate TextTaken(bytes: seq<JByte>, rest: seq<JByte>)
  {
    |rest| < |bytes| && bytes == bytes[..|bytes| - |rest|] + rest
    && SIGNED_IAC !in bytes[..|bytes| - |rest|] && (rest == [] || rest[0] == SIGNED_IAC)
  }

  /** Text split over two text probes, as when a character is cut in two, comes
    * out as the decoding of all of its bytes together: the held-back bytes of
    * the first probe complete on the second. */
  lemma TextProbesCompose(s: InputState, a: seq<JByte>, b: seq<JByte>)
    requires PartialCode(s.partial)
    requires SIGNED_IAC !in a && SIGNED_IAC !in b && |a| <= BUFFERSIZE && |b| <= BUFFERSIZE
    ensures Utf8.Decode(s.pending + UnsignedAll(a) + UnsignedAll(b)) == Utf8.Decoded(
      Utf8.Decode(s.pending + UnsignedAll(a)).chars + Utf8.Decode(TextStep(s, a).state.pending + UnsignedAll(b)).chars,
      TextStep(TextStep(s, a).state, b).state.pending)
  {
    TextRunAll(a);
    TextRunAll(b);
    Utf8.DecodeAppend(s.pending + UnsignedAll(a), UnsignedAll(b));
  }

  /** An IAC-free run that fits the buffer is moved whole. */
  lemma TextRunAll(a: seq<JByte>)
    requires SIGNED_IAC !in a && |a| <= BUFFERSIZE
    ensures TextRunLength(a, BUFFERSIZE) == |a| && a[..|a|] == a
  {
    TextRunLengthFacts(a, BUFFERSIZE);
  }

  // ================================================================ the stream

  class TelnetInputStream {
    var textBuffer: array<JByte>
    var connectionBuffer: array<JByte>
    var textBufferSize: int
    var textBufferStart: int
    var connectionBufferSize: int
    var connectionBufferStart: int
    /** The bytes of an incomplete character that the UTF-8 reader holds back. */
    var decoderPending: seq<int>
    var partialTelnetCode: seq<int>
    var availableTelnetCode: Option<TelnetCode>
    var availableText: Option<seq<int>>
    /** The bytes of the connection buffer not used yet. */
    ghost var unread: seq<JByte>
    /** The bytes of the text buffer not decoded yet. */
    ghost var buffered: seq<JByte>

    /** The connection buffer holds BUFFERSIZE bytes, its cursors lie within it
      * (its size is -1 after the end of the stream), and `unread` is what lies
      * between them. */
    ghost predicate Connection()
      reads this`connectionBuffer, this`connectionBufferStart, this`connectionBufferSize, this`unread, connectionBuffer
    {
      connectionBuffer.Length == BUFFERSIZE
      && 0 <= connectionBufferStart <= BUFFERSIZE && -1 <= connectionBufferSize <= BUFFERSIZE
      && (connectionBufferSize >= 0 ==> connectionBufferStart <= connectionBufferSize)
      && unread == if connectionBufferSize < 0 then [] else connectionBuffer[connectionBufferStart..connectionBufferSize]
    }

    /** The text buffer holds BUFFERSIZE bytes and `buffered` is what lies
      * between its cursors. */
    ghost predicate TextBuffered()
      reads this`textBuffer, this`textBufferStart, this`textBufferSize, this`buffered, textBuffer
    {
      textBuffer.Length == BUFFERSIZE && 0 <= textBufferStart <= textBufferSize <= BUFFERSIZE
      && buffered == textBuffer[textBufferStart..textBufferSize]
    }

    /** Both buffers are in that shape, and they are distinct. */
    ghost predicate Buffers()
      reads this, textBuffer, connectionBuffer
    {
      Connection() && TextBuffered() && textBuffer != connectionBuffer
    }

    /** Between probes, moreover, the text buffer has been drained by the last
      * decoding and the partial code is incomplete. */
    ghost predicate Valid()
      reads this, textBuffer, connectionBuffer
    {
      Buffers() && buffered == [] && PartialCode(partialTelnetCode) && Utf8.Incomplete(decoderPending)
    }

    ghost function State(): InputState
      reads this
    {
      InputState(unread, partialTelnetCode, decoderPending, availableText, availableTelnetCode)
    }

    constructor ()
      ensures Valid() && State() == InputState([], [], [], None, None)
      ensures fresh(textBuffer) && fresh(connectionBuffer)
    {
      textBuffer := new JByte[BUFFERSIZE](_ => 0);
      connectionBuffer := new JByte[BUFFERSIZE](_ => 0);
      textBufferSize := 0;
      textBufferStart := 0;
      connectionBufferSize := 0;
      connectionBufferStart := 0;
      decoderPending := [];
      partialTelnetCode := [];
      availableTelnetCode := None;
      availableText := None;
      unread := [];
      buffered := [];
    }

    /** readString. */
    function ReadString(): (r: Option<seq<int>>)
      reads this
      ensures r == availableText
    {
      availableText
    }

    /** readTelnetCode: the code stays available until the next one replaces it. */
    function ReadTelnetCode(): (r: Option<TelnetCode>)
      reads this
      ensures r == availableTelnetCode
    {
      availableTelnetCode
    }

    /** fillConnectionBuffer: reads from the source only when every byte has been used. */
    method FillConnectionBuffer(incoming: ReadOutcome) returns (r: FillResult)
      requires Buffers() && FitsBuffer(incoming)
      modifies this`connectionBufferSize, this`connectionBufferStart, this`unread, connectionBuffer
      ensures Buffers()
      ensures old(unread) != [] ==> r == Filled && unread == old(unread)
      ensures old(unread) == [] && incoming.Timeout? ==> r == TimedOut && unread == []
      ensures old(unread) == [] && incoming.Closed? ==> r == Ended && unread == []
      ensures old(unread) == [] && incoming.Bytes? ==> r == Filled && unread == incoming.data
    {
      if connectionBufferStart < connectionBufferSize {
        return Filled;
      }
      match incoming {
        case Timeout =>
          r := TimedOut;
        case Closed =>
          connectionBufferSize := -1;
          unread := [];
          r := Ended;
        case Bytes(data) =>
          forall i | 0 <= i < |data| {
            connectionBuffer[i] := data[i];
          }
          connectionBufferSize := |data|;
          connectionBufferStart := 0;
          unread := data;
          r := Filled;
      }
    }

    /** shiftTextBuffer: the unread bytes of the text buffer move to its start,
      * in order. */
    method ShiftTextBuffer()
      requires Buffers()
      modifies this`textBufferStart, this`textBufferSize, textBuffer
      ensures Buffers() && textBufferStart == 0 && textBufferSize == |buffered| && buffered == old(buffered)
      ensures State() == old(State())
    {
      if textBufferStart >= textBufferSize {
        textBufferStart := 0;
        textBufferSize := 0;
      }
      if textBufferStart != 0 {
        ShiftDown(textBuffer, textBufferStart, textBufferSize);
        textBufferSize := textBufferSize - textBufferStart;
        textBufferStart := 0;
      }
    }

    /** moveNonTelnetFromConnectionToTextBuffer: copies bytes until an IAC, the
      * end of the connection buffer, or a full text buffer; the IAC stays in the
      * connection buffer. It is only called with bytes left to read. */
    method MoveNonTelnet() returns (ghost n: nat)
      requires Buffers() && unread != []
      modifies this`connectionBufferStart, this`textBufferSize, this`unread, this`buffered, textBuffer
      ensures Buffers()
      ensures IsTextRun(old(unread), BUFFERSIZE - old(textBufferSize), n)
      ensures buffered == old(buffered) + old(unread)[..n] && unread == old(unread)[n..]
      ensures State() == old(State()).(unread := unread)
    {
      ghost var bytes := unread;
      var copied := CopyTextRun(connectionBuffer, connectionBufferStart, connectionBufferSize, textBuffer, textBufferStart, textBufferSize);
      n := copied;
      assert IsTextRun(bytes, BUFFERSIZE - textBufferSize, n);
      SlicePrefix(connectionBuffer, connectionBufferStart, connectionBufferSize, bytes, n);
      assert Buffers();
      Append(copied, bytes[..n]);
      Consume(copied);
    }

    /** The connection buffer's start cursor moves past n used bytes. */
    method Consume(n: nat)
      requires Buffers() && unread != [] && n <= |unread|
      modifies this`connectionBufferStart, this`unread
      ensures Buffers() && unread == old(unread)[n..]
      ensures State() == old(State()).(unread := unread)
    {
      assert unread[n..] == connectionBuffer[connectionBufferStart + n..connectionBufferSize];
      connectionBufferStart, unread := connectionBufferStart + n, unread[n..];
    }

    /** The text buffer's end cursor moves past the n bytes written after it. */
    method Append(n: nat, ghost written: seq<JByte>)
      requires Buffers() && |written| == n && textBufferSize + n <= BUFFERSIZE
      requires textBuffer[textBufferStart..textBufferSize + n] == buffered + written
      modifies this`textBufferSize, this`buffered
      ensures Buffers() && buffered == old(buffered) + written
      ensures State() == old(State())
    {
      textBufferSize, buffered := textBufferSize + n, buffered + written;
    }

    /** The bytes of the text buffer between its cursors, as unsigned values,
      * in order: what readTextBufferToString hands to the UTF-8 reader. */
    method TextBufferBytes() returns (bytes: seq<int>)
      requires TextBuffered()
      ensures bytes == UnsignedAll(buffered)
    {
      bytes := [];
      var i := textBufferStart;
      while i < textBufferSize
        invariant textBufferStart <= i <= textBufferSize
        invariant bytes == UnsignedAll(textBuffer[textBufferStart..i])
      {
        assert textBuffer[textBufferStart..i + 1] == textBuffer[textBufferStart..i] + [textBuffer[i]];
        UnsignedAllAppend(textBuffer[textBufferStart..i], [textBuffer[i]]);
        bytes := bytes + [Unsigned(textBuffer[i])];
        i := i + 1;
      }
    }

    /** readTextBufferToString: the UTF-8 reader drains the text buffer and
      * decodes what it holds, keeping back the bytes of an incomplete
      * character; the text becomes available only when there is some. */
    method ReadTextBufferToString() returns (status: StreamStatus)
      requires Buffers()
      modifies this`textBufferStart, this`decoderPending, this`availableText, this`buffered
      ensures Buffers() && buffered == [] && Utf8.Incomplete(decoderPending)
      ensures Probe(status, State()) == DecodeInto(old(State()), UnsignedAll(old(buffered)))
    {
      var bytes := TextBufferBytes();
      textBufferStart, buffered := textBufferSize, [];
      assert Buffers();
      var d := Utf8.Decode(decoderPending + bytes);
      decoderPending := d.rest;
      if d.chars == [] {
        status := Nothing;
      } else {
        availableText := Some(d.chars);
        status := Text;
      }
    }

    /** readTextFromConnectionBuffer: the text path of a probe. */
    method ReadTextFromConnectionBuffer() returns (status: StreamStatus)
      requires Valid() && unread != []
      modifies this`textBufferStart, this`textBufferSize, this`connectionBufferStart, this`decoderPending
      modifies this`availableText, this`unread, this`buffered, textBuffer
      ensures Valid()
      ensures Probe(status, State()) == TextStep(old(State()), old(unread))
    {
      ghost var s, bytes := State(), unread;
      ghost var n := TextRunLength(bytes, BUFFERSIZE);
      ShiftTextBuffer();
      assert textBufferSize == 0;
      assert State() == s && unread == bytes && buffered == [];
      ghost var moved := MoveNonTelnet();
      TextRunLengthIs(bytes, BUFFERSIZE, moved);
      assert moved == n && buffered == bytes[..n];
      assert State() == s.(unread := bytes[n..]);
      status := ReadTextBufferToString();
    }

    /** The loop of readRemainingTelnetCode: adds the unread bytes one at a
      * time to the partial code until the readers accept it, and returns where
      * it stopped, the code and the partial code then. */
    method ScanConnectionBuffer() returns (i: int, code: Option<TelnetCode>, partial: seq<int>)
      requires Connection() && unread != [] && PartialCode(partialTelnetCode)
      ensures connectionBufferStart <= i
      ensures ScanCode(partialTelnetCode, unread) == Scan(code, i - connectionBufferStart, if code.Some? then [] else partial)
    {
      ghost var scan := ScanCode(partialTelnetCode, unread);
      assert connectionBufferSize == connectionBufferStart + |unread|;
      i, partial, code := connectionBufferStart, partialTelnetCode, None;
      ghost var k, rest := 0, unread;
      while i < connectionBufferSize && code.None?
        invariant i == connectionBufferStart + k && k <= |unread| && rest == unread[k..]
        invariant code.None? ==> PartialCode(partial) && scan == Later(ScanCode(partial, rest), k)
        invariant code.Some? ==> scan == Scan(code, k, [])
      {
        var b := connectionBuffer[i];
        SliceAt(connectionBuffer, connectionBufferStart, connectionBufferSize, unread, k);
        SuffixStep(unread, k, rest, unread[k + 1..]);
        var longer := partial + [Unsigned(b)];
        ExtendPartial(partial, Unsigned(b));
        var completed := TryComplete(longer);
        ScanLoopStep(scan, k, partial, rest, b, longer, rest[1..], completed);
        partial, code := longer, completed;
        i, k, rest := i + 1, k + 1, rest[1..];
      }
      if code.None? {
        ScanExhausted(scan, k, partial, rest);
      }
    }

    /** readRemainingTelnetCode: the telnet path of a probe. It is only called
      * with bytes left. */
    method ReadRemainingTelnetCode() returns (status: StreamStatus)
      requires Valid() && unread != []
      modifies this`connectionBufferStart, this`unread, this`partialTelnetCode, this`availableTelnetCode
      ensures Valid()
      ensures Probe(status, State()) == ScanStep(old(State()), old(unread))
    {
      var i, code, partial := ScanConnectionBuffer();
      Consume(i - connectionBufferStart);
      if code.Some? {
        partialTelnetCode, availableTelnetCode := [], code;
        return Telnet;
      }
      partialTelnetCode := partial;
      return Nothing;
    }

    /** probeAvailableContent: at most one read, then either the telnet path or
      * the text path. */
    method ProbeAvailableContent(incoming: ReadOutcome) returns (status: StreamStatus)
      requires Valid() && FitsBuffer(incoming)
      modifies this, textBuffer, connectionBuffer
      ensures Valid()
      ensures Probe(status, State()) == ProbeSpec(old(State()), incoming)
    {
      ghost var s := State();
      var filled := FillConnectionBuffer(incoming);
      assert unread == Available(s, incoming) && State() == s.(unread := unread);
      if filled == Ended {
        return Eof;
      }
      if filled == TimedOut {
        return Nothing;
      }
      if connectionBufferStart >= connectionBufferSize {
        return Nothing;
      }
      if |partialTelnetCode| > 0 || connectionBuffer[connectionBufferStart] == SIGNED_IAC {
        status := ReadRemainingTelnetCode();
      } else {
        status := ReadTextFromConnectionBuffer();
      }
    }
  }
}
