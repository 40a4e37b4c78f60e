/** Telnet codes (RFC 854 and RFC 855) as the client reads and writes them:
  * IAC X, IAC X option for the four negotiation commands, and
  * IAC SB option payload IAC SE. A code is decoded from the list of bytes
  * scanned so far, one byte at a time. */
module TelnetCodes {
  import opened Wrappers
  import JavaText

  const SE: int := 240
  const NOP: int := 241
  const DAT: int := 242
  const BRK: int := 243
  const IP: int := 244
  const AO: int := 245
  const AYT: int := 246
  const EC: int := 247
  const EL: int := 248
  const GA: int := 249
  const SB: int := 250
  const WILL: int := 251
  const WONT: int := 252
  const DO: int := 253
  const DONT: int := 254
  const IAC: int := 255

  /** The three classes implementing TelnetCode. */
  datatype TelnetCode =
    | Single(command: int)
    | Support(command: int, option: int)
    | SubNegotiation(option: int, data: seq<int>)

  /** WILL, WONT, DO or DONT: the commands that carry an option byte. */
  predicate IsNegotiation(cmd: int)
  {
    cmd == WILL || cmd == WONT || cmd == DO || cmd == DONT
  }

  /** A Support code is only ever built for a negotiation command. */
  predicate ValidCode(c: TelnetCode)
  {
    c.Support? ==> IsNegotiation(c.command)
  }

  /** queryCommand. */
  function QueryCommand(c: TelnetCode): (r: int)
    ensures c.SubNegotiation? ==> r == SB
    ensures !c.SubNegotiation? ==> r == c.command
  {
    match c
    case Single(cmd) => cmd
    case Support(cmd, _) => cmd
    case SubNegotiation(_, _) => SB
  }

  /** queryOption: -1 for a single command. */
  function QueryOption(c: TelnetCode): (r: int)
    ensures c.Single? ==> r == -1
    ensures !c.Single? ==> r == c.option
  {
    match c
    case Single(_) => -1
    case Support(_, opt) => opt
    case SubNegotiation(opt, _) => opt
  }

  /** querySubNegotiation: the payload of a subnegotiation, null otherwise. */
  function QuerySubNegotiation(c: TelnetCode): (r: Option<seq<int>>)
    ensures r.Some? <==> c.SubNegotiation?
    ensures r.Some? ==> r.value == c.data
  {
    if c.SubNegotiation? then Some(c.data) else None
  }

  /** new SupportTelnetCommand(cmd, option): None where the constructor throws. */
  function NewSupport(cmd: int, option: int): (r: Option<TelnetCode>)
    ensures r.Some? <==> IsNegotiation(cmd)
    ensures r.Some? ==> ValidCode(r.value) && QueryCommand(r.value) == cmd && QueryOption(r.value) == option
    ensures r.Some? ==> QuerySubNegotiation(r.value).None?
  {
    if IsNegotiation(cmd) then Some(Support(cmd, option)) else None
  }

  /** new SubNegotiationTelnetCommand(option, data): the payload is copied, and
    * querySubNegotiation hands out an equal copy. */
  function NewSubNegotiation(option: int, data: seq<int>): (r: TelnetCode)
    ensures ValidCode(r) && QueryCommand(r) == SB && QueryOption(r) == option
    ensures QuerySubNegotiation(r) == Some(data)
  {
    SubNegotiation(option, data)
  }

  /** queryCompleteCode: the bytes that send the code. The subnegotiation form
    * always closes with IAC SE. */
  function CompleteCode(c: TelnetCode): (r: seq<int>)
    ensures |r| >= 2 && r[0] == IAC && r[1] == QueryCommand(c)
    ensures c.Single? ==> |r| == 2
    ensures c.Support? ==> |r| == 3 && r[2] == c.option
    ensures c.SubNegotiation? ==> |r| == |c.data| + 5 && r[2] == c.option
    ensures c.SubNegotiation? ==> r[3..|r| - 2] == c.data && r[|r| - 2..] == [IAC, SE]
  {
    match c
    case Single(cmd) => [IAC, cmd]
    case Support(cmd, opt) => [IAC, cmd, opt]
    case SubNegotiation(opt, data) => [IAC, SB, opt] + data + [IAC, SE]
  }

  // ================================================================ decoding

  /** What the second byte of a single command may not be. */
  predicate StartsLongerCode(cmd: int)
  {
    IsNegotiation(cmd) || cmd == SB
  }

  /** SingleTelnetCommand.readFromArrayList. A list that already held a complete
    * single command is an error there, so it is excluded here. */
  function ReadSingle(list: seq<int>): (r: Option<TelnetCode>)
    requires |list| >= 2 && !StartsLongerCode(list[1]) ==> |list| == 2
    ensures r.Some? <==> |list| >= 2 && !StartsLongerCode(list[1])
    ensures r.Some? ==> r.value == Single(list[1]) && ValidCode(r.value)
  {
    if |list| < 2 then None
    else if !StartsLongerCode(list[1]) then Some(Single(list[1]))
    else None
  }

  /** SupportTelnetCommand.readFromArrayList; a list longer than a complete
    * negotiation is excluded as an error, as above. */
  function ReadSupport(list: seq<int>): (r: Option<TelnetCode>)
    requires |list| >= 3 && IsNegotiation(list[1]) ==> |list| == 3
    ensures r.Some? <==> |list| >= 3 && IsNegotiation(list[1])
    ensures r.Some? ==> r.value == Support(list[1], list[2]) && ValidCode(r.value)
  {
    if |list| < 3 then None
    else if !IsNegotiation(list[1]) then None
    else NewSupport(list[1], list[2])
  }

  /** Where the payload of an IAC SB list ends: before the SE, or before the IAC
    * SE when the closing IAC is present. */
  function PayloadEnd(list: seq<int>): (e: int)
    requires |list| >= 4
    ensures 3 <= e <= |list| - 1
  {
    if |list| >= 5 && list[|list| - 2] == IAC then |list| - 2 else |list| - 1
  }

  /** SubNegotiationTelnetCommand.readFromArrayList with the indexing its tests
    * require: IAC SB option payload [IAC] SE. The closing IAC is optional,
    * because some servers leave it out. */
  function ReadSubNegotiation(list: seq<int>): (r: Option<TelnetCode>)
    ensures r.Some? <==> |list| >= 4 && list[1] == SB && list[|list| - 1] == SE
    ensures r.Some? ==> r.value.SubNegotiation? && r.value.option == list[2]
    ensures r.Some? ==> r.value.data == list[3..PayloadEnd(list)]
  {
    if |list| < 4 then None
    else if list[1] != SB || list[|list| - 1] != SE then None
    else Some(SubNegotiation(list[2], list[3..PayloadEnd(list)]))
  }

  /** SubNegotiationTelnetCommand.readFromArrayList as written: the option is
    * read from index 1 and the payload from index 2, one byte too early. */
  function ReadSubNegotiationAsWritten(list: seq<int>): (r: Option<TelnetCode>)
    ensures r.Some? <==> |list| >= 3 && list[1] == SB && list[|list| - 1] == SE
  {
    if |list| < 3 then None
    else if list[1] != SB || list[|list| - 1] != SE then None
    else
      var length := if list[|list| - 2] == IAC then |list| - 4 else |list| - 3;
      Some(SubNegotiation(list[1], list[2..2 + length]))
  }

  // ================================================================ round trips

  /** Decoding a single command's bytes gives the command back, and neither of
    * the longer readers accepts them. */
  lemma SingleRoundTrip(cmd: int)
    requires !StartsLongerCode(cmd)
    ensures ReadSingle(CompleteCode(Single(cmd))) == Some(Single(cmd))
    ensures ReadSupport(CompleteCode(Single(cmd))).None?
    ensures ReadSubNegotiation(CompleteCode(Single(cmd))).None?
  {
  }

  /** A decoded single command re-encodes to the bytes it came from, with the
    * leading byte (which the reader does not inspect) normalised to IAC. */
  lemma SingleDecodeEncode(list: seq<int>)
    requires |list| >= 2 && !StartsLongerCode(list[1]) ==> |list| == 2
    requires ReadSingle(list).Some?
    ensures CompleteCode(ReadSingle(list).value) == [IAC] + list[1..]
  {
  }

  lemma SupportRoundTrip(cmd: int, option: int)
    requires IsNegotiation(cmd)
    ensures ReadSingle(CompleteCode(Support(cmd, option))).None?
    ensures ReadSupport(CompleteCode(Support(cmd, option))) == Some(Support(cmd, option))
    ensures ReadSubNegotiation(CompleteCode(Support(cmd, option))).None?
  {
  }

  lemma SupportDecodeEncode(list: seq<int>)
    requires |list| >= 3 && IsNegotiation(list[1]) ==> |list| == 3
    requires ReadSupport(list).Some?
    ensures CompleteCode(ReadSupport(list).value) == [IAC] + list[1..]
  {
  }

  /** One-shot decoding of the bytes of a subnegotiation gives it back. */
  lemma SubNegotiationRoundTrip(option: int, data: seq<int>)
    ensures ReadSubNegotiation(CompleteCode(SubNegotiation(option, data))) == Some(SubNegotiation(option, data))
  {
    var list := CompleteCode(SubNegotiation(option, data));
    assert list[3..PayloadEnd(list)] == data;
  }

  /** The closing IAC is optional: both forms decode alike, unless the payload's
    * own last byte is an IAC, which the shorter form then reads as the closing one. */
  lemma SubNegotiationIacOptional(option: int, data: seq<int>)
    requires data == [] || data[|data| - 1] != IAC
    ensures ReadSubNegotiation([IAC, SB, option] + data + [SE]) == Some(SubNegotiation(option, data))
    ensures ReadSubNegotiation([IAC, SB, option] + data + [IAC, SE]) == Some(SubNegotiation(option, data))
  {
    var list := [IAC, SB, option] + data + [SE];
    assert list[3..PayloadEnd(list)] == data;
    SubNegotiationRoundTrip(option, data);
  }

  /** A subnegotiation decoded from a list that closes with IAC SE re-encodes to that list. */
  lemma SubNegotiationDecodeEncode(list: seq<int>)
    requires ReadSubNegotiation(list).Some? && |list| >= 5 && list[|list| - 2] == IAC
    ensures CompleteCode(ReadSubNegotiation(list).value) == [IAC] + list[1..]
  {
    var c := ReadSubNegotiation(list).value;
    assert list == list[..3] + list[3..|list| - 2] + list[|list| - 2..];
  }

  /** The decoder as written loses the option: it reports SB as the option and
    * puts the real option in front of the payload. */
  lemma SubNegotiationAsWrittenShifts(option: int, data: seq<int>)
    ensures ReadSubNegotiationAsWritten(CompleteCode(SubNegotiation(option, data)))
      == Some(SubNegotiation(SB, [option] + data))
  {
    var list := CompleteCode(SubNegotiation(option, data));
    assert list[2..2 + |data| + 1] == [option] + data;
  }

  /** The list of the decoder's test: IAC SB 17 97 200 4 77 IAC SE. */
  lemma SubNegotiationAsWrittenExample()
    ensures ReadSubNegotiationAsWritten([IAC, SB, 17, 97, 200, 4, 77, IAC, SE]) == Some(SubNegotiation(SB, [17, 97, 200, 4, 77]))
    ensures ReadSubNegotiation([IAC, SB, 17, 97, 200, 4, 77, IAC, SE]) == Some(SubNegotiation(17, [97, 200, 4, 77]))
  {
    var list := [IAC, SB, 17, 97, 200, 4, 77, IAC, SE];
    assert list[2..7] == [17, 97, 200, 4, 77];
    assert list[3..7] == [97, 200, 4, 77];
  }

  /** IAC SB SE: the decoder as written completes it at its third byte, with
    * option SB and no payload; the corrected one waits for more bytes. */
  lemma ShortSubNegotiationDiffers()
    ensures ReadSubNegotiationAsWritten([IAC, SB, SE]) == Some(SubNegotiation(SB, []))
    ensures ReadSubNegotiation([IAC, SB, SE]).None?
  {
    assert [IAC, SB, SE][2..2] == [];
  }

  // ================================================================ printing

  /** SingleTelnetCommand.toString: the names of NOP..GA, anything else as a number. */
  function SingleToString(cmd: int): string
  {
    if cmd == NOP then "IAC NOP"
    else if cmd == DAT then "IAC DAT"
    else if cmd == BRK then "IAC BRK"
    else if cmd == IP then "IAC IP"
    else if cmd == AO then "IAC AO"
    else if cmd == AYT then "IAC AYT"
    else if cmd == EC then "IAC EC"
    else if cmd == EL then "IAC EL"
    else if cmd == GA then "IAC GA"
    else "IAC [unknown(" + JavaText.IntToString(cmd) + ")]"
  }

  /** The commands NOP..GA, which SingleTelnetCommand.toString names. */
  predicate IsNamedSingle(cmd: int)
  {
    NOP <= cmd <= GA
  }

  /** Distinct single commands print differently. */
  lemma SingleToStringInjective(a: int, b: int)
    requires JavaText.INT_MIN <= a <= JavaText.INT_MAX && JavaText.INT_MIN <= b <= JavaText.INT_MAX
    requires SingleToString(a) == SingleToString(b)
    ensures a == b
  {
    if IsNamedSingle(a) && IsNamedSingle(b) {
      NamedSinglesDistinct(a, b);
    } else if !IsNamedSingle(a) && !IsNamedSingle(b) {
      UnknownSinglesDistinct(a, b);
    } else {
      SingleNameMark(a);
      SingleNameMark(b);
    }
  }

  /** Only an unknown command prints a bracket after "IAC ". */
  lemma SingleNameMark(cmd: int)
    ensures |SingleToString(cmd)| > 4
    ensures SingleToString(cmd)[4] == '[' <==> !IsNamedSingle(cmd)
  {
  }

  lemma NamedSinglesDistinct(a: int, b: int)
    requires IsNamedSingle(a) && IsNamedSingle(b) && SingleToString(a) == SingleToString(b)
    ensures a == b
  {
  }

  lemma UnknownSinglesDistinct(a: int, b: int)
    requires JavaText.INT_MIN <= a <= JavaText.INT_MAX && JavaText.INT_MIN <= b <= JavaText.INT_MAX
    requires !IsNamedSingle(a) && !IsNamedSingle(b) && SingleToString(a) == SingleToString(b)
    ensures a == b
  {
    var prefix := "IAC [unknown(";
    var sa := JavaText.IntToString(a);
    var sb := JavaText.IntToString(b);
    assert SingleToString(a)[|prefix|..|SingleToString(a)| - 2] == sa;
    assert SingleToString(b)[|prefix|..|SingleToString(b)| - 2] == sb;
    JavaText.ParseIntOfIntToString(a);
    JavaText.ParseIntOfIntToString(b);
  }

  /** SubNegotiationTelnetCommand.toString: every payload byte followed by a space,
    * but no space between the option and the first payload byte. */
  function SubNegotiationToString(option: int, data: seq<int>): string
  {
    "IAC SB " + JavaText.IntToString(option) + PayloadToString(data) + "IAC SE"
  }

  function PayloadToString(data: seq<int>): string
  {
    if data == [] then "" else PayloadToString(data[..|data| - 1]) + JavaText.IntToString(data[|data| - 1]) + " "
  }

  /** So that printed form does not determine the code: option 1 with payload
    * 78 prints exactly as option 17 with payload 8. */
  lemma SubNegotiationToStringAmbiguous()
    ensures SubNegotiationToString(1, [78]) == SubNegotiationToString(17, [8]) == "IAC SB 178 IAC SE"
  {
    assert JavaText.IntToString(1) == "1";
    assert JavaText.IntToString(17) == "17";
    assert JavaText.IntToString(78) == "78";
    assert JavaText.IntToString(8) == "8";
  }
}
