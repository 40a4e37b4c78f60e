/** TelnetHandler: prints received telnet codes, answers DO TTYPE and TTYPE
  * SEND requests (RFC 1091), and refuses every other option a server offers
  * or asks for. The sender and the information events are modelled as the
  * sequences of codes sent and of texts posted. */
module TelnetHandlers {
  import opened Wrappers
  import TelnetCodes
  import JavaText
  import Utf8

  const TELOPT_TTYPE: int := 24
  const TELOPT_NAWS: int := 31
  const TELOPT_COMPRESS: int := 86
  const TELOPT_MXP: int := 91
  const TELOPT_ZMP: int := 93
  const TELQUAL_IS: int := 0
  const TELQUAL_SEND: int := 1

  // ================================================================ printing

  const COMMAND_NAMES: seq<string> :=
    ["NOP", "DAT", "BRK", "IP", "AO", "AYT", "EC", "EL", "GA", "SB", "WILL", "WONT", "DO", "DONT"]

  /** commandToString: NOP..DONT (241..254) by name, anything else as a number. */
  function CommandToString(cmd: int): (r: string)
    ensures |r| >= 1
  {
    if 241 <= cmd <= 254 then COMMAND_NAMES[cmd - 241] else JavaText.IntToString(cmd)
  }

  /** optionToString: the options the client knows by name, others as a number. */
  function OptionToString(option: int): (r: string)
    ensures |r| >= 1
  {
    if option == TELOPT_TTYPE then "TTYPE"
    else if option == TELOPT_NAWS then "NAWS"
    else if option == TELOPT_COMPRESS then "COMPRESS"
    else if option == TELOPT_MXP then "MXP"
    else if option == TELOPT_ZMP then "ZMP"
    else JavaText.IntToString(option)
  }

  /** A printed number starts with a digit or a minus sign, never a letter. */
  lemma IntToStringStart(i: int)
    ensures |JavaText.IntToString(i)| >= 1
    ensures JavaText.IntToString(i)[0] == '-' || JavaText.IsDigit(JavaText.IntToString(i)[0])
  {
  }

  /** The command a printed command stands for: the inverse of CommandToString. */
  function CommandFromString(s: string): (r: Option<int>)
  {
    if s == "NOP" then Some(241) else if s == "DAT" then Some(242) else if s == "BRK" then Some(243)
    else if s == "IP" then Some(244) else if s == "AO" then Some(245) else if s == "AYT" then Some(246)
    else if s == "EC" then Some(247) else if s == "EL" then Some(248) else if s == "GA" then Some(249)
    else if s == "SB" then Some(250) else if s == "WILL" then Some(251) else if s == "WONT" then Some(252)
    else if s == "DO" then Some(253) else if s == "DONT" then Some(254)
    else JavaText.ParseInt(s)
  }

  /** Every command is read back from its printed form, so distinct commands
    * print differently. */
  lemma CommandRoundTrip(cmd: int)
    requires JavaText.INT_MIN <= cmd <= JavaText.INT_MAX
    ensures CommandFromString(CommandToString(cmd)) == Some(cmd)
  {
    if 241 <= cmd <= 254 {
      NamedCommandRoundTrip(cmd);
    } else {
      var s := JavaText.IntToString(cmd);
      assert CommandToString(cmd) == s;
      IntToStringStart(cmd);
      NumberIsNoCommandName(s);
      JavaText.ParseIntOfIntToString(cmd);
    }
  }

  /** Text that starts with a digit or a minus sign is read as a number. */
  lemma NumberIsNoCommandName(s: string)
    requires |s| >= 1 && (s[0] == '-' || JavaText.IsDigit(s[0]))
    ensures CommandFromString(s) == JavaText.ParseInt(s)
  {
    assert s[0] !in "NDBIAEGSW";
  }

  lemma NamedCommandRoundTrip(cmd: int)
    requires 241 <= cmd <= 254
    ensures CommandFromString(CommandToString(cmd)) == Some(cmd)
  {
    if cmd <= 247 {
      LowCommandRoundTrip(cmd);
    } else {
      HighCommandRoundTrip(cmd);
    }
  }

  lemma LowCommandRoundTrip(cmd: int)
    requires 241 <= cmd <= 247
    ensures CommandFromString(CommandToString(cmd)) == Some(cmd)
  {
    if cmd == 241 {} else if cmd == 242 {} else if cmd == 243 {} else if cmd == 244 {}
    else if cmd == 245 {} else if cmd == 246 {} else {}
  }

  lemma HighCommandRoundTrip(cmd: int)
    requires 248 <= cmd <= 254
    ensures CommandFromString(CommandToString(cmd)) == Some(cmd)
  {
    if cmd == 248 {} else if cmd == 249 {} else if cmd == 250 {} else if cmd == 251 {}
    else if cmd == 252 {} else if cmd == 253 {} else {}
  }

  lemma CommandToStringInjective(a: int, b: int)
    requires JavaText.INT_MIN <= a <= JavaText.INT_MAX && JavaText.INT_MIN <= b <= JavaText.INT_MAX
    requires CommandToString(a) == CommandToString(b)
    ensures a == b
  {
    CommandRoundTrip(a);
    CommandRoundTrip(b);
  }

  /** The option a printed option stands for: the inverse of OptionToString. */
  function OptionFromString(s: string): (r: Option<int>)
  {
    if s == "TTYPE" then Some(TELOPT_TTYPE) else if s == "NAWS" then Some(TELOPT_NAWS)
    else if s == "COMPRESS" then Some(TELOPT_COMPRESS) else if s == "MXP" then Some(TELOPT_MXP)
    else if s == "ZMP" then Some(TELOPT_ZMP)
    else JavaText.ParseInt(s)
  }

  /** Every option is read back from its printed form. */
  lemma OptionRoundTrip(option: int)
    requires JavaText.INT_MIN <= option <= JavaText.INT_MAX
    ensures OptionFromString(OptionToString(option)) == Some(option)
  {
    if option == TELOPT_TTYPE {
    } else if option == TELOPT_NAWS {
    } else if option == TELOPT_COMPRESS {
    } else if option == TELOPT_MXP {
    } else if option == TELOPT_ZMP {
    } else {
      assert OptionToString(option) == JavaText.IntToString(option);
      NumberRead(option);
    }
  }

  /** A printed number is no option name and no command name, and is parsed back. */
  lemma NumberRead(i: int)
    requires JavaText.INT_MIN <= i <= JavaText.INT_MAX
    ensures OptionFromString(JavaText.IntToString(i)) == Some(i)
  {
    var s := JavaText.IntToString(i);
    IntToStringStart(i);
    assert s[0] != 'T' && s[0] != 'N' && s[0] != 'C' && s[0] != 'M' && s[0] != 'Z';
    assert s != "TTYPE" && s != "NAWS" && s != "COMPRESS" && s != "MXP" && s != "ZMP";
    JavaText.ParseIntOfIntToString(i);
  }

  /** The length of the run of non-zero values at the start of `code`. */
  function NonZeroRun(code: seq<int>): (n: nat)
    ensures n <= |code| && (code != [] && code[0] != 0 ==> n >= 1)
    ensures forall i :: 0 <= i < n ==> code[i] != 0
    ensures n < |code| ==> code[n] == 0
    decreases |code|
  {
    if code == [] || code[0] == 0 then 0 else 1 + NonZeroRun(code[1..])
  }

  /** makeStrings, on the bytes of the range: the maximal runs of non-zero
    * values, in order; zeros only separate them and empty runs are skipped. */
  function MakeStrings(code: seq<int>): (r: seq<seq<int>>)
    ensures forall k :: 0 <= k < |r| ==> r[k] != [] && 0 !in r[k]
    decreases |code|
  {
    if code == [] then []
    else if code[0] == 0 then MakeStrings(code[1..])
    else
      var n := NonZeroRun(code);
      assert 0 !in code[..n] by {
        forall i | 0 <= i < n
          ensures code[..n][i] != 0
        {
        }
      }
      [code[..n]] + MakeStrings(code[n..])
  }

  function Flatten(pieces: seq<seq<int>>): seq<int>
  {
    if pieces == [] then [] else pieces[0] + Flatten(pieces[1..])
  }

  function WithoutZeros(code: seq<int>): (r: seq<int>)
    ensures 0 !in r
  {
    if code == [] then [] else (if code[0] == 0 then [] else [code[0]]) + WithoutZeros(code[1..])
  }

  /** Nothing but the zeros is lost: the pieces together are the values without
    * the zeros. */
  lemma {:induction false} MakeStringsKeepsValues(code: seq<int>)
    ensures Flatten(MakeStrings(code)) == WithoutZeros(code)
    decreases |code|
  {
    if code != [] {
      if code[0] == 0 {
        MakeStringsKeepsValues(code[1..]);
      } else {
        var n := NonZeroRun(code);
        MakeStringsKeepsValues(code[n..]);
        WithoutZerosPrefix(code, n);
      }
    }
  }

  lemma {:induction false} WithoutZerosPrefix(code: seq<int>, n: nat)
    requires n <= |code| && forall i :: 0 <= i < n ==> code[i] != 0
    ensures WithoutZeros(code) == code[..n] + WithoutZeros(code[n..])
    decreases n
  {
    if n > 0 {
      WithoutZerosPrefix(code[1..], n - 1);
      assert code[1..][n - 1..] == code[n..];
      assert code[..n] == [code[0]] + code[1..][..n - 1];
    }
  }

  /** The pieces joined with zeros between them. */
  function JoinWithZeros(pieces: seq<seq<int>>): seq<int>
  {
    if pieces == [] then [] else if |pieces| == 1 then pieces[0] else pieces[0] + [0] + JoinWithZeros(pieces[1..])
  }

  /** Non-empty zero-free pieces separated by zeros are split back into the same pieces. */
  lemma {:induction false} MakeStringsOfJoined(pieces: seq<seq<int>>)
    requires forall k :: 0 <= k < |pieces| ==> pieces[k] != [] && 0 !in pieces[k]
    ensures MakeStrings(JoinWithZeros(pieces)) == pieces
    decreases |pieces|
  {
    if pieces != [] {
      var p := pieces[0];
      var rest := if |pieces| == 1 then [] else [0] + JoinWithZeros(pieces[1..]);
      var code := JoinWithZeros(pieces);
      assert code == p + rest;
      NonZeroRunOf(p, rest);
      assert code[..|p|] == p && code[|p|..] == rest;
      if |pieces| > 1 {
        MakeStringsOfJoined(pieces[1..]);
        assert rest[1..] == JoinWithZeros(pieces[1..]);
      }
    }
  }

  lemma {:induction false} NonZeroRunOf(p: seq<int>, rest: seq<int>)
    requires 0 !in p && (rest == [] || rest[0] == 0)
    ensures NonZeroRun(p + rest) == |p|
    decreases |p|
  {
    if p != [] {
      assert (p + rest)[1..] == p[1..] + rest;
      NonZeroRunOf(p[1..], rest);
    } else {
      assert p + rest == rest;
    }
  }

  /** The byte values of `(byte) code[i]`, as the UTF-8 decoder reads them. */
  function ByteValues(code: seq<int>): (r: seq<int>)
    ensures |r| == |code| && forall i :: 0 <= i < |code| ==> r[i] == code[i] % 256
  {
    seq(|code|, i requires 0 <= i < |code| => code[i] % 256)
  }

  /** The character of a decoded code point; a value that is no Unicode scalar
    * value becomes the replacement character. */
  function CodePointChar(cp: int): char
  {
    if 0 <= cp < 0xD800 || 0xE000 <= cp < 0x11_0000 then cp as char else '\U{FFFD}'
  }

  function CodePointChars(cps: seq<int>): (r: string)
    ensures |r| == |cps| && forall i :: 0 <= i < |cps| ==> r[i] == CodePointChar(cps[i])
  {
    seq(|cps|, i requires 0 <= i < |cps| => CodePointChar(cps[i]))
  }

  /** new String(bs, UTF_8) on the bytes of one string: its UTF-8 characters,
    * and a replacement character for an unfinished last one. */
  function BytesToString(code: seq<int>): string
  {
    var d := Utf8.Decode(ByteValues(code));
    CodePointChars(d.chars) + if d.rest == [] then "" else "\U{FFFD}"
  }

  /** Bytes an encoder wrote are read back as the characters encoded. */
  lemma EncodedStringRead(cps: seq<int>)
    requires Utf8.AllCodePoints(cps)
    ensures BytesToString(Utf8.EncodeAll(cps)) == CodePointChars(cps)
  {
    var bs := Utf8.EncodeAll(cps);
    Utf8.EncodeAllBytes(cps);
    assert ByteValues(bs) == bs;
    Utf8.EncodeDecode(cps);
  }

  /** The two bytes C3 A9 are the one character U+00E9. */
  lemma AccentedLetterRead()
    ensures BytesToString([0xC3, 0xA9]) == "\U{E9}"
  {
    assert Utf8.EncodeAll([0xE9]) == [0xC3, 0xA9];
    EncodedStringRead([0xE9]);
  }

  /** A character cut short at the end of a string reads as U+FFFD. */
  lemma UnfinishedCharacterRead()
    ensures BytesToString([0x61, 0xC3]) == "a\U{FFFD}"
  {
    assert ByteValues([0x61, 0xC3]) == [0x61, 0xC3];
    Utf8.DecodeStep([0x61, 0xC3], 1, 0x61, [0xC3]);
  }

  /** String.getBytes on an ASCII string. */
  function StringToBytes(s: string): (r: seq<int>)
    ensures |r| == |s|
  {
    if s == [] then [] else [s[0] as int] + StringToBytes(s[1..])
  }

  predicate IsAscii(s: string)
  {
    forall i :: 0 <= i < |s| ==> s[i] as int < 128
  }

  /** ASCII text survives the trip to bytes and back. */
  lemma StringBytesRoundTrip(s: string)
    requires IsAscii(s)
    ensures BytesToString(StringToBytes(s)) == s
    ensures '\0' !in s ==> 0 !in StringToBytes(s)
  {
    var bs := StringToBytes(s);
    AsciiBytes(s);
    assert ByteValues(bs) == bs;
    Utf8.AsciiDecodes(bs);
    assert CodePointChars(bs) == s;
  }

  /** The bytes of ASCII text are its character codes. */
  lemma {:induction false} AsciiBytes(s: string)
    requires IsAscii(s)
    ensures forall i :: 0 <= i < |s| ==> StringToBytes(s)[i] == s[i] as int < 128
    ensures '\0' !in s ==> 0 !in StringToBytes(s)
    decreases |s|
  {
    if s != [] {
      assert IsAscii(s[1..]) by {
        forall i | 0 <= i < |s| - 1
          ensures s[1..][i] as int < 128
        {
          assert s[1..][i] == s[i + 1];
        }
      }
      AsciiBytes(s[1..]);
      assert '\0' !in s ==> '\0' !in s[1..];
    }
  }

  /** Each string quoted and followed by a space. */
  function QuotedStrings(values: seq<seq<int>>): string
  {
    if values == [] then "" else "\"" + BytesToString(values[0]) + "\" " + QuotedStrings(values[1..])
  }

  /** Each value as a number followed by a space. */
  function Numbers(values: seq<int>): string
  {
    if values == [] then "" else JavaText.IntToString(values[0]) + " " + Numbers(values[1..])
  }

  /** subNegotiationToString: an IS or SEND qualifier by name, then for TTYPE
    * and ZMP with IS the quoted strings, otherwise the numbers; always ending
    * in a space. */
  function SubNegotiationToString(option: int, subn: seq<int>): (r: string)
    ensures |r| >= 1 && r[|r| - 1] == ' '
  {
    if subn == [] then " "
    else
      var qualifier := if subn[0] == TELQUAL_IS then "IS " else if subn[0] == TELQUAL_SEND then "SEND " else "";
      var start := if subn[0] == TELQUAL_IS || subn[0] == TELQUAL_SEND then 1 else 0;
      var body :=
        if (option == TELOPT_TTYPE || option == TELOPT_ZMP) && subn[0] == TELQUAL_IS
        then QuotedStrings(MakeStrings(subn[1..]))
        else Numbers(subn[start..]);
      EndsInSpace(qualifier, body, subn, start, option);
      qualifier + body
  }

  /** The qualifier and the body of a non-empty payload print something that ends in a space. */
  lemma EndsInSpace(qualifier: string, body: string, subn: seq<int>, start: int, option: int)
    requires subn != [] && 0 <= start <= 1
    requires qualifier == if subn[0] == TELQUAL_IS then "IS " else if subn[0] == TELQUAL_SEND then "SEND " else ""
    requires start == if subn[0] == TELQUAL_IS || subn[0] == TELQUAL_SEND then 1 else 0
    requires body == if (option == TELOPT_TTYPE || option == TELOPT_ZMP) && subn[0] == TELQUAL_IS
      then QuotedStrings(MakeStrings(subn[1..])) else Numbers(subn[start..])
    ensures |qualifier + body| >= 1 && (qualifier + body)[|qualifier + body| - 1] == ' '
  {
    if body != [] {
      EndsInSpaceBody(body, subn[1..], subn[start..]);
    }
  }

  lemma EndsInSpaceBody(body: string, values: seq<int>, numbers: seq<int>)
    requires body == QuotedStrings(MakeStrings(values)) || body == Numbers(numbers)
    requires body != []
    ensures body[|body| - 1] == ' '
  {
    if body == QuotedStrings(MakeStrings(values)) {
      QuotedEndsInSpace(MakeStrings(values));
    } else {
      NumbersEndInSpace(numbers);
    }
  }

  lemma {:induction false} QuotedEndsInSpace(values: seq<seq<int>>)
    ensures QuotedStrings(values) == [] || QuotedStrings(values)[|QuotedStrings(values)| - 1] == ' '
    decreases |values|
  {
    if values != [] {
      QuotedEndsInSpace(values[1..]);
    }
  }

  lemma {:induction false} NumbersEndInSpace(values: seq<int>)
    ensures Numbers(values) == [] || Numbers(values)[|Numbers(values)| - 1] == ' '
    decreases |values|
  {
    if values != [] {
      NumbersEndInSpace(values[1..]);
    }
  }

  /** telnetToString: "IAC" and the command, the option unless it is -1, and
    * for a subnegotiation its payload followed by "IAC SE". */
  function TelnetToString(code: TelnetCodes.TelnetCode): (r: string)
  {
    var option := TelnetCodes.QueryOption(code);
    var subn := TelnetCodes.QuerySubNegotiation(code);
    "IAC " + CommandToString(TelnetCodes.QueryCommand(code))
    + (if option != -1 then " " + OptionToString(option) else "")
    + (if subn.Some? then " " + SubNegotiationToString(option, subn.value) + "IAC SE" else "")
  }

  /** The printed form starts with IAC and the command; a subnegotiation's
    * ends with its payload's closing space and IAC SE. */
  lemma TelnetToStringShape(code: TelnetCodes.TelnetCode)
    ensures var head := "IAC " + CommandToString(TelnetCodes.QueryCommand(code));
      |head| <= |TelnetToString(code)| && TelnetToString(code)[..|head|] == head
    ensures code.SubNegotiation? ==> var r := TelnetToString(code); |r| >= 7 && r[|r| - 7..] == " IAC SE"
  {
    var head := "IAC " + CommandToString(TelnetCodes.QueryCommand(code));
    var option := TelnetCodes.QueryOption(code);
    var optionPart := if option != -1 then " " + OptionToString(option) else "";
    var subn := TelnetCodes.QuerySubNegotiation(code);
    var subnPart := if subn.Some? then " " + SubNegotiationToString(option, subn.value) + "IAC SE" else "";
    assert TelnetToString(code) == head + optionPart + subnPart;
    PrefixOf(head, optionPart + subnPart);
    if code.SubNegotiation? {
      ClosingOf(head + optionPart, SubNegotiationToString(option, code.data));
    }
  }

  lemma PrefixOf(a: string, b: string)
    ensures (a + b)[..|a|] == a
  {
  }

  lemma ClosingOf(a: string, s: string)
    requires |s| >= 1 && s[|s| - 1] == ' '
    ensures var r := a + (" " + s + "IAC SE"); |r| >= 7 && r[|r| - 7..] == " IAC SE"
  {
    var r := a + (" " + s + "IAC SE");
    assert r[|r| - 7..] == [s[|s| - 1]] + "IAC SE";
  }

  /** How a subnegotiation with an option prints: SB, the option, the payload, IAC SE. */
  lemma SubNegotiationPrinted(option: int, data: seq<int>)
    requires option != -1
    ensures TelnetToString(TelnetCodes.SubNegotiation(option, data))
      == "IAC SB " + OptionToString(option) + " " + SubNegotiationToString(option, data) + "IAC SE"
  {
    var o, s := OptionToString(option), SubNegotiationToString(option, data);
    assert CommandToString(TelnetCodes.SB) == "SB";
    assert TelnetToString(TelnetCodes.SubNegotiation(option, data)) == "IAC " + "SB" + (" " + o) + (" " + s + "IAC SE");
    Regroup(o, s);
  }

  lemma Regroup(o: string, s: string)
    ensures "IAC " + "SB" + (" " + o) + (" " + s + "IAC SE") == "IAC SB " + o + " " + s + "IAC SE"
  {
    assert "IAC " + "SB" + " " == "IAC SB ";
  }

  /** The printed form of the single and negotiation codes the printing test uses. */
  lemma PrintingShortCodes()
    ensures TelnetToString(TelnetCodes.Single(TelnetCodes.AYT)) == "IAC AYT"
    ensures TelnetToString(TelnetCodes.Support(TelnetCodes.WILL, 86)) == "IAC WILL COMPRESS"
    ensures TelnetToString(TelnetCodes.Support(TelnetCodes.DONT, 93)) == "IAC DONT ZMP"
  {
    assert CommandToString(TelnetCodes.AYT) == "AYT";
    assert CommandToString(TelnetCodes.WILL) == "WILL";
    assert CommandToString(TelnetCodes.DONT) == "DONT";
  }

  /** TTYPE IS "abc" prints the string quoted. */
  lemma PrintingTType()
    ensures TelnetToString(TelnetCodes.SubNegotiation(24, [0, 97, 98, 99])) == "IAC SB TTYPE IS \"abc\" IAC SE"
  {
    assert StringToBytes("abc") == [97, 98, 99];
    assert TTypeReply("abc") == TelnetCodes.SubNegotiation(24, [0, 97, 98, 99]);
    TTypeAnswerPrinted("abc");
    AbcQuoted();
  }

  lemma AbcQuoted()
    ensures "IAC SB TTYPE IS \"" + "abc" + "\" IAC SE" == "IAC SB TTYPE IS \"abc\" IAC SE"
  {
  }

  /** An unknown option's payload prints as numbers. */
  lemma PrintingNumbers()
    ensures TelnetToString(TelnetCodes.SubNegotiation(25, [0, 97, 98, 99])) == "IAC SB 25 IS 97 98 99 IAC SE"
  {
    var p := SubNegotiationToString(25, [0, 97, 98, 99]);
    NumbersPrinted();
    assert [0, 97, 98, 99][1..] == [97, 98, 99];
    assert p == "IS " + "97 98 99 ";
    assert p == "IS 97 98 99 ";
    assert OptionToString(25) == "25";
    SubNegotiationPrinted(25, [0, 97, 98, 99]);
    NumbersLine();
  }

  lemma NumbersLine()
    ensures "IAC SB " + "25" + " " + "IS 97 98 99 " + "IAC SE" == "IAC SB 25 IS 97 98 99 IAC SE"
  {
    assert "IAC SB " + "25" == "IAC SB 25";
    assert "IAC SB 25" + " " == "IAC SB 25 ";
    assert "IAC SB 25 " + "IS 97 98 99 " == "IAC SB 25 IS 97 98 99 ";
  }

  lemma NumbersPrinted()
    ensures Numbers([97, 98, 99]) == "97 98 99 "
  {
    assert [97, 98, 99][1..] == [98, 99] && [98, 99][1..] == [99] && [99][1..] == [];
    assert Numbers([99]) == "99 ";
    assert Numbers([98, 99]) == "98 " + "99 ";
    assert Numbers([97, 98, 99]) == "97 " + "98 99 ";
  }

  /** ZMP IS prints each zero-separated string quoted. */
  lemma PrintingZmp()
    ensures TelnetToString(TelnetCodes.SubNegotiation(93, [0, 97, 98, 99, 0, 120, 121, 0]))
      == "IAC SB ZMP IS \"abc\" \"xy\" IAC SE"
  {
    assert StringToBytes("abc") == [97, 98, 99] && StringToBytes("xy") == [120, 121];
    assert [TELQUAL_IS] + [97, 98, 99] + [0] + [120, 121] + [0] == [0, 97, 98, 99, 0, 120, 121, 0];
    ZmpTwoStrings("abc", "xy");
    AbcXyQuoted();
  }

  lemma AbcXyQuoted()
    ensures "IAC SB ZMP IS \"" + "abc" + "\" \"" + "xy" + "\" IAC SE" == "IAC SB ZMP IS \"abc\" \"xy\" IAC SE"
  {
  }

  /** Two zero-terminated names after ZMP IS print as two quoted strings. */
  lemma ZmpTwoStrings(a: string, b: string)
    requires IsAscii(a) && a != [] && '\0' !in a
    requires IsAscii(b) && b != [] && '\0' !in b
    ensures TelnetToString(TelnetCodes.SubNegotiation(TELOPT_ZMP, [TELQUAL_IS] + StringToBytes(a) + [0] + StringToBytes(b) + [0]))
      == "IAC SB ZMP IS \"" + a + "\" \"" + b + "\" IAC SE"
  {
    var data := [TELQUAL_IS] + StringToBytes(a) + [0] + StringToBytes(b) + [0];
    ZmpPayload(a, b);
    SubNegotiationPrinted(TELOPT_ZMP, data);
    assert OptionToString(TELOPT_ZMP) == "ZMP";
    ZmpRegroup(a, b);
  }

  /** The payload of two zero-terminated names after ZMP IS. */
  lemma ZmpPayload(a: string, b: string)
    requires IsAscii(a) && a != [] && '\0' !in a
    requires IsAscii(b) && b != [] && '\0' !in b
    ensures SubNegotiationToString(TELOPT_ZMP, [TELQUAL_IS] + StringToBytes(a) + [0] + StringToBytes(b) + [0])
      == "IS " + ("\"" + a + "\" " + ("\"" + b + "\" " + ""))
  {
    var x, y := StringToBytes(a), StringToBytes(b);
    var data := [TELQUAL_IS] + x + [0] + y + [0];
    ZmpStrings(a, b, x, y, data);
    IsStringsPrinted(TELOPT_ZMP, data);
    StringBytesRoundTrip(a);
    StringBytesRoundTrip(b);
    QuotedPair(x, y);
  }

  /** The bytes of two zero-terminated names split back into the two names. */
  lemma ZmpStrings(a: string, b: string, x: seq<int>, y: seq<int>, data: seq<int>)
    requires IsAscii(a) && a != [] && '\0' !in a && x == StringToBytes(a)
    requires IsAscii(b) && b != [] && '\0' !in b && y == StringToBytes(b)
    requires data == [TELQUAL_IS] + x + [0] + y + [0]
    ensures data != [] && data[0] == TELQUAL_IS && MakeStrings(data[1..]) == [x, y]
  {
    var j := x + [0] + y;
    assert data[1..] == j + [0];
    ZmpJoined(a, b, x, y, j);
  }

  lemma ZmpJoined(a: string, b: string, x: seq<int>, y: seq<int>, j: seq<int>)
    requires IsAscii(a) && a != [] && '\0' !in a && x == StringToBytes(a)
    requires IsAscii(b) && b != [] && '\0' !in b && y == StringToBytes(b)
    requires j == x + [0] + y
    ensures MakeStrings(j + [0]) == [x, y]
  {
    StringBytesRoundTrip(a);
    StringBytesRoundTrip(b);
    assert JoinWithZeros([x, y]) == j by {
      assert [x, y][1..] == [y];
    }
    MakeStringsTrailingZero(j);
    MakeStringsOfJoined([x, y]);
  }

  /** An IS payload of TTYPE or ZMP prints as IS and its quoted strings. */
  lemma IsStringsPrinted(option: int, data: seq<int>)
    requires (option == TELOPT_TTYPE || option == TELOPT_ZMP) && data != [] && data[0] == TELQUAL_IS
    ensures SubNegotiationToString(option, data) == "IS " + QuotedStrings(MakeStrings(data[1..]))
  {
  }

  lemma QuotedPair(p: seq<int>, q: seq<int>)
    ensures QuotedStrings([p, q]) == "\"" + BytesToString(p) + "\" " + ("\"" + BytesToString(q) + "\" " + "")
  {
    assert [p, q][1..] == [q];
    assert [q][1..] == [];
    assert QuotedStrings([q]) == "\"" + BytesToString(q) + "\" " + "";
  }

  lemma ZmpRegroup(a: string, b: string)
    ensures "IAC SB " + "ZMP" + " " + ("IS " + ("\"" + a + "\" " + ("\"" + b + "\" " + ""))) + "IAC SE"
      == "IAC SB ZMP IS \"" + a + "\" \"" + b + "\" IAC SE"
  {
  }

  /** A trailing zero adds no piece. */
  lemma {:induction false} MakeStringsTrailingZero(code: seq<int>)
    ensures MakeStrings(code + [0]) == MakeStrings(code)
    decreases |code|
  {
    if code == [] {
      assert [0][1..] == [];
    } else if code[0] == 0 {
      assert (code + [0])[1..] == code[1..] + [0];
      MakeStringsTrailingZero(code[1..]);
    } else {
      var n := NonZeroRun(code);
      NonZeroRunOf(code[..n], code[n..] + [0]);
      assert code[..n] + (code[n..] + [0]) == code + [0];
      assert (code + [0])[..n] == code[..n] && (code + [0])[n..] == code[n..] + [0];
      MakeStringsTrailingZero(code[n..]);
    }
  }

  // ================================================================ the reply policy

  /** sendTTypeRequest's choice: the terminal type to send now and the one to
    * remember. The types go in order of preference; the last is repeated once
    * and then the cycle starts over. */
  function TTypeStep(last: Option<string>): (r: (string, Option<string>))
  {
    var sendNow := if last.None? then "xterm16m" else if last == Some("xterm16m") then "xterm256" else "ansi";
    (sendNow, if last.None? || last.value != sendNow then Some(sendNow) else None)
  }

  /** The answer to TTYPE SEND: TTYPE IS and the name's bytes. */
  function TTypeReply(name: string): (r: TelnetCodes.TelnetCode)
    ensures r.SubNegotiation? && r.option == TELOPT_TTYPE && r.data == [TELQUAL_IS] + StringToBytes(name)
  {
    TelnetCodes.SubNegotiation(TELOPT_TTYPE, [TELQUAL_IS] + StringToBytes(name))
  }

  /** The terminal types sent by successive requests: xterm16m, xterm256,
    * ansi, ansi, and then xterm16m again. */
  lemma TTypeCycle()
    ensures TTypeStep(None) == ("xterm16m", Some("xterm16m"))
    ensures TTypeStep(Some("xterm16m")) == ("xterm256", Some("xterm256"))
    ensures TTypeStep(Some("xterm256")) == ("ansi", Some("ansi"))
    ensures TTypeStep(Some("ansi")) == ("ansi", None)
  {
    assert "xterm256" != "xterm16m" by {
      assert "xterm256"[5] != "xterm16m"[5];
    }
    assert "ansi" != "xterm256" && "ansi" != "xterm16m" by {
      assert "ansi"[0] != 'x';
    }
  }

  /** What the handler remembers: no terminal type, or one of the three. */
  predicate ValidLast(last: Option<string>)
  {
    last == None || last == Some("xterm16m") || last == Some("xterm256") || last == Some("ansi")
  }

  /** Every fourth request starts the cycle over, wherever it is. */
  lemma TTypeCycleRepeats(last: Option<string>)
    requires ValidLast(last)
    ensures ValidLast(TTypeStep(last).1)
    ensures TTypeStep(TTypeStep(TTypeStep(TTypeStep(last).1).1).1).1 == last
  {
    TTypeCycle();
  }

  /** The answer to a TTYPE SEND request prints as the TTYPE loop test expects. */
  lemma TTypeAnswerPrinted(name: string)
    requires IsAscii(name) && name != [] && '\0' !in name
    ensures TelnetToString(TTypeReply(name)) == "IAC SB TTYPE IS \"" + name + "\" IAC SE"
  {
    QuotedName(name);
    SubNegotiationPrinted(TELOPT_TTYPE, [TELQUAL_IS] + StringToBytes(name));
    assert OptionToString(TELOPT_TTYPE) == "TTYPE";
    QuotedRegroup(name);
  }

  lemma QuotedRegroup(name: string)
    ensures "IAC SB " + "TTYPE" + " " + ("IS \"" + name + "\" ") + "IAC SE" == "IAC SB TTYPE IS \"" + name + "\" IAC SE"
  {
  }

  /** A name without zero bytes is printed back quoted. */
  lemma QuotedName(name: string)
    requires IsAscii(name) && name != [] && '\0' !in name
    ensures SubNegotiationToString(TELOPT_TTYPE, [TELQUAL_IS] + StringToBytes(name)) == "IS \"" + name + "\" "
  {
    var bs := StringToBytes(name);
    StringBytesRoundTrip(name);
    MakeStringsOfJoined([bs]);
    assert JoinWithZeros([bs]) == bs;
    assert ([TELQUAL_IS] + bs)[1..] == bs;
    IsStringsPrinted(TELOPT_TTYPE, [TELQUAL_IS] + bs);
    OneQuotedString(bs, name);
    QuotedPrefix(name);
  }

  lemma OneQuotedString(bs: seq<int>, name: string)
    requires BytesToString(bs) == name
    ensures QuotedStrings([bs]) == "\"" + name + "\" "
  {
    assert QuotedStrings([bs]) == "\"" + name + "\" " + QuotedStrings([]);
  }

  lemma QuotedPrefix(name: string)
    ensures "IS " + ("\"" + name + "\" ") == "IS \"" + name + "\" "
  {
  }

  /** The reaction to one received code: the codes sent, in order, and the
    * terminal type remembered afterwards. */
  datatype Reaction = Reaction(last: Option<string>, replies: seq<TelnetCodes.TelnetCode>)

  /** eventOccurred, on values: DO TTYPE is accepted and TTYPE SEND answered;
    * of the rest, WILL and WONT get DONT and DO gets WONT, and nothing else
    * gets a reply. */
  function React(last: Option<string>, code: TelnetCodes.TelnetCode): (r: Reaction)
  {
    var command := TelnetCodes.QueryCommand(code);
    var option := TelnetCodes.QueryOption(code);
    var subn := TelnetCodes.QuerySubNegotiation(code);
    if option == TELOPT_TTYPE && command == TelnetCodes.DO then
      Reaction(last, [TelnetCodes.Support(TelnetCodes.WILL, TELOPT_TTYPE)])
    else if option == TELOPT_TTYPE && command == TelnetCodes.SB && subn.Some? && subn.value == [TELQUAL_SEND] then
      var (sendNow, next) := TTypeStep(last);
      Reaction(next, [TTypeReply(sendNow)])
    else if command == TelnetCodes.WILL || command == TelnetCodes.WONT then
      Reaction(last, [TelnetCodes.Support(TelnetCodes.DONT, option)])
    else if command == TelnetCodes.DO then
      Reaction(last, [TelnetCodes.Support(TelnetCodes.WONT, option)])
    else
      Reaction(last, [])
  }

  /** The refusal policy: at most one reply, always a well-formed code; only
    * TTYPE SEND changes what is remembered; an offer (WILL) or a refusal (WONT)
    * of an option is answered with DONT, a request (DO) with WONT unless it is
    * for TTYPE, and every other command without TTYPE goes unanswered. */
  lemma RefusalPolicy(last: Option<string>, code: TelnetCodes.TelnetCode)
    requires TelnetCodes.ValidCode(code)
    ensures |React(last, code).replies| <= 1
    ensures forall c :: c in React(last, code).replies ==> TelnetCodes.ValidCode(c)
    ensures React(last, code).last != last ==> code.SubNegotiation? && code.option == TELOPT_TTYPE
    ensures code.Support? && (code.command == TelnetCodes.WILL || code.command == TelnetCodes.WONT)
      ==> React(last, code).replies == [TelnetCodes.Support(TelnetCodes.DONT, code.option)]
    ensures code.Support? && code.command == TelnetCodes.DO
      ==> React(last, code).replies
          == [if code.option == TELOPT_TTYPE then TelnetCodes.Support(TelnetCodes.WILL, TELOPT_TTYPE)
              else TelnetCodes.Support(TelnetCodes.WONT, code.option)]
    ensures code.Support? && code.command == TelnetCodes.DONT ==> React(last, code).replies == []
    ensures code.Single? && !TelnetCodes.IsNegotiation(code.command) ==> React(last, code).replies == []
    ensures code.SubNegotiation? && !(code.option == TELOPT_TTYPE && code.data == [TELQUAL_SEND])
      ==> React(last, code) == Reaction(last, [])
  {
  }

  /** A TTYPE SEND request is answered with the next terminal type. */
  lemma TTypeRequestAnswered(last: Option<string>)
    ensures React(last, TelnetCodes.SubNegotiation(TELOPT_TTYPE, [TELQUAL_SEND]))
      == Reaction(TTypeStep(last).1, [TTypeReply(TTypeStep(last).0)])
  {
  }

  /** The information text posted for a code received or sent. */
  function InfoText(kind: string, code: TelnetCodes.TelnetCode): string
  {
    "[" + kind + " telnet: " + TelnetToString(code) + "]"
  }

  /** The texts posted for the codes sent, in order. */
  function SentTexts(codes: seq<TelnetCodes.TelnetCode>): seq<string>
  {
    if codes == [] then [] else [InfoText("Sent", codes[0])] + SentTexts(codes[1..])
  }

  class TelnetHandler {
    var lastTtype: Option<string>
    /** The codes handed to the sender, in order. */
    var sent: seq<TelnetCodes.TelnetCode>
    /** The texts of the information events posted, in order. */
    var info: seq<string>

    constructor ()
      ensures lastTtype == None && sent == [] && info == []
    {
      lastTtype, sent, info := None, [], [];
    }

    /** sendEvent. */
    method SendEvent(kind: string, code: TelnetCodes.TelnetCode)
      modifies this`info
      ensures info == old(info) + [InfoText(kind, code)]
    {
      info := info + ["[" + kind + " telnet: " + TelnetToString(code) + "]"];
    }

    /** send: the code goes to the sender, then its text is posted. */
    method Send(code: TelnetCodes.TelnetCode)
      modifies this`sent, this`info
      ensures sent == old(sent) + [code] && info == old(info) + SentTexts([code])
    {
      sent := sent + [code];
      SendEvent("Sent", code);
    }

    /** sendTTypeRequest. */
    method SendTTypeRequest()
      modifies this
      ensures (lastTtype, sent) == (TTypeStep(old(lastTtype)).1, old(sent) + [TTypeReply(TTypeStep(old(lastTtype)).0)])
      ensures info == old(info) + SentTexts([TTypeReply(TTypeStep(old(lastTtype)).0)])
    {
      var sendNow: string;
      if lastTtype == None {
        sendNow := "xterm16m";
      } else if lastTtype.value == "xterm16m" {
        sendNow := "xterm256";
      } else {
        sendNow := "ansi";
      }
      if lastTtype == None || lastTtype.value != sendNow {
        lastTtype := Some(sendNow);
      } else {
        lastTtype := None;
      }
      var arr := [TELQUAL_IS] + StringToBytes(sendNow);
      Send(TelnetCodes.NewSubNegotiation(TELOPT_TTYPE, arr));
    }

    /** handleTType: whether the code was a TTYPE request handled here. */
    method HandleTType(command: int, subn: Option<seq<int>>) returns (handled: bool)
      modifies this
      ensures !handled ==> lastTtype == old(lastTtype) && sent == old(sent) && info == old(info)
      ensures handled <==> command == TelnetCodes.DO || (command == TelnetCodes.SB && subn == Some([TELQUAL_SEND]))
      ensures command == TelnetCodes.DO ==>
        lastTtype == old(lastTtype) && sent == old(sent) + [TelnetCodes.Support(TelnetCodes.WILL, TELOPT_TTYPE)]
        && info == old(info) + SentTexts([TelnetCodes.Support(TelnetCodes.WILL, TELOPT_TTYPE)])
      ensures command != TelnetCodes.DO && handled ==>
        (lastTtype, sent) == (TTypeStep(old(lastTtype)).1, old(sent) + [TTypeReply(TTypeStep(old(lastTtype)).0)])
        && info == old(info) + SentTexts([TTypeReply(TTypeStep(old(lastTtype)).0)])
    {
      if command == TelnetCodes.DO {
        Send(TelnetCodes.Support(TelnetCodes.WILL, TELOPT_TTYPE));
        return true;
      }
      if command == TelnetCodes.SB && subn.Some? && |subn.value| == 1 && subn.value[0] == TELQUAL_SEND {
        assert subn.value == [TELQUAL_SEND];
        SendTTypeRequest();
        return true;
      }
      return false;
    }

    /** handleSupportedCommand: only TTYPE is supported. */
    method HandleSupportedCommand(command: int, option: int, subn: Option<seq<int>>) returns (handled: bool)
      modifies this
      ensures !handled ==> lastTtype == old(lastTtype) && sent == old(sent) && info == old(info)
      ensures handled <==>
        option == TELOPT_TTYPE && (command == TelnetCodes.DO || (command == TelnetCodes.SB && subn == Some([TELQUAL_SEND])))
      ensures handled && command == TelnetCodes.DO ==>
        lastTtype == old(lastTtype) && sent == old(sent) + [TelnetCodes.Support(TelnetCodes.WILL, TELOPT_TTYPE)]
        && info == old(info) + SentTexts([TelnetCodes.Support(TelnetCodes.WILL, TELOPT_TTYPE)])
      ensures handled && command != TelnetCodes.DO ==>
        (lastTtype, sent) == (TTypeStep(old(lastTtype)).1, old(sent) + [TTypeReply(TTypeStep(old(lastTtype)).0)])
        && info == old(info) + SentTexts([TTypeReply(TTypeStep(old(lastTtype)).0)])
    {
      if option == TELOPT_TTYPE {
        handled := HandleTType(command, subn);
      } else {
        handled := false;
      }
    }

    /** eventOccurred: the received code is posted, then answered as React says. */
    method EventOccurred(code: TelnetCodes.TelnetCode)
      modifies this
      ensures lastTtype == React(old(lastTtype), code).last
      ensures sent == old(sent) + React(old(lastTtype), code).replies
      ensures info == old(info) + [InfoText("Received", code)] + SentTexts(React(old(lastTtype), code).replies)
    {
      SendEvent("Received", code);
      var command := TelnetCodes.QueryCommand(code);
      var option := TelnetCodes.QueryOption(code);
      var handled := HandleSupportedCommand(command, option, TelnetCodes.QuerySubNegotiation(code));
      if handled {
        return;
      }
      if command == TelnetCodes.WILL {
        Send(TelnetCodes.Support(TelnetCodes.DONT, option));
      }
      if command == TelnetCodes.WONT {
        Send(TelnetCodes.Support(TelnetCodes.DONT, option));
      }
      if command == TelnetCodes.DO {
        Send(TelnetCodes.Support(TelnetCodes.WONT, option));
      }
    }
  }
}
