# Turtle decoding core in Dafny

This project models the decoding layer of the Turtle MUD client and proves
properties of that model. The layer has two halves and two utilities.

- **Telnet.** The incoming byte stream is separated into text and telnet commands (RFC 854; subnegotiation
  as in RFC 855). The three command shapes `IAC X`, `IAC WILL|WONT|DO|DONT opt` and
  `IAC SB opt … [IAC] SE` each have a decoder; the first two also have an
  encoder, and the subnegotiation encoder, which the source calls but never
  defines, is modelled from its test. A handler prints
  codes, refuses options it does not support and answers terminal-type
  requests (RFC 1091).
- **ANSI styles.** Text from the MUD is cut into plain text and escape
  sequences. Each SGR sequence (ECMA-48 section 8.3.117, with the xterm
  256-colour and 24-bit extensions) is folded into a character layout: two
  colours and a set of attribute bits. Styled runs go into a builder that
  merges equal styles.
- **Input.** The input window keeps a history ring buffer with a browse
  cursor. The command parser splits lines into words and at `;;`, and
  dispatches `#` commands such as `#scroll`.

Modules, one per source component:

| module | file | models |
|---|---|---|
| `Wrappers` | wrappers.dfy | `Option` and `Result` (Java's `null`, and an `Error` thrown with a message) |
| `JavaText` | java_text.dfy | the bits of `java.lang` text handling used: `Integer.toString`/`parseInt`, `String.split` on one character, `toLowerCase` on ASCII, `indexOf` |
| `Colours` | colours.dfy | `AnsiColour`, `XTermColour`, `DefaultColour`, `RGBAColour` |
| `AttributeGroups` | attribute_group.dfy | `AttributeGroup` |
| `LayoutCreator` | layout_creator.dfy | `LayoutCreator` |
| `LayoutedTexts` | layouted_text.dfy | `PartitionedLayoutedText` (a class), `ColourString` |
| `AnsiCodes` | ansi_code_reader.dfy | `AnsiCodeReader`: the field reducers, `adaptWithAnsi`, the splitter and `parse` (a class) |
| `TelnetCodes` | telnet_codes.dfy | `TelnetCode` and its three implementations |
| `Utf8` | utf8.dfy | the UTF-8 decoding `InputStreamReader` does, as a longest-complete-prefix decoder |
| `ByteStreams` | byte_streams.dfy | signed bytes, and the copy loop both telnet streams share |
| `TelnetInputStreams` | telnet_input_stream.dfy | `TelnetInputStream` (a class over two byte arrays with cursors) |
| `TelnetStreams` | telnet_stream.dfy | the older `TelnetStream` (a class) |
| `TelnetHandlers` | telnet_handler.dfy | `TelnetHandler`: printing, the reply policy and the TTYPE cycle (a class) |
| `InputHistories` | input_history.dfy | `InputHistory` (a class over an array ring buffer) |
| `InputWindows` | input_window.dfy | `InputWindow` (a class) |
| `CommandParsers` | command_parser.dfy | `word`, `wordsFrom`, `queryCommand` |
| `ScrollCommands` | scroll_command.dfy | `ScrollCommand.parse` |
| `CommandParsingHandlers` | command_parsing_handler.dfy | `execute`, `parseSingleCommand`, `eventOccurred` |

The stateful classes are modelled as Dafny classes whose fields are the Java
ones. Each method's `ensures` ties the new state to a function of the old
state, and the properties are proved about those functions. For example,
`TelnetInputStream.ProbeAvailableContent` ensures
`Probe(status, State()) == ProbeSpec(old(State()), incoming)`, and the
lemmas about `ProbeSpec` state what a probe does.

What a call receives from outside is passed as a parameter:

- what the socket delivers on one read (`ReadOutcome`: bytes, a timeout or the end of the stream);
- the text in the Swing text field.

What is sent out is appended to a sequence field:

- telnet codes sent;
- information events posted;
- commands and warnings posted on the event bus.

Three places where the code does something other than its comments or the
rest of the code suggest are modelled as the code does it:

- `handleAnsiCommand` tests `"5"` where `"2"` is meant in its last branch
  (styles/AnsiCodeReader.java:236). So `48;2;R;G;B` is approved by
  `nextAnsiCode` but changes nothing. `AnsiCodes.HandleAnsiCommand` has that
  branch as dead code (`assert false`).
- `22` clears DIM and unbrightens the foreground but leaves BOLD set
  (styles/AnsiCodeReader.java:79 deletes the attribute of the digit, DIM,
  although the comment at lines 65-67 says both are turned off).
  `AnsiCodes.DeleteDimEffect` states exactly that.
- `TelnetStream`'s internal byte stream adds 255 instead of 256 to a negative
  byte (connection/TelnetStream.java:62). So every byte above 127 reaches the
  UTF-8 reader one smaller. `TelnetStreams.ReaderByte` models it and
  `TelnetStreams.NonAsciiChanges` shows the effect on `é`.

Where the source and its own description disagree, the model follows the
code:

- `queryOption` of a single command is -1, as coded, not 0 as the
  interface comment says.
- The subnegotiation decoder's indexing is the exception: the tests expect
  the option at index 2. See "Findings". `TelnetInputStream` and the handler
  behind it use the corrected decoder; "Left out" says what that changes.

Three references in the source point at code that is not there:

- `CommandParsingHandler` calls `ConnectCommand.parse`, which
  commands/ConnectCommand.java does not define. `#connect` lines become a
  `ConnectRequest` command carrying the text.
- `eventOccurred` tests for the event kind `USERINPUT`, which the `EventKind`
  enumeration in interfaces/TurtleEvent.java does not have. The model uses
  its own event type with a user-input case.
- `TelnetOutputStream` and the tests call `queryCompleteCode` on a
  subnegotiation, yet neither connection/telnet/SubNegotiationTelnetCommand.java
  nor the `TelnetCode` interface in interfaces/immutable/TelnetCode.java
  declares it. The model's encoder writes `IAC SB opt`, the data and
  `IAC SE`, the bytes the test expects.

## Model

| member | source | states |
|---|---|---|
| Colours.NewAnsi | src/main/java/styles/AnsiColour.java:58-61 | an ANSI colour is created exactly for codes 0..15, and then has that code; other codes are an error |
| Colours.AnsiBrightAsWrittenEscapes | src/main/java/styles/AnsiColour.java:63-66 | the two-argument constructor as written accepts code 8 with `bright` and yields code 16, which is no valid colour |
| Colours.NewAnsiBright | src/main/java/styles/AnsiColour.java:63-66 | corrected: succeeds exactly when the code is not negative and code + 8·bright is below 16, and then yields a valid colour with code + 8·bright |
| Colours.NewXTerm | src/main/java/styles/XTermColour.java:30-38 | an xterm colour is created exactly for indexes 0..255, and then has that index |
| Colours.XTermCubeColour | src/main/java/styles/XTermColour.java:41-58 | a cube point r,g,b in 0..5 gets index 16+36r+6g+b in 16..231, and that index's RGB value has channels 0 or 55+40·digit for r, g and b |
| Colours.XTermCubeErrors | src/main/java/styles/XTermColour.java:42-43 | the cube constructor fails exactly when some of r, g, b lies outside 0..5 |
| Colours.XTermRgb | src/main/java/styles/XTermColour.java:48-63 | the channels computed for indexes 16..255 all lie in 0..255 |
| Colours.XTermGreys | src/main/java/styles/XTermColour.java:60-63 | index n in 232..255 is the grey 8+10(n-232), between 8 and 238 |
| Colours.XTermNameShape | src/main/java/styles/XTermColour.java:74-80 | the name of index n is `x` and three decimal digits whose value is n |
| Colours.NewRGBA | src/main/java/styles/RGBAColour.java:37-39 | an RGB colour is created exactly when all three channels lie in 0..255 |
| Colours.DefaultCodes | src/main/java/styles/DefaultColour.java:45-47 | the default colour's code is in 0..3, odd exactly for the foreground, at least 2 exactly when bright |
| Colours.BrightnessKeepsValidity | src/main/java/styles/XTermColour.java:82-90 | brightening and unbrightening a valid colour give valid colours |
| Colours.BrightnessIdempotent | src/main/java/styles/AnsiColour.java:83-91 | brightening twice is brightening once; so for unbrightening |
| Colours.BrightnessAbsorbs | src/main/java/styles/DefaultColour.java:63-69 | unbrighten after brighten is unbrighten, and brighten after unbrighten is brighten |
| Colours.BrightenChanges | src/main/java/styles/RGBAColour.java:60-66 | brightening changes a colour exactly for ANSI codes below 8, xterm indexes below 8 and the two non-bright default colours; RGB colours never change |
| Colours.HexifyDigits | src/main/java/styles/RGBAColour.java:50-54 | a channel is printed as exactly two lower-case hex digits, high then low |
| Colours.HexNameShape | src/main/java/styles/RGBAColour.java:56-58 | an RGB colour's name is six hex digits whose pairs are the red, green and blue channels |
| Colours.ColourFromNameOfColourName | src/main/java/styles/AnsiColour.java:77-81 | every valid colour is read back from its name: colourName has an inverse |
| Colours.ColourNameInjective | src/main/java/styles/DefaultColour.java:58-61 | two valid colours with the same name are equal |
| AttributeGroups.Plain | src/main/java/styles/AttributeGroup.java:47-51 | the default layout is valid, has the default back and front colours, and carries no attribute |
| AttributeGroups.CopyKeepsKnownAttributes | src/main/java/styles/AttributeGroup.java:84-96 | the copy constructor keeps both colours and exactly the eight known attribute bits, so a valid layout is copied to an equal one |
| AttributeGroups.ReplaceBackgroundColour | src/main/java/styles/AttributeGroup.java:139-141 | only the background changes |
| AttributeGroups.ReplaceForegroundColour | src/main/java/styles/AttributeGroup.java:147-149 | only the foreground changes |
| AttributeGroups.AddAttributeEffect | src/main/java/styles/AttributeGroup.java:123-125 | after adding attribute a, attribute b is set iff b is a or was set before |
| AttributeGroups.OtherBitsKept | src/main/java/styles/AttributeGroup.java:123-125 | or-ing in bits a leaves every bit b that a does not share exactly as it was |
| AttributeGroups.DelAttributeEffect | src/main/java/styles/AttributeGroup.java:131-133 | after deleting attribute a with the mask 511-a, attribute b is set iff b is not a and was set before |
| AttributeGroups.AddKeepsValidity | src/main/java/styles/AttributeGroup.java:123-125 | adding known attribute bits keeps a layout valid |
| AttributeGroups.DelKeepsValidity | src/main/java/styles/AttributeGroup.java:131-133 | deleting any attribute keeps a layout valid |
| AttributeGroups.NormalChangesNothing | src/main/java/styles/AttributeGroup.java:32 | adding or deleting ATT_NORMAL leaves a valid layout unchanged |
| AttributeGroups.DelUndoesAdd | src/main/java/styles/AttributeGroup.java:123-133 | deleting an attribute after adding it is the same as only deleting it |
| AttributeGroups.QueriesDetermineLayout | src/main/java/styles/AttributeGroup.java:185-194 | two valid layouts with the same colours and the same answer to all eight queries are equal, which is what equals compares |
| LayoutCreator.GetBasicColour | src/main/java/styles/LayoutCreator.java:28-30 | the colour for basic code 0..7 is the ANSI colour of that code, plus 8 when bright, and getAnsiColour succeeds with it |
| LayoutCreator.NamedGetters | src/main/java/styles/LayoutCreator.java:41-88 | getBlack .. getWhite give the ANSI codes 0..7 (plus 8 when bright) and are named black .. brightwhite; getDefaultBack is the non-bright background |
| LayoutCreator.GetSimpleColourLayout | src/main/java/styles/LayoutCreator.java:94-98 | the layout has the default background and the given foreground, and BOLD is its only possible attribute, set iff bold |
| LayoutCreator.GetAnsiLayout | src/main/java/styles/LayoutCreator.java:104-107 | an ANSI layout exists exactly when the code is not negative and the bright code is below 16; it is valid, with foreground code + 8·bold, the default background, BOLD iff bold |
| LayoutCreator.GetForeBackLayout | src/main/java/styles/LayoutCreator.java:109-117 | a valid layout whose foreground is the default colour with the given side and brightness, the default background, BOLD iff bold and no other attribute |
| LayoutCreator.GetDefaultLayout | src/main/java/styles/LayoutCreator.java:119-121 | the default layout equals new AttributeGroup() |
| LayoutedTexts.AppendPart | src/main/java/styles/PartitionedLayoutedText.java:84-101 | append keeps one style per part |
| LayoutedTexts.AppendMergesCharacters | src/main/java/styles/PartitionedLayoutedText.java:89-92 | appending in the last part's style adds the text to that part: the characters are the old ones followed by the new text in its style |
| LayoutedTexts.AppendReplacesCharacters | src/main/java/styles/PartitionedLayoutedText.java:93-97 | replacing an empty last part in place adds exactly the new text in its style |
| LayoutedTexts.AppendPushesCharacters | src/main/java/styles/PartitionedLayoutedText.java:99-100 | pushing a new part adds exactly the new text in its style |
| LayoutedTexts.AppendPartCharacters | src/main/java/styles/PartitionedLayoutedText.java:84-101 | in every case the styled characters after append are the old ones followed by the new text, each character in the new layout |
| LayoutedTexts.AppendPartConcat | src/main/java/styles/PartitionedLayoutedText.java:140-146 | the full string after append is the old full string followed by the text |
| LayoutedTexts.AppendPartKeepsOnlyLastEmpty | src/main/java/styles/PartitionedLayoutedText.java:93-100 | append keeps every part but the last non-empty |
| LayoutedTexts.AppendPartKeepsMaximal | src/main/java/styles/PartitionedLayoutedText.java:84-101 | appending non-empty text keeps the parts non-empty with no two neighbours in the same style |
| LayoutedTexts.EmptyPartition | src/main/java/styles/PartitionedLayoutedText.java:149-153 | when only the last part may be empty, the full string is empty iff there are no parts or one empty part, which is what isEmpty tests |
| LayoutedTexts.CharactersSpellConcat | src/main/java/styles/PartitionedLayoutedText.java:140-146 | the styled characters spell out the full string |
| LayoutedTexts.PartitionedLayoutedText.constructor | src/main/java/styles/PartitionedLayoutedText.java:66-70 | a new text has no parts and is under construction |
| LayoutedTexts.PartitionedLayoutedText.CompleteConstruction | src/main/java/styles/PartitionedLayoutedText.java:76-78 | afterwards the text is no longer mutable |
| LayoutedTexts.PartitionedLayoutedText.Append | src/main/java/styles/PartitionedLayoutedText.java:84-101 | while under construction the parts become AppendPart of the old ones; afterwards the call fails and changes nothing |
| LayoutedTexts.PartitionedLayoutedText.NumParts | src/main/java/styles/PartitionedLayoutedText.java:108-112 | fails while under construction, else the number of parts |
| LayoutedTexts.PartitionedLayoutedText.GetStyle | src/main/java/styles/PartitionedLayoutedText.java:119-123 | fails while under construction or out of range, else that part's style |
| LayoutedTexts.PartitionedLayoutedText.GetPart | src/main/java/styles/PartitionedLayoutedText.java:130-134 | fails while under construction or out of range, else that part |
| LayoutedTexts.PartitionedLayoutedText.GetFullString | src/main/java/styles/PartitionedLayoutedText.java:140-146 | fails while under construction, else the parts joined in order |
| LayoutedTexts.PartitionedLayoutedText.IsEmpty | src/main/java/styles/PartitionedLayoutedText.java:149-153 | fails while under construction, else true iff the full string is empty |
| LayoutedTexts.ColourStringPart | src/main/java/styles/ColourString.java:56-59 | only part 0 exists, and it is the text |
| LayoutedTexts.ColourStringStyle | src/main/java/styles/ColourString.java:61-64 | only part 0 has a style, and it is the layout |
| LayoutedTexts.ColourStringAsPartition | src/main/java/styles/ColourString.java:52-72 | a colour string behaves as the one-part partition of its text: one part, the same full string and emptiness, every character in its layout |
| AnsiCodes.AttributeByChar | src/main/java/styles/AnsiCodeReader.java:43-53 | every character stands for one of the eight attributes or for ATT_NORMAL |
| AnsiCodes.ParseChannels | src/main/java/styles/AnsiCodeReader.java:134-140 | channels that parse and lie in 0..255 give a valid RGB colour |
| AnsiCodes.AnsiCodeParts | src/main/java/styles/AnsiCodeReader.java:170-175 | fields exist exactly for a sequence of at least three characters with `[` second and `m` last |
| AnsiCodes.NextAnsiCode | src/main/java/styles/AnsiCodeReader.java:185-208 | the next field starts after the current one and within the fields, or the field is unsupported (-1) |
| AnsiCodes.ResetField | src/main/java/styles/AnsiCodeReader.java:219-220 | field 0 takes one position and resets to the default layout |
| AnsiCodes.SetAttributeField | src/main/java/styles/AnsiCodeReader.java:56-63 | a one-character field sets its attribute and keeps every other attribute; field 1 also brightens the foreground |
| AnsiCodes.AddCommandKeepsValidity | src/main/java/styles/AnsiCodeReader.java:56-63 | a one-character attribute field keeps a valid layout valid, brightening included |
| AnsiCodes.ClearAttributeField | src/main/java/styles/AnsiCodeReader.java:69-80 | field 2X clears X's attribute, keeps the others (22 clears DIM only) and unbrightens the foreground for 21 and 22 |
| AnsiCodes.DeleteNormalEffect | src/main/java/styles/AnsiCodeReader.java:69-80 | field 20 (ATT_NORMAL) clears no attribute and keeps the foreground |
| AnsiCodes.DeleteOtherEffect | src/main/java/styles/AnsiCodeReader.java:69-80 | for an attribute other than DIM, exactly that attribute is cleared, and the foreground unbrightened exactly for BOLD |
| AnsiCodes.DeleteEffect | src/main/java/styles/AnsiCodeReader.java:69-80 | deleting the attribute of a digit clears that attribute and no other; the foreground is unbrightened exactly for BOLD and DIM |
| AnsiCodes.DeleteDimEffect | src/main/java/styles/AnsiCodeReader.java:71-79 | for DIM (field 22): DIM is cleared, the foreground unbrightened, and BOLD left as it was |
| AnsiCodes.ForegroundField | src/main/java/styles/AnsiCodeReader.java:83-90 | 3X and 9X set the foreground to ANSI colour X, bright for 9X or a bold layout; 39 and 99 give the default foreground; anything else keeps it |
| AnsiCodes.BackgroundField | src/main/java/styles/AnsiCodeReader.java:93-100 | 4X and 10X set the background to ANSI colour X, bright for 10X; 49 and 109 give the default background |
| AnsiCodes.XTermField | src/main/java/styles/AnsiCodeReader.java:103-129 | 38;5;N and 48;5;N take three positions and set the xterm colour N when N parses and lies in 0..255, brightened for a bold foreground; otherwise nothing changes |
| AnsiCodes.TrueColourField | src/main/java/styles/AnsiCodeReader.java:229-238 | 38;2;R;G;B takes five positions and sets the foreground to that RGB colour when the channels are valid; 48;2;R;G;B takes five positions and changes nothing |
| AnsiCodes.EmptyField | src/main/java/styles/AnsiCodeReader.java:187 | empty fields are skipped |
| AnsiCodes.UnsupportedFieldEndsSequence | src/main/java/styles/AnsiCodeReader.java:252-256 | an unsupported field ends the sequence: the result is that of the fields before it |
| AnsiCodes.HandleAnsiCommandKeepsValidity | src/main/java/styles/AnsiCodeReader.java:216-241 | every approved field keeps a layout valid |
| AnsiCodes.AdaptFromKeepsValidity | src/main/java/styles/AnsiCodeReader.java:250-258 | folding the fields from any position keeps a layout valid |
| AnsiCodes.AdaptKeepsValidity | src/main/java/styles/AnsiCodeReader.java:247-260 | adaptWithAnsi keeps a layout valid, and a sequence that is not ESC [ … m leaves a valid layout unchanged |
| AnsiCodes.AdaptWithAnsi | src/main/java/styles/AnsiCodeReader.java:247-260 | the loop computes the layout of the fields folded in order, stopping at the first unsupported one |
| AnsiCodes.AnsiEnd | src/main/java/styles/AnsiCodeReader.java:266-275 | the sequence ends after the ESC and within the text, or is unfinished (-1) |
| AnsiCodes.FindAnsiEnd | src/main/java/styles/AnsiCodeReader.java:266-275 | the loop finds the end the reference definition gives |
| AnsiCodes.ReadText | src/main/java/styles/AnsiCodeReader.java:300-305 | the text up to the next ESC is added, and the position returned is that ESC or the end |
| AnsiCodes.SplitSpellsText | src/main/java/styles/AnsiCodeReader.java:313-322 | the segments of a split followed by the kept tail spell the text |
| AnsiCodes.SegmentShapes | src/main/java/styles/AnsiCodeReader.java:266-275 | every segment is non-empty ESC-free text, a lone ESC before a character other than `[`, or ESC `[`, parameter characters and one final character |
| AnsiCodes.TailShape | src/main/java/styles/AnsiCodeReader.java:283-288 | the kept tail is empty, or an ESC or ESC `[` with parameter characters that runs to the end of the text |
| AnsiCodes.SplitCompose | src/main/java/styles/AnsiCodeReader.java:307-322 | splitting x, then the kept tail followed by y, gives the same characters and escape sequences, and the same tail, as splitting x + y |
| AnsiCodes.ApplyFromRun | src/main/java/styles/AnsiCodeReader.java:334-339 | the loop of parse styles the characters of the segments as the reference meaning says, character by character |
| AnsiCodes.ApplyFromKeepsMaximal | src/main/java/styles/AnsiCodeReader.java:336 | parse never adds an empty part, so its parts stay non-empty with no two neighbours in one style |
| AnsiCodes.ApplyFromKeepsValidity | src/main/java/styles/AnsiCodeReader.java:337 | the current layout stays valid |
| AnsiCodes.ParseMeaning | src/main/java/styles/AnsiCodeReader.java:331-342 | what parse yields for a text is the reference meaning of the kept tail followed by the text |
| AnsiCodes.ParseSplitInvariance | src/main/java/styles/AnsiCodeReader.java:324-330 | parsing a text in two calls styles every character as parsing it in one, and ends with the same layout and tail |
| AnsiCodes.AnsiCodeReader.constructor | src/main/java/styles/AnsiCodeReader.java:38-41 | no kept tail, the default layout |
| AnsiCodes.AnsiCodeReader.ReadAnsiSequence | src/main/java/styles/AnsiCodeReader.java:283-293 | a complete sequence is added and its end returned; an unfinished one is kept as the tail and the end of the text returned |
| AnsiCodes.AnsiCodeReader.SplitText | src/main/java/styles/AnsiCodeReader.java:313-322 | the result and the new tail are the split of the old tail followed by the text |
| AnsiCodes.AnsiCodeReader.Parse | src/main/java/styles/AnsiCodeReader.java:331-342 | the text returned is complete, and it, the new layout and the new tail are ParseSpec of the old layout, old tail and text |
| AnsiCodes.AnsiCodeReader.Render | src/main/java/styles/AnsiCodeReader.java:333-339 | the loop over the segments builds what ApplyFrom describes |
| TelnetCodes.QueryCommand | src/main/java/interfaces/immutable/TelnetCode.java:48-49 | X for a code IAC X …; SB for a subnegotiation |
| TelnetCodes.QueryOption | src/main/java/connection/telnet/SingleTelnetCommand.java:61 | -1 for a single command, the option otherwise |
| TelnetCodes.QuerySubNegotiation | src/main/java/connection/telnet/SubNegotiationTelnetCommand.java:74-80 | a payload exactly for subnegotiations, equal to the stored data |
| TelnetCodes.NewSupport | src/main/java/connection/telnet/SupportTelnetCommand.java:33-39 | created exactly for WILL, WONT, DO and DONT, with that command and option and no payload |
| TelnetCodes.NewSubNegotiation | src/main/java/connection/telnet/SubNegotiationTelnetCommand.java:33-37 | the data is copied faithfully and the command is SB |
| TelnetCodes.CompleteCode | src/test/java/TelnetCommandTest.java:197-214 | the bytes are IAC and the command, then the option for a negotiation, then for a subnegotiation the option, the data and IAC SE |
| TelnetCodes.ReadSingle | src/main/java/connection/telnet/SingleTelnetCommand.java:37-45 | a code is read exactly from a list of at least 2 whose second byte is not WILL, WONT, DO, DONT or SB, and it is that byte |
| TelnetCodes.ReadSupport | src/main/java/connection/telnet/SupportTelnetCommand.java:45-51 | a code is read exactly from a list of at least 3 whose second byte is a negotiation command, and it is (list[1], list[2]) |
| TelnetCodes.ReadSubNegotiationAsWritten | src/main/java/connection/telnet/SubNegotiationTelnetCommand.java:48-62 | as written, a code is read exactly from a list of at least 3 with SB second and SE last |
| TelnetCodes.ReadSubNegotiation | src/main/java/connection/telnet/SubNegotiationTelnetCommand.java:48-62 | corrected: read exactly from a list of at least 4 with SB second and SE last; the option is list[2] and the payload the bytes before (IAC) SE |
| TelnetCodes.SingleRoundTrip | src/main/java/connection/telnet/SingleTelnetCommand.java:37-66 | decoding a single command's bytes gives it back, and the other two decoders refuse them |
| TelnetCodes.SingleDecodeEncode | src/main/java/connection/telnet/SingleTelnetCommand.java:37-66 | a decoded single command re-encodes to the list it came from |
| TelnetCodes.SupportRoundTrip | src/main/java/connection/telnet/SupportTelnetCommand.java:45-59 | decoding a negotiation's bytes gives it back, and the other two decoders refuse them |
| TelnetCodes.SupportDecodeEncode | src/main/java/connection/telnet/SupportTelnetCommand.java:45-59 | a decoded negotiation re-encodes to the list it came from |
| TelnetCodes.SubNegotiationRoundTrip | src/main/java/connection/telnet/SubNegotiationTelnetCommand.java:48-62 | one-shot decoding of a subnegotiation's bytes gives it back |
| TelnetCodes.SubNegotiationIacOptional | src/main/java/connection/telnet/SubNegotiationTelnetCommand.java:50-56 | with or without the IAC before SE the same option and payload are read |
| TelnetCodes.SubNegotiationDecodeEncode | src/main/java/connection/telnet/SubNegotiationTelnetCommand.java:48-62 | a list that closes with IAC SE re-encodes from its decoding |
| TelnetCodes.SubNegotiationAsWrittenShifts | src/main/java/connection/telnet/SubNegotiationTelnetCommand.java:59-61 | the decoder as written reports SB as the option and the real option as the first payload byte |
| TelnetCodes.SubNegotiationAsWrittenExample | src/main/java/connection/telnet/SubNegotiationTelnetCommand.java:59-61 | on IAC SB 17 97 200 4 77 IAC SE the decoder as written gives option 250 and payload 17 97 200 4 77; the corrected one gives option 17 and 97 200 4 77 |
| TelnetCodes.ShortSubNegotiationDiffers | src/main/java/connection/telnet/SubNegotiationTelnetCommand.java:48-53 | IAC SB SE is read by the decoder as written (size at least 3) as option SB with no payload, and refused by the corrected one, which needs a fourth byte for the option |
| TelnetCodes.SingleToStringInjective | src/main/java/connection/telnet/SingleTelnetCommand.java:47-58 | distinct single commands print differently |
| TelnetCodes.SubNegotiationToStringAmbiguous | src/main/java/connection/telnet/SubNegotiationTelnetCommand.java:64-69 | the class's printed form runs the option and the data together: option 1 with 78 and option 17 with 8 both print IAC SB 178 IAC SE |
| Utf8.Decode | src/main/java/connection/TelnetInputStream.java:149-162 | what is held back is an incomplete character |
| Utf8.DecodeRest | src/main/java/connection/TelnetInputStream.java:149-154 | what is held back is a suffix of the input, and no more characters come out than bytes went in |
| Utf8.DecodeAppend | src/main/java/connection/TelnetInputStream.java:60-67 | decoding is streaming: decoding a + b gives the characters of a, then those of the held-back bytes followed by b |
| Utf8.IncompleteDecodesToNothing | src/main/java/connection/TelnetInputStream.java:150-153 | an incomplete character on its own gives no character and is held back again |
| Utf8.EncodeDecodeChar | src/main/java/connection/TelnetInputStream.java:150-153 | one encoded code point is read back as that code point |
| Utf8.EncodeDecode | src/main/java/connection/TelnetInputStream.java:150-153 | the decoder reads back exactly the characters a UTF-8 encoder wrote, holding nothing back |
| ByteStreams.Unsigned | src/main/java/connection/TelnetInputStream.java:71-72 | the value of a signed byte is in 0..255 and equal to it modulo 256, and it is 255 (IAC) exactly for the byte -1 |
| ByteStreams.TextRunLengthFacts | src/main/java/connection/TelnetInputStream.java:140-147 | the bytes moved are the longest IAC-free prefix that fits the room left |
| ByteStreams.TextRunLengthIs | src/main/java/connection/TelnetInputStream.java:140-147 | any run with that description has that length |
| ByteStreams.CopyTextRun | src/main/java/connection/TelnetInputStream.java:141-146 | the copy loop appends exactly such a run to the text buffer and leaves the bytes before it alone |
| TelnetInputStreams.TryComplete | src/main/java/connection/TelnetInputStream.java:180-186 | a code found by the three readers is a well-formed code |
| TelnetInputStreams.PartialCodeIsIncomplete | src/main/java/connection/TelnetInputStream.java:180-186 | a partial code is accepted by every reader without the readers' error, and none completes it |
| TelnetInputStreams.ExtendPartial | src/main/java/connection/TelnetInputStream.java:189-196 | adding one byte to a partial code never raises the error, and a list none completes is still partial |
| TelnetInputStreams.ScanCode | src/main/java/connection/TelnetInputStream.java:188-204 | without a code all bytes are used and the list stays partial; with a code at least one byte is used, the list is cleared and the code is well formed |
| TelnetInputStreams.ScanStopsAtFirstCode | src/main/java/connection/TelnetInputStream.java:188-204 | the scan stops at exactly the first byte that completes a code; without one the partial code grows by all the bytes |
| TelnetInputStreams.ProbeReadsOnlyWhenConsumed | src/main/java/connection/TelnetInputStream.java:100-111 | while unread bytes remain, what the source would deliver makes no difference |
| TelnetInputStreams.ProbeWithoutBytes | src/main/java/connection/TelnetInputStream.java:212-215 | with nothing unread, a timeout gives NONE and the end of the stream gives EOF, with no state change |
| TelnetInputStreams.ProbeKeepsValidity | src/main/java/connection/TelnetInputStream.java:212-223 | a probe keeps the stream's state valid |
| TelnetInputStreams.ProbeTelnetPath | src/main/java/connection/TelnetInputStream.java:217-219 | with a pending partial code or an IAC next, the result is TELNET or NONE, text is untouched, and TELNET comes exactly when the scan completes a code, which becomes available |
| TelnetInputStreams.ProbeTextPath | src/main/java/connection/TelnetInputStream.java:217-222 | otherwise the result is TEXT or NONE, the code is untouched, no IAC is moved, and NONE keeps the previous text |
| TelnetInputStreams.TextProbesCompose | src/main/java/connection/TelnetInputStream.java:150-154 | text split over two probes, as when a character is cut in two, decodes to the same characters as the text in one piece |
| TelnetInputStreams.TelnetInputStream.constructor | src/main/java/connection/TelnetInputStream.java:78-91 | empty buffers, no pending code, no text and no code available |
| TelnetInputStreams.TelnetInputStream.ReadString | src/main/java/connection/TelnetInputStream.java:225-227 | the available text |
| TelnetInputStreams.TelnetInputStream.ReadTelnetCode | src/main/java/connection/TelnetInputStream.java:229-231 | the available code, which stays available |
| TelnetInputStreams.TelnetInputStream.FillConnectionBuffer | src/main/java/connection/TelnetInputStream.java:100-111 | the source is read only when every byte has been used; a read gives the new bytes, a timeout or the end |
| TelnetInputStreams.TelnetInputStream.ShiftTextBuffer | src/main/java/connection/TelnetInputStream.java:120-132 | the unread bytes move to the start of the text buffer, unchanged and in order |
| ByteStreams.ShiftDown | src/main/java/connection/TelnetInputStream.java:126-128 | the shift loop leaves the bytes from `from` up to `to` at the start of the array, in order |
| TelnetInputStreams.TelnetInputStream.MoveNonTelnet | src/main/java/connection/TelnetInputStream.java:140-147 | the longest IAC-free run that fits moves from the connection buffer to the text buffer |
| TelnetInputStreams.TelnetInputStream.TextBufferBytes | src/main/java/connection/TelnetInputStream.java:68-76 | the internal byte stream delivers the buffered bytes as unsigned values |
| TelnetInputStreams.TelnetInputStream.ReadTextBufferToString | src/main/java/connection/TelnetInputStream.java:155-162 | the reader drains the text buffer, keeps only an incomplete character pending and yields what DecodeInto says |
| TelnetInputStreams.TelnetInputStream.ReadTextFromConnectionBuffer | src/main/java/connection/TelnetInputStream.java:170-174 | the text path of a probe, as TextStep says |
| TelnetInputStreams.TelnetInputStream.ScanConnectionBuffer | src/main/java/connection/TelnetInputStream.java:190-202 | the loop adds unread bytes one at a time, as ScanCode says |
| TelnetInputStreams.TelnetInputStream.ReadRemainingTelnetCode | src/main/java/connection/TelnetInputStream.java:188-204 | the telnet path of a probe, as ScanStep says |
| TelnetInputStreams.TelnetInputStream.ProbeAvailableContent | src/main/java/connection/TelnetInputStream.java:212-223 | the status and new state are ProbeSpec of the old state and what the source delivers |
| TelnetStreams.ScanList | src/main/java/connection/TelnetStream.java:156-169 | bytes are added while the code is incomplete; the result says whether it is complete, and an incomplete one used all bytes |
| TelnetStreams.ScanListStops | src/main/java/connection/TelnetStream.java:156-162 | the scan never overshoots: the list is the partial code followed by the bytes used, and it was incomplete before each of them |
| TelnetStreams.TwoByteCodes | src/main/java/connection/TelnetStream.java:143-147 | IAC and a command byte below 250 make a code of two bytes |
| TelnetStreams.ThreeByteCodes | src/main/java/connection/TelnetStream.java:147-150 | IAC, a command byte above SB and one more byte make a code of three |
| TelnetStreams.IacIacDiffers | src/main/java/connection/TelnetStream.java:147-150 | IAC IAC x is one three-byte code here, where TelnetInputStream completes IAC IAC after two bytes |
| TelnetStreams.ReaderByte | src/main/java/connection/TelnetStream.java:58-66 | a non-negative byte reaches the reader as it is, a negative one one below its unsigned value |
| TelnetStreams.AsciiBytesAgree | src/main/java/connection/TelnetStream.java:61-62 | on ASCII bytes the reader sees the bytes that arrived |
| TelnetStreams.NonAsciiChanges | src/main/java/connection/TelnetStream.java:62 | the UTF-8 bytes C3 A9 of U+00E9 reach the reader as C2 A8 and are read as U+00A8 |
| TelnetStreams.ProbeReadsOnlyWhenConsumed | src/main/java/connection/TelnetStream.java:90-101 | while unread bytes remain, what the source would deliver makes no difference |
| TelnetStreams.ProbeWithoutBytes | src/main/java/connection/TelnetStream.java:189-192 | with nothing unread, a timeout gives NONE and the end gives EOF, with no state change |
| TelnetStreams.ProbeKeepsValidity | src/main/java/connection/TelnetStream.java:189-203 | a probe keeps the stream's state valid |
| TelnetStreams.ProbeTelnetPath | src/main/java/connection/TelnetStream.java:194-199 | with a partial code pending or IAC next, the result is TELNET with a complete code and a fresh partial list, or NONE keeping the list |
| TelnetStreams.ProbeTextPath | src/main/java/connection/TelnetStream.java:200-202 | otherwise the result is TEXT or NONE, no IAC is moved, and NONE keeps the previous text |
| TelnetStreams.AsciiTextAgrees | src/main/java/connection/TelnetStream.java:134-141 | on ASCII text a TelnetStream finds the same text as a TelnetInputStream |
| TelnetStreams.TelnetStream.constructor | src/main/java/connection/TelnetStream.java:68-81 | empty buffers, nothing pending or available |
| TelnetStreams.TelnetStream.ReadString | src/main/java/connection/TelnetStream.java:205-207 | the available text |
| TelnetStreams.TelnetStream.ReadTelnetCode | src/main/java/connection/TelnetStream.java:209-213 | returns the available code and forgets it, so a second call returns null |
| TelnetStreams.TelnetStream.FillConnectionBuffer | src/main/java/connection/TelnetStream.java:90-101 | the source is read only when every byte has been used |
| TelnetStreams.TelnetStream.ShiftTextBuffer | src/main/java/connection/TelnetStream.java:110-122 | the unread bytes move to the start of the text buffer, unchanged and in order |
| TelnetStreams.TelnetStream.MoveNonTelnet | src/main/java/connection/TelnetStream.java:124-132 | the longest IAC-free run that fits moves to the text buffer |
| TelnetStreams.TelnetStream.TextBufferBytes | src/main/java/connection/TelnetStream.java:58-66 | the internal byte stream delivers ReaderBytes of the buffered bytes |
| TelnetStreams.TelnetStream.ReadTextBufferToString | src/main/java/connection/TelnetStream.java:134-141 | the reader drains the text buffer and yields what DecodeInto says of the bytes it sees |
| TelnetStreams.TelnetStream.ReadTextFromConnectionBuffer | src/main/java/connection/TelnetStream.java:177-181 | the text path of a probe, as TextStep says |
| TelnetStreams.TelnetStream.ScanConnectionBuffer | src/main/java/connection/TelnetStream.java:157-162 | the loop adds bytes while the code is incomplete, as ScanList says |
| TelnetStreams.TelnetStream.ReadRemainingTelnetCode | src/main/java/connection/TelnetStream.java:156-169 | the telnet path of a probe, as ScanStep says |
| TelnetStreams.TelnetStream.ProbeAvailableContent | src/main/java/connection/TelnetStream.java:189-203 | the status and new state are ProbeSpec of the old state and what the source delivers |
| TelnetHandlers.CommandRoundTrip | src/main/java/handlers/TelnetHandler.java:79-84 | every int command is read back from its printed form |
| TelnetHandlers.CommandToStringInjective | src/main/java/handlers/TelnetHandler.java:79-84 | distinct commands print differently |
| TelnetHandlers.NamedCommandRoundTrip | src/main/java/handlers/TelnetHandler.java:80-82 | 241..254 are printed by name and read back |
| TelnetHandlers.LowCommandRoundTrip | src/main/java/handlers/TelnetHandler.java:80-82 | NOP, DAT, BRK, IP, AO, AYT and EC (241..247) are read back from their names |
| TelnetHandlers.HighCommandRoundTrip | src/main/java/handlers/TelnetHandler.java:80-82 | EL, GA, SB, WILL, WONT, DO and DONT (248..254) are read back from their names |
| TelnetHandlers.NumberIsNoCommandName | src/main/java/handlers/TelnetHandler.java:83 | text in the `"" + cmd` form, starting with a digit or a minus sign, is read as a number and never as a command name |
| TelnetHandlers.OptionRoundTrip | src/main/java/handlers/TelnetHandler.java:90-97 | every int option is read back from its printed form |
| TelnetHandlers.NumberRead | src/main/java/handlers/TelnetHandler.java:96 | a printed number is no option name and is parsed back |
| TelnetHandlers.MakeStrings | src/main/java/handlers/TelnetHandler.java:104-116 | every piece is non-empty and holds no zero |
| TelnetHandlers.MakeStringsKeepsValues | src/main/java/handlers/TelnetHandler.java:104-116 | nothing but the zeros is lost: the pieces together are the values without their zeros |
| TelnetHandlers.MakeStringsOfJoined | src/main/java/handlers/TelnetHandler.java:104-116 | non-empty zero-free pieces joined by zeros are split back into the same pieces |
| TelnetHandlers.MakeStringsTrailingZero | src/main/java/handlers/TelnetHandler.java:106-109 | a trailing zero adds no piece |
| TelnetHandlers.StringBytesRoundTrip | src/main/java/handlers/TelnetHandler.java:184-187 | ASCII text survives the trip to bytes and back, and text without NUL gives no zero byte |
| TelnetHandlers.SubNegotiationToString | src/main/java/handlers/TelnetHandler.java:118-142 | the payload's printed form is non-empty and ends with a space |
| TelnetHandlers.IsStringsPrinted | src/main/java/handlers/TelnetHandler.java:124-137 | a TTYPE or ZMP payload qualified IS prints as `IS ` followed by each zero-separated string, decoded as UTF-8, quoted and followed by a space |
| TelnetHandlers.EncodedStringRead | src/main/java/handlers/TelnetHandler.java:107-112 | the bytes of UTF-8 encoded characters are read back as exactly those characters |
| TelnetHandlers.AccentedLetterRead | src/main/java/handlers/TelnetHandler.java:112 | the bytes C3 A9 are the one character é |
| TelnetHandlers.UnfinishedCharacterRead | src/main/java/handlers/TelnetHandler.java:112 | a character cut short at the end of a string reads as the replacement character U+FFFD |
| TelnetHandlers.TelnetToStringShape | src/main/java/handlers/TelnetHandler.java:149-156 | the printed form starts with IAC and the command, and a subnegotiation's ends with IAC SE |
| TelnetHandlers.SubNegotiationPrinted | src/main/java/handlers/TelnetHandler.java:149-156 | a subnegotiation prints as IAC SB, the option, the payload and IAC SE |
| TelnetHandlers.PrintingShortCodes | src/main/java/handlers/TelnetHandler.java:149-152 | IAC AYT, IAC WILL COMPRESS and IAC DONT ZMP print so |
| TelnetHandlers.PrintingTType | src/main/java/handlers/TelnetHandler.java:131-135 | TTYPE IS "abc" prints the string quoted |
| TelnetHandlers.PrintingNumbers | src/main/java/handlers/TelnetHandler.java:137-139 | an unknown option's payload after IS prints as numbers |
| TelnetHandlers.PrintingZmp | src/main/java/handlers/TelnetHandler.java:131-135 | ZMP IS prints each zero-separated string quoted |
| TelnetHandlers.ZmpTwoStrings | src/main/java/handlers/TelnetHandler.java:131-135 | any two zero-terminated ASCII names after ZMP IS print as two quoted strings |
| TelnetHandlers.QuotedName | src/main/java/handlers/TelnetHandler.java:131-135 | a TTYPE IS name without zero bytes prints back quoted |
| TelnetHandlers.TTypeReply | src/main/java/handlers/TelnetHandler.java:205-208 | the answer is a subnegotiation TTYPE IS followed by the name's bytes |
| TelnetHandlers.TTypeCycle | src/main/java/handlers/TelnetHandler.java:195-203 | successive requests answer xterm16m, xterm256, ansi, ansi, and the cycle restarts |
| TelnetHandlers.TTypeCycleRepeats | src/main/java/handlers/TelnetHandler.java:195-203 | every fourth request starts the cycle over, wherever it is |
| TelnetHandlers.TTypeAnswerPrinted | src/main/java/handlers/TelnetHandler.java:195-209 | the answer prints as IAC SB TTYPE IS "name" IAC SE |
| TelnetHandlers.RefusalPolicy | src/main/java/handlers/TelnetHandler.java:61-73 | at most one reply, well formed; WILL and WONT of an unsupported option get DONT, DO gets WONT (DO TTYPE: WILL), DONT and other codes get nothing; only TTYPE requests change the cycle |
| TelnetHandlers.TTypeRequestAnswered | src/main/java/handlers/TelnetHandler.java:211-219 | a TTYPE SEND request is answered with the next terminal type |
| TelnetHandlers.TelnetHandler.constructor | src/main/java/handlers/TelnetHandler.java:46-49 | no terminal type sent yet, nothing sent or posted |
| TelnetHandlers.TelnetHandler.SendEvent | src/main/java/handlers/TelnetHandler.java:55-59 | posts one information text about the code |
| TelnetHandlers.TelnetHandler.Send | src/main/java/handlers/TelnetHandler.java:158-161 | the code is sent, then its Sent text is posted |
| TelnetHandlers.TelnetHandler.SendTTypeRequest | src/main/java/handlers/TelnetHandler.java:195-209 | the cycle advances one step and its answer is sent and posted |
| TelnetHandlers.TelnetHandler.HandleTType | src/main/java/handlers/TelnetHandler.java:211-221 | handled exactly for DO or SB with the payload SEND; DO answers WILL TTYPE, SEND the next type; otherwise nothing changes |
| TelnetHandlers.TelnetHandler.HandleSupportedCommand | src/main/java/handlers/TelnetHandler.java:175-178 | only TTYPE codes are handled, as HandleTType does |
| TelnetHandlers.TelnetHandler.EventOccurred | src/main/java/handlers/TelnetHandler.java:61-73 | the Received text is posted, then the replies React gives are sent and posted, and the cycle state becomes React's |
| InputHistories.Empty | src/main/java/windowing/InputHistory.java:37-42 | a new history has size empty lines and is not browsing |
| InputHistories.Add | src/main/java/windowing/InputHistory.java:50-56 | the size is kept and the state stays valid |
| InputHistories.Up | src/main/java/windowing/InputHistory.java:64-74 | the lines stay, the cursor stays in range |
| InputHistories.Down | src/main/java/windowing/InputHistory.java:82-94 | the lines stay, the cursor stays in range |
| InputHistories.Current | src/main/java/windowing/InputHistory.java:97-100 | null exactly when not browsing, else a remembered line |
| InputHistories.DownUndoesUp | src/main/java/windowing/InputHistory.java:82-94 | after a step up that moved the cursor, a step down returns the line that was current and the same history |
| InputHistories.UpUndoesDown | src/main/java/windowing/InputHistory.java:64-74 | below the newest line, up undoes down |
| InputHistories.UpsWalkOlder | src/main/java/windowing/InputHistory.java:64-74 | successive browseUp calls return the lines older than the cursor one by one, then null for ever |
| InputHistories.AddAllKeepsRecent | src/main/java/windowing/InputHistory.java:44-56 | a new history given lines remembers the last size of those kept (non-empty, no immediate repeat), newest first, padded with empty lines |
| InputHistories.AddAll | src/main/java/windowing/InputHistory.java:50-56 | any run of addHistoryItem calls keeps the history valid and its size |
| InputHistories.RepetitionExample | src/main/java/windowing/InputHistory.java:47-51 | repeats and empty lines are not remembered |
| InputHistories.ScrollOffExample | src/main/java/windowing/InputHistory.java:34 | only the last size lines are remembered |
| InputHistories.InputHistory.constructor | src/main/java/windowing/InputHistory.java:37-42 | the state is the new history of that size |
| InputHistories.InputHistory.AddHistoryItem | src/main/java/windowing/InputHistory.java:50-56 | the ring buffer now shows Add of the old history |
| InputHistories.InputHistory.BrowseUp | src/main/java/windowing/InputHistory.java:64-74 | the result and new state are Up of the old history |
| InputHistories.InputHistory.BrowseDown | src/main/java/windowing/InputHistory.java:82-94 | the result and new state are Down of the old history |
| InputHistories.RingPosNext | src/main/java/windowing/InputHistory.java:66-67 | moving the cursor one slot on moves one line older, and reaches the offset again exactly from the oldest line |
| InputHistories.RingPosPrev | src/main/java/windowing/InputHistory.java:90 | away from the offset, moving the cursor one slot back moves one line newer |
| InputHistories.InputHistory.QueryCurrent | src/main/java/windowing/InputHistory.java:97-100 | Current of the history |
| InputHistories.InputHistory.ResetBrowsing | src/main/java/windowing/InputHistory.java:103-105 | only the cursor is cleared |
| InputWindows.EnterSends | src/main/java/windowing/InputWindow.java:79-84 | enter sends exactly the text, leaves it in place, ends browsing, and non-empty text becomes the newest line |
| InputWindows.ChangeEndsBrowsing | src/main/java/windowing/InputWindow.java:75-77 | a change to the text ends browsing and changes nothing else |
| InputWindows.BrowseSavesTypedText | src/main/java/windowing/InputWindow.java:97-103 | typed text is saved to the history before browsing starts |
| InputWindows.UpShowsOlder | src/main/java/windowing/InputWindow.java:105-108 | while browsing, up shows the next older line, or keeps the text at the oldest |
| InputWindows.DownShowsNewer | src/main/java/windowing/InputWindow.java:109-114 | while browsing, down shows the next newer line; past the newest it clears the text and browsing ends |
| InputWindows.DownSavesThenUpRestores | src/main/java/windowing/InputWindow.java:94-115 | down on typed text saves it and clears the box; up brings it back |
| InputWindows.UpThenDownRestores | src/main/java/windowing/InputWindow.java:94-115 | up then down on typed text comes back to it |
| InputWindows.Browse | src/main/java/windowing/InputWindow.java:94-115 | browsing never sends a command and keeps the window valid |
| InputWindows.Enter | src/main/java/windowing/InputWindow.java:79-84 | enter keeps the window valid |
| InputWindows.Changed | src/main/java/windowing/InputWindow.java:75-77 | a change keeps the window valid |
| InputWindows.Key | src/main/java/windowing/InputWindow.java:68-72 | every key keeps the window valid |
| InputWindows.InputWindow.constructor | src/main/java/windowing/InputWindow.java:36-42 | an empty box over a new history of 100 lines |
| InputWindows.InputWindow.WithHistory | src/main/java/windowing/InputWindow.java:44-57 | a window over the given history |
| InputWindows.InputWindow.SpecialKeyEvent | src/main/java/windowing/InputWindow.java:68-72 | the new window state is Key of the old one |
| InputWindows.InputWindow.ComponentChanged | src/main/java/windowing/InputWindow.java:75-77 | the new state is Changed of the old one |
| InputWindows.InputWindow.EnterPressed | src/main/java/windowing/InputWindow.java:79-84 | the new state is Enter of the old one |
| InputWindows.InputWindow.HistoryBrowse | src/main/java/windowing/InputWindow.java:94-115 | the new state is Browse of the old one |
| CommandParsers.WordsAreWords | src/main/java/interfaces/CommandParser.java:26-37 | every word is non-empty and holds no space |
| CommandParsers.WordsOfUnwords | src/main/java/handlers/CommandParsingHandler.java:79-92 | words joined by single spaces split back into those words |
| CommandParsers.FromIsSuffix | src/main/java/handlers/CommandParsingHandler.java:94-102 | wordsFrom gives a suffix of the text that does not start with a space |
| CommandParsers.FromHoldsLaterWords | src/main/java/handlers/CommandParsingHandler.java:94-102 | wordsFrom(s, n) holds exactly the words of s from word n on |
| CommandParsers.SpacesDropped | src/main/java/handlers/CommandParsingHandler.java:97-98 | leading spaces do not change the words |
| CommandParsers.Word | src/main/java/handlers/CommandParsingHandler.java:79-92 | null for a negative index, else word n or the empty string, never holding a space |
| CommandParsers.WordsFrom | src/main/java/handlers/CommandParsingHandler.java:94-102 | the whole text for a negative index, else the text from word n on |
| CommandParsers.QueryCommand | src/main/java/handlers/CommandParsingHandler.java:73-77 | a command word exactly when the first word starts with `#`; it is that word without `#`, lower-cased |
| ScrollCommands.Parse | src/main/java/commands/ScrollCommand.java:29-40 | the loop-free parse returns what ScrollResult describes |
| ScrollCommands.ScrollCases | src/main/java/commands/ScrollCommand.java:30-39 | UP, DOWN and TOGGLE come exactly from `scroll` with the lower-cased rest up, down or toggle; everything else is an error |
| ScrollCommands.ExtraWordsRejected | src/main/java/commands/ScrollCommand.java:34-39 | an argument of more than one word is an error |
| ScrollCommands.CapitalsAccepted | src/main/java/commands/ScrollCommand.java:34-35 | any capitalisation of the direction is accepted |
| CommandParsingHandlers.Kind | src/main/java/commands/ScrollCommand.java:47-49 | a scroll command's kind is SCROLLCMD, a MUD command's MUDCMD, a connect request's CONNECTCMD |
| CommandParsingHandlers.SepIndex | src/main/java/handlers/CommandParsingHandler.java:52 | -1, or a position at or after `from` where `;;` starts |
| CommandParsingHandlers.SepIndexFirst | src/main/java/handlers/CommandParsingHandler.java:52 | no `;;` starts between `from` and the one found |
| CommandParsingHandlers.Pieces | src/main/java/handlers/CommandParsingHandler.java:50-59 | a line is cut into at least one piece |
| CommandParsingHandlers.JoinOfPieces | src/main/java/handlers/CommandParsingHandler.java:50-59 | the pieces joined with `;;` give back the line, spaces included |
| CommandParsingHandlers.PiecesAreLeftmost | src/main/java/handlers/CommandParsingHandler.java:52-55 | the cut is made at the leftmost separator each time |
| CommandParsingHandlers.PiecesUnique | src/main/java/handlers/CommandParsingHandler.java:50-59 | any leftmost cut that joins to a line is the cut execute makes |
| CommandParsingHandlers.OnePiece | src/main/java/handlers/CommandParsingHandler.java:54 | a line without `;;` is one piece, itself |
| CommandParsingHandlers.SingleEvents | src/main/java/handlers/CommandParsingHandler.java:62-71 | one piece gives exactly one event |
| CommandParsingHandlers.SingleCases | src/main/java/handlers/CommandParsingHandler.java:62-71 | text without a command word goes to the MUD as it is; `#scroll` gives its command or a parsing error; any other command word gives an unknown-command warning |
| CommandParsingHandlers.ParseSingleCommand | src/main/java/handlers/CommandParsingHandler.java:62-71 | exactly one of a command and a warning, the one SingleEvents describes |
| CommandParsingHandlers.EventPerPiece | src/main/java/handlers/CommandParsingHandler.java:50-59 | one event per piece, and event i is what piece i gives |
| CommandParsingHandlers.EventsStep | src/main/java/handlers/CommandParsingHandler.java:52-58 | the events of a line are those of the text before the first `;;`, then those of the text after it |
| CommandParsingHandlers.Execute | src/main/java/handlers/CommandParsingHandler.java:50-59 | the loop posts the events of the pieces of the line, in order |
| CommandParsingHandlers.EventOccurred | src/main/java/handlers/CommandParsingHandler.java:40-44 | user input is executed; other events post nothing |
| CommandParsingHandlers.PlainLineSent | src/main/java/handlers/CommandParsingHandler.java:62-64 | a line with no separator and no command word goes to the MUD as it is |
| CommandParsingHandlers.SeparatorExample | src/main/java/handlers/CommandParsingHandler.java:50-55 | AAAAA;;  BBB ;;CD is cut into AAAAA, "  BBB " and CD |
| CommandParsingHandlers.UnknownCommandExample | src/main/java/handlers/CommandParsingHandler.java:62-70 | in AAAAA;;  #BBB ;;CD the unknown command gives a warning between the two MUD commands |
| JavaText.ParseInt | src/main/java/styles/AnsiCodeReader.java:105 | a parsed number fits a Java int |
| JavaText.ParseIntOfIntToString | src/main/java/handlers/TelnetHandler.java:83 | printing an int and parsing it back gives the same int |
| JavaText.Split | src/main/java/styles/AnsiCodeReader.java:174 | String.split on `;`: no field holds `;`; without `;` the text itself; else the fields with the trailing empty ones dropped |
| JavaText.JoinFields | src/main/java/styles/AnsiCodeReader.java:174 | the fields joined with the separator give back the text |
| JavaText.ToLowerAscii | src/main/java/handlers/CommandParsingHandler.java:76 | same length; upper-case ASCII letters lowered, every other character kept |
| JavaText.IndexOf | src/main/java/styles/AnsiCodeReader.java:301 | the first position at or after `from` holding the character, or -1 when there is none |

## Left out

- Sockets, threads, timeouts as exceptions, the Swing components and `EventBus`: a read's outcome is a parameter, and sent codes and posted events are sequences the classes append to.
- `AttributeGroup.getStyle`/`setupStyle`, every `toJavaColor` and the `java.awt.Color` palettes: they only feed Swing. The RGB values of xterm indexes 0..15 come from that palette and are not modelled.
- `ColourString`'s constructors with a layout object, and `AttributeGroup`'s constructors with colours and attributes: they only fill fields (`PlainColourString`, `ColouredString`, `WithFront`, `WithFrontAndAttributes`) and carry no property.
- `TelnetOutputStream`, `Connection`, `ConnectionHandler`, `InformationHandler`, the event classes and `ConnectCommand`: plumbing or value holders. ConnectCommand.parse is not part of this model, because commands/ConnectCommand.java does not define it; `#connect` becomes a `ConnectRequest`.
- `TelnetInputStream.close`: it only closes the socket and the reader.
- Utf8.Decode: malformed UTF-8 and Java's replacement character are not modelled; the decoder is the longest prefix of complete characters.
- TelnetHandlers.BytesToString: follows Utf8.Decode, so malformed UTF-8 (a stray continuation byte, an overlong form, an encoded surrogate, a bad continuation byte) is not replaced part by part with U+FFFD as Java's decoder does; well-formed text is read as Java reads it, and an unfinished last character gives one U+FFFD.
- JavaText.ParseInt: reads ASCII digits only; `Integer.parseInt` also accepts the decimal digits of other scripts.
- TelnetInputStreams.TryComplete: completes codes with the corrected subnegotiation reader, so TelnetInputStream and the handler behind it see the option at list[2], as the decoder's tests expect; this is what lets HandleTType answer TTYPE SEND, which the code as written (option SB) never matches. In the same way IAC SB SE, which the Java completes at its third byte with option SB, stays partial in the model, and the bytes up to a later SE join that code (TelnetCodes.ShortSubNegotiationDiffers). TelnetStream hands on raw byte lists and does not use the reader.
- JavaText.ToLowerAscii: lowers ASCII letters only; Java's `toLowerCase` also lowers other scripts.
- TelnetInputStreams.TelnetInputStream.ReadTextBufferToString: when the text buffer holds only part of a character, Java's reader would throw from the internal byte stream; the model returns NONE and keeps the bytes, which is what the loop's comment intends.
- TelnetCodes.ReadSingle: the `Error` for a list longer than a complete code ("scanning not done char by char") is a precondition rather than a failure; so for `ReadSupport`.
- TelnetCodes.NewSupport: an unsupported command is `None` instead of a thrown `Error`.
- InputHistories.InputHistory.constructor: requires a size of at least 1; a history of size 0 throws on its first use in Java.
- ScrollCommands.Parse: requires a command word, since the Java dereferences `queryCommand`'s result without a null test.
- InputWindows.InputWindow.EnterPressed: `selectAll` only moves the Swing selection and is not modelled.
- TelnetStreams.TelnetStream.ReadTextBufferToString: the reader's view of bytes above 127 is modelled as the code computes it (255 added instead of 256), not as intended. When the held-back bytes and the moved chunk hold no complete character, the reader in TelnetStream.java asks the internal byte stream for more, whose `read` throws `OutOfBufferException` on an empty buffer (TelnetStream.java:58-66), and `probeAvailableContent` does not catch it (TelnetStream.java:189-203); the model instead returns NONE and keeps those bytes for the next probe.

## Findings

| source | as written | input that shows it | evidently intended | confidence | as-written member | corrected member |
|---|---|---|---|---|---|---|
| src/main/java/connection/telnet/SubNegotiationTelnetCommand.java:59-61 | the option is taken from index 1 (always SB) and the payload from index 2 | IAC SB 17 97 200 4 77 IAC SE gives option 250 and payload 17 97 200 4 77 | option from index 2 and payload from index 3, as the decoder's tests expect | high, not executed | TelnetCodes.SubNegotiationAsWrittenExample | TelnetCodes.SubNegotiationRoundTrip |
| src/main/java/styles/AnsiColour.java:63-66 | the range test is made before 8 is added for `bright` | new AnsiColour(8, true) gives code 16, which names no colour and indexes past the palette | negative codes refused as written, and the upper test made on the final code, so that codes 0..15 are the only ones stored | medium, not executed | Colours.AnsiBrightAsWrittenEscapes | Colours.NewAnsiBright |
