/** CommandParsingHandler: a line of user input is cut at every `;;` and each
  * piece becomes one command (sent to the MUD, or a client command starting
  * with `#`) or one warning. The event bus is modelled as the list of events
  * posted, in order. */
module CommandParsingHandlers {
  import opened Wrappers
  import opened CommandParsers
  import ScrollCommands
  import JavaText

  /** The separator between commands on one line. */
  const SEPARATOR: string := ";;"

  /** The commands the handler produces. A `#connect` line is handed on to
    * ConnectCommand.parse, whose parsing is not part of this model: the
    * command carries the line it was given. */
  datatype Command =
    | MudCommand(text: string)
    | ScrollCommand(direction: ScrollCommands.Direction)
    | ConnectRequest(text: string)

  datatype CommandKind = MUDCMD | SCROLLCMD | CONNECTCMD

  /** queryCommandKind of each command class. */
  function Kind(c: Command): (k: CommandKind)
    ensures k == MUDCMD <==> c.MudCommand?
    ensures k == SCROLLCMD <==> c.ScrollCommand?
    ensures k == CONNECTCMD <==> c.ConnectRequest?
  {
    match c
    case MudCommand(_) => MUDCMD
    case ScrollCommand(_) => SCROLLCMD
    case ConnectRequest(_) => CONNECTCMD
  }

  /** What the handler posts on the event bus. */
  datatype Event = CommandEvent(command: Command) | WarningEvent(message: string)

  /** The events the handler listens to: user input, and everything else. */
  datatype TurtleEvent = UserInputEvent(command: string) | OtherEvent

  // ---------------------------------------------------------------- the separator

  /** A separator starts at position k of t. */
  predicate SepAt(t: string, k: int)
  {
    0 <= k && k + 1 < |t| && t[k] == ';' && t[k + 1] == ';'
  }

  /** indexOf(SEPARATOR, from): the first separator at or after from, or -1. */
  function SepIndex(t: string, from: nat): (r: int)
    requires from <= |t|
    ensures r == -1 || (from <= r && SepAt(t, r))
    decreases |t| - from
  {
    if from + 1 >= |t| then -1
    else if t[from] == ';' && t[from + 1] == ';' then from
    else SepIndex(t, from + 1)
  }

  /** No separator starts before the one SepIndex finds. */
  lemma {:induction false} SepIndexFirst(t: string, from: nat)
    requires from <= |t|
    ensures var r := SepIndex(t, from);
      forall k :: from <= k && (r == -1 || k < r) ==> !SepAt(t, k)
    decreases |t| - from
  {
    if from + 1 < |t| && !(t[from] == ';' && t[from + 1] == ';') {
      SepIndexFirst(t, from + 1);
    }
  }

  /** The pieces execute cuts a line into, in order. */
  function Pieces(t: string): (r: seq<string>)
    ensures |r| >= 1
    decreases |t|
  {
    var k := SepIndex(t, 0);
    if k == -1 then [t] else [t[..k]] + Pieces(t[k + 2..])
  }

  /** Pieces joined by the separator. */
  function JoinPieces(ps: seq<string>): string
    requires |ps| >= 1
  {
    if |ps| == 1 then ps[0] else ps[0] + SEPARATOR + JoinPieces(ps[1..])
  }

  /** Joining the pieces with the separator gives back the line. */
  lemma {:induction false} JoinOfPieces(t: string)
    ensures JoinPieces(Pieces(t)) == t
    decreases |t|
  {
    var k := SepIndex(t, 0);
    if k != -1 {
      JoinOfPieces(t[k + 2..]);
      assert t == t[..k] + SEPARATOR + t[k + 2..];
    }
  }

  /** A piece holds no separator. */
  predicate NoSeparator(p: string)
  {
    forall k :: 0 <= k < |p| ==> !SepAt(p, k)
  }

  /** The cut is leftmost: no piece holds a separator, and no piece but the
    * last ends in ';' (else a separator would start one character earlier). */
  predicate LeftmostCut(ps: seq<string>)
  {
    (forall i :: 0 <= i < |ps| ==> NoSeparator(ps[i]))
    && (forall i :: 0 <= i < |ps| - 1 ==> ps[i] == "" || ps[i][|ps[i]| - 1] != ';')
  }

  lemma {:induction false} PiecesAreLeftmost(t: string)
    ensures LeftmostCut(Pieces(t))
    decreases |t|
  {
    var k := SepIndex(t, 0);
    SepIndexFirst(t, 0);
    if k == -1 {
      assert forall j :: SepAt(t, j) ==> 0 <= j;
    } else {
      var p := t[..k];
      PiecesAreLeftmost(t[k + 2..]);
      assert forall j :: SepAt(p, j) ==> SepAt(t, j);
      if p != "" {
        assert !SepAt(t, k - 1);
      }
      var ps := Pieces(t);
      assert ps == [p] + Pieces(t[k + 2..]);
      assert forall i :: 1 <= i < |ps| ==> ps[i] == Pieces(t[k + 2..])[i - 1];
    }
  }

  /** The first separator of p + SEPARATOR + rest is the one after p, when
    * p holds none and does not end in ';'. */
  lemma FirstSeparatorAfter(p: string, rest: string)
    requires NoSeparator(p) && (p == "" || p[|p| - 1] != ';')
    ensures SepIndex(p + SEPARATOR + rest, 0) == |p|
  {
    var t := p + SEPARATOR + rest;
    SepIndexFirst(t, 0);
    var r := SepIndex(t, 0);
    assert SepAt(t, |p|);
    assert forall k :: 0 <= k < |p| - 1 && SepAt(t, k) ==> SepAt(p, k);
  }

  /** The cut is the only leftmost one: any list of pieces that joins to t and
    * is cut leftmost is Pieces(t). */
  lemma {:induction false} PiecesUnique(ps: seq<string>)
    requires |ps| >= 1 && LeftmostCut(ps)
    ensures Pieces(JoinPieces(ps)) == ps
    decreases |ps|
  {
    var t := JoinPieces(ps);
    if |ps| == 1 {
      SepIndexFirst(t, 0);
      assert NoSeparator(ps[0]);
    } else {
      var rest := JoinPieces(ps[1..]);
      assert LeftmostCut(ps[1..]) by {
        assert forall i :: 0 <= i < |ps| - 1 ==> ps[1..][i] == ps[i + 1];
      }
      FirstSeparatorAfter(ps[0], rest);
      assert t[|ps[0]| + 2..] == rest;
      assert t[..|ps[0]|] == ps[0];
      PiecesUnique(ps[1..]);
    }
  }

  /** A line without a separator is one piece. */
  lemma OnePiece(t: string)
    requires NoSeparator(t)
    ensures Pieces(t) == [t]
  {
  }

  // ---------------------------------------------------------------- single commands

  /** parseSingleCommand with parseError: the events one piece gives. */
  function SingleEvents(text: string): (r: seq<Event>)
    ensures |r| == 1
  {
    var cmd := CommandWord(text);
    if cmd.None? then [CommandEvent(MudCommand(text))]
    else if cmd.value == "connect" then [CommandEvent(ConnectRequest(text))]
    else if cmd.value == "scroll" then
      match ScrollCommands.ScrollResult(text)
      case Success(d) => [CommandEvent(ScrollCommand(d))]
      case Failure(msg) => [WarningEvent("Parsing error: " + msg)]
    else [WarningEvent("Unknown Turtle command: " + text)]
  }

  /** What each piece leads to: text without a command word goes to the MUD
    * verbatim; `#connect` and `#scroll` become client commands or a parsing
    * error; any other command word is a warning. */
  lemma SingleCases(text: string)
    ensures SingleEvents(text) == [CommandEvent(MudCommand(text))] <==> CommandWord(text).None?
    ensures SingleEvents(text)[0].CommandEvent? && SingleEvents(text)[0].command.ScrollCommand?
      <==> CommandWord(text) == Some("scroll") && ScrollCommands.ScrollResult(text).Success?
    ensures SingleEvents(text) == [WarningEvent("Unknown Turtle command: " + text)]
      <==> CommandWord(text).Some? && CommandWord(text).value !in {"connect", "scroll"}
  {
    var cmd := CommandWord(text);
    if cmd.Some? && cmd.value == "scroll" && ScrollCommands.ScrollResult(text).Failure? {
      var msg := ScrollCommands.ScrollResult(text).error;
      var u := "Unknown Turtle command: ";
      var e := "Parsing error: ";
      assert u[0] != e[0];
      assert ("Parsing error: " + msg)[0] == e[0];
      assert ("Unknown Turtle command: " + text)[0] == u[0];
    }
  }

  /** parseSingleCommand: the command, or the warning posted instead. */
  method ParseSingleCommand(text: string) returns (command: Option<Command>, warning: Option<string>)
    ensures command.Some? != warning.Some?
    ensures SingleEvents(text) == if command.Some? then [CommandEvent(command.value)] else [WarningEvent(warning.value)]
  {
    var cmd := QueryCommand(text);
    if cmd == None {
      return Some(MudCommand(text)), None;
    }
    if cmd.value == "connect" {
      return Some(ConnectRequest(text)), None;
    }
    if cmd.value == "scroll" {
      var parsed := ScrollCommands.Parse(text);
      match parsed
      case Success(d) =>
        return Some(ScrollCommand(d)), None;
      case Failure(msg) =>
        return None, Some("Parsing error: " + msg);
    }
    return None, Some("Unknown Turtle command: " + text);
  }

  // ---------------------------------------------------------------- execute

  /** The events for a list of pieces, in order. */
  function AllEvents(ps: seq<string>): (r: seq<Event>)
  {
    if ps == [] then [] else SingleEvents(ps[0]) + AllEvents(ps[1..])
  }

  /** One event per piece, and event i is what piece i gives. */
  lemma {:induction false} EventPerPiece(ps: seq<string>)
    ensures |AllEvents(ps)| == |ps|
    ensures forall i :: 0 <= i < |ps| ==> AllEvents(ps)[i] == SingleEvents(ps[i])[0]
    decreases |ps|
  {
    if ps != [] {
      EventPerPiece(ps[1..]);
      assert forall i :: 1 <= i < |ps| ==> ps[1..][i - 1] == ps[i];
    }
  }

  /** The events still to come from what is left of the line (null: none). */
  function Remaining(txt: Option<string>): seq<Event>
  {
    if txt.None? then [] else AllEvents(Pieces(txt.value))
  }

  /** One step of execute: the first piece's events, then the rest's. */
  lemma EventsStep(t: string)
    ensures var k := SepIndex(t, 0);
      Remaining(Some(t)) == if k == -1 then SingleEvents(t) + Remaining(None)
        else SingleEvents(t[..k]) + Remaining(Some(t[k + 2..]))
  {
    var k := SepIndex(t, 0);
    var ps := Pieces(t);
    if k == -1 {
      assert ps == [t] && ps[1..] == [];
    } else {
      assert ps[0] == t[..k] && ps[1..] == Pieces(t[k + 2..]);
    }
    assert AllEvents(ps) == SingleEvents(ps[0]) + AllEvents(ps[1..]);
  }

  lemma Appended(events: seq<Event>, event: Event, rest: seq<Event>)
    ensures events + ([event] + rest) == (events + [event]) + rest
  {
  }

  /** execute: one event per piece of the line, in order. */
  method Execute(line: string) returns (events: seq<Event>)
    ensures events == AllEvents(Pieces(line))
  {
    var txt: Option<string> := Some(line);
    events := [];
    while txt.Some?
      invariant AllEvents(Pieces(line)) == events + Remaining(txt)
      decreases if txt.Some? then |txt.value| + 1 else 0
    {
      var t := txt.value;
      var k := SepIndex(t, 0);
      var cmd: string;
      if k == -1 {
        cmd := t;
        txt := None;
      } else {
        cmd := t[..k];
        txt := Some(t[k + 2..]);
      }
      EventsStep(t);
      assert Remaining(Some(t)) == SingleEvents(cmd) + Remaining(txt);
      var command, warning := ParseSingleCommand(cmd);
      var event := if command.Some? then CommandEvent(command.value) else WarningEvent(warning.value);
      assert SingleEvents(cmd) == [event];
      Appended(events, event, Remaining(txt));
      events := events + [event];
    }
  }

  /** eventOccurred: user input is executed; other events are ignored. */
  method EventOccurred(event: TurtleEvent) returns (events: seq<Event>)
    ensures event.UserInputEvent? ==> events == AllEvents(Pieces(event.command))
    ensures event.OtherEvent? ==> events == []
  {
    if !event.UserInputEvent? {
      return [];
    }
    events := Execute(event.command);
  }

  // ---------------------------------------------------------------- properties

  /** A line with no separator and no command word is sent to the MUD as it is. */
  lemma PlainLineSent(t: string)
    requires NoSeparator(t) && CommandWord(t).None?
    ensures AllEvents(Pieces(t)) == [CommandEvent(MudCommand(t))]
  {
    OnePiece(t);
  }

  /** The three pieces of "AAAAA;;  BBB ;;CD" go to the MUD with their spaces. */
  lemma SeparatorExample()
    ensures Pieces("AAAAA;;  BBB ;;CD") == ["AAAAA", "  BBB ", "CD"]
  {
    var ps := ["AAAAA", "  BBB ", "CD"];
    assert LeftmostCut(ps) by {
      forall i | 0 <= i < 3
        ensures NoSeparator(ps[i])
      {
        assert ';' !in ps[i];
      }
    }
    assert JoinPieces(ps) == "AAAAA;;  BBB ;;CD" by {
      assert JoinPieces(ps[2..]) == "CD";
    }
    PiecesUnique(ps);
  }

  /** An unknown command between two MUD commands gives a warning in its place:
    * "AAAAA;;  #BBB ;;CD" gives a MUD command, a warning, a MUD command. */
  lemma UnknownCommandExample()
    ensures AllEvents(Pieces("AAAAA;;  #BBB ;;CD")) ==
      [CommandEvent(MudCommand("AAAAA")), WarningEvent("Unknown Turtle command: " + "  #BBB "), CommandEvent(MudCommand("CD"))]
  {
    var ps := ["AAAAA", "  #BBB ", "CD"];
    UnknownCommandPieces();
    EventPerPiece(ps);
    NoCommandWord("AAAAA");
    NoCommandWord("CD");
    BbbUnknown();
    var es := AllEvents(ps);
    assert es[0] == CommandEvent(MudCommand("AAAAA"));
    assert es[1] == WarningEvent("Unknown Turtle command: " + "  #BBB ");
    assert es[2] == CommandEvent(MudCommand("CD"));
  }

  lemma UnknownCommandPieces()
    ensures Pieces("AAAAA;;  #BBB ;;CD") == ["AAAAA", "  #BBB ", "CD"]
  {
    var ps := ["AAAAA", "  #BBB ", "CD"];
    assert LeftmostCut(ps) by {
      forall i | 0 <= i < 3
        ensures NoSeparator(ps[i])
      {
        assert ';' !in ps[i];
      }
    }
    assert JoinPieces(ps) == "AAAAA;;  #BBB ;;CD" by {
      assert JoinPieces(ps[2..]) == "CD";
    }
    PiecesUnique(ps);
  }

  /** A text whose first character is a letter has no command word. */
  lemma NoCommandWord(s: string)
    requires s != [] && 'A' <= s[0] <= 'Z'
    ensures CommandWord(s).None?
  {
    assert SkipSpaces(s, 0) == 0;
    assert Words(s)[0] == s[0..SkipWord(s, 0)];
  }

  lemma BbbUnknown()
    ensures SingleEvents("  #BBB ") == [WarningEvent("Unknown Turtle command: " + "  #BBB ")]
  {
    BbbCommandWord();
    assert "bbb" != "connect" && "bbb" != "scroll";
  }

  lemma BbbCommandWord()
    ensures CommandWord("  #BBB ") == Some("bbb")
  {
    var s := "  #BBB ";
    assert SkipSpaces(s, 0) == 2;
    assert SkipWord(s, 2) == 6;
    assert Words(s)[0] == s[2..6] == "#BBB";
    assert JavaText.ToLowerAscii("BBB") == "bbb";
  }
}
