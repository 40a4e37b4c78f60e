/** ScrollCommand: `#scroll up`, `#scroll down` and `#scroll toggle`. */
module ScrollCommands {
  import opened Wrappers
  import JavaText
  import opened CommandParsers

  /** The direction a scroll command asks for. */
  datatype Direction = Up | Down | Toggle

  /** The text after the command word, lower-cased: what parse compares. */
  function Argument(text: string): string
  {
    JavaText.ToLowerAscii(From(text, 1))
  }

  /** parse: the direction named by the argument, or the warning that
    * parseError posts. */
  function ScrollResult(text: string): (r: Result<Direction>)
    requires CommandWord(text).Some?
  {
    var cmd := CommandWord(text).value;
    if cmd != "scroll" then Failure("ERROR: ScrollCommand.parse called when command is [" + cmd + "]")
    else
      var direction := Argument(text);
      if direction == "up" then Success(Up)
      else if direction == "down" then Success(Down)
      else if direction == "toggle" then Success(Toggle)
      else Failure("Unexpected argument [" + direction + "]: expected up, down or toggle.")
  }

  /** parse(text, parser); the parser must recognise a command word, as the
    * Java dereferences queryCommand's result. */
  method Parse(text: string) returns (r: Result<Direction>)
    requires CommandWord(text).Some?
    ensures r == ScrollResult(text)
  {
    var cmd := QueryCommand(text);
    if cmd.value != "scroll" {
      var again := QueryCommand(text);
      return Failure("ERROR: ScrollCommand.parse called when command is [" + again.value + "]");
    }
    var rest := WordsFrom(text, 1);
    var direction := JavaText.ToLowerAscii(rest);
    if direction == "up" {
      return Success(Up);
    }
    if direction == "down" {
      return Success(Down);
    }
    if direction == "toggle" {
      return Success(Toggle);
    }
    return Failure("Unexpected argument [" + direction + "]: expected up, down or toggle.");
  }

  /** The three directions and the errors: a scroll command succeeds exactly
    * when the rest of the line, lower-cased, is one of the three names. */
  lemma ScrollCases(text: string)
    requires CommandWord(text).Some?
    ensures ScrollResult(text) == Success(Up) <==> CommandWord(text).value == "scroll" && Argument(text) == "up"
    ensures ScrollResult(text) == Success(Down) <==> CommandWord(text).value == "scroll" && Argument(text) == "down"
    ensures ScrollResult(text) == Success(Toggle) <==> CommandWord(text).value == "scroll" && Argument(text) == "toggle"
    ensures ScrollResult(text).Failure? <==>
      CommandWord(text).value != "scroll" || Argument(text) !in {"up", "down", "toggle"}
  {
  }

  /** An argument of more than one word is an error: the rest of the line
    * then holds a space, which no direction name does. */
  lemma ExtraWordsRejected(text: string)
    requires CommandWord(text).Some? && |Words(text)| >= 3
    ensures ScrollResult(text).Failure?
  {
    FromHoldsLaterWords(text, 1);
    SpaceBetweenWords(From(text, 1));
    LowerKeepsSpace(From(text, 1));
    SpacedArgumentRejected(text);
  }

  /** An argument holding a space names no direction. */
  lemma SpacedArgumentRejected(text: string)
    requires CommandWord(text).Some? && ' ' in Argument(text)
    ensures ScrollResult(text).Failure?
  {
    assert ' ' !in "up" && ' ' !in "down" && ' ' !in "toggle";
  }

  /** Text with two words holds a space. */
  lemma SpaceBetweenWords(s: string)
    requires |Words(s)| >= 2
    ensures ' ' in s
  {
    var j := SkipWord(s, SkipSpaces(s, 0));
    assert j < |s|;
  }

  lemma LowerKeepsSpace(s: string)
    requires ' ' in s
    ensures ' ' in JavaText.ToLowerAscii(s)
  {
    var k :| 0 <= k < |s| && s[k] == ' ';
    assert JavaText.ToLowerAscii(s)[k] == ' ';
  }

  /** Any capitalisation of the direction names is accepted. */
  lemma CapitalsAccepted(text: string)
    requires CommandWord(text).Some? && CommandWord(text).value == "scroll" && From(text, 1) == "UP"
    ensures ScrollResult(text) == Success(Up)
  {
    assert JavaText.ToLowerAscii("UP") == "up";
  }
}
