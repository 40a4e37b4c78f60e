/** Factories for the colours and layouts used throughout the client. */
module LayoutCreator {
  import opened Wrappers
  import opened Colours
  import opened AttributeGroups

  /** getAnsiColour(code, bright): fails like the AnsiColour constructor. */
  function GetAnsiColour(code: int, bright: bool): Result<Colour>
  {
    NewAnsiBright(code, bright)
  }

  function GetDefaultColour(front: bool, bright: bool): Colour
  {
    NewDefault(front, bright)
  }

  /** The eight named getters getBlack .. getWhite, by basic colour code. */
  function GetBasicColour(code: int, bright: bool): (c: Colour)
    requires COL_BLACK <= code <= COL_WHITE
    ensures Colours.Valid(c) && c == Ansi(if bright then code + 8 else code)
    ensures GetAnsiColour(code, bright) == Success(c)
  {
    GetAnsiColour(code, bright).value
  }

  function GetBlack(bright: bool): Colour { GetBasicColour(COL_BLACK, bright) }
  function GetRed(bright: bool): Colour { GetBasicColour(COL_RED, bright) }
  function GetGreen(bright: bool): Colour { GetBasicColour(COL_GREEN, bright) }
  function GetYellow(bright: bool): Colour { GetBasicColour(COL_YELLOW, bright) }
  function GetBlue(bright: bool): Colour { GetBasicColour(COL_BLUE, bright) }
  function GetMagenta(bright: bool): Colour { GetBasicColour(COL_MAGENTA, bright) }
  function GetCyan(bright: bool): Colour { GetBasicColour(COL_CYAN, bright) }
  function GetWhite(bright: bool): Colour { GetBasicColour(COL_WHITE, bright) }

  function GetDefaultFront(bright: bool): Colour { GetDefaultColour(true, bright) }

  function GetDefaultBack(): Colour { GetDefaultColour(false, false) }

  /** The named getters give the basic colours black .. white by their names,
    * in bright or normal variant, and the default back is the non-bright one. */
  lemma NamedGetters(bright: bool)
    ensures var k := if bright then 8 else 0;
      GetBlack(bright) == Ansi(k) && GetRed(bright) == Ansi(k + 1)
      && GetGreen(bright) == Ansi(k + 2) && GetYellow(bright) == Ansi(k + 3)
      && GetBlue(bright) == Ansi(k + 4) && GetMagenta(bright) == Ansi(k + 5)
      && GetCyan(bright) == Ansi(k + 6) && GetWhite(bright) == Ansi(k + 7)
    ensures ColourName(GetBlack(false)) == "black" && ColourName(GetWhite(true)) == "brightwhite"
    ensures GetDefaultBack() == Default(0) && GetDefaultFront(bright) == Default(if bright then 3 else 1)
  {
  }

  /** getSimpleColourLayout: the default background, the given foreground and BOLD iff bold. */
  function GetSimpleColourLayout(c: Colour, bold: bool): (g: AttributeGroup)
    ensures g.back == GetDefaultBack() && g.front == c
    ensures QueryBold(g) == bold
    ensures forall a :: IsAttribute(a) && a != ATT_BOLD ==> !HasAttribute(g, a)
  {
    AttributeGroup(GetDefaultBack(), c, if bold then ATT_BOLD else ATT_NORMAL)
  }

  /** getAnsiLayout: an ANSI foreground brightened iff bold, BOLD iff bold. */
  function GetAnsiLayout(ansicode: int, bold: bool): (r: Result<AttributeGroup>)
    ensures r.Success? <==> 0 <= ansicode && ansicode + (if bold then 8 else 0) < 16
    ensures r.Success? ==> r.value.front == Ansi(ansicode + if bold then 8 else 0)
    ensures r.Success? ==> r.value.back == Default(0) && QueryBold(r.value) == bold && AttributeGroups.Valid(r.value)
  {
    var c := GetAnsiColour(ansicode, bold);
    if c.Failure? then Failure(c.error) else Success(GetSimpleColourLayout(c.value, bold))
  }

  /** getForeBackLayout: a default colour as foreground, brightened iff bold, BOLD iff bold, no other attribute. */
  function GetForeBackLayout(front: bool, bold: bool): (g: AttributeGroup)
    ensures AttributeGroups.Valid(g)
    ensures g.front == Default((if bold then 2 else 0) + (if front then 1 else 0))
    ensures g.back == Default(0) && QueryBold(g) == bold
    ensures forall a :: IsAttribute(a) && a != ATT_BOLD ==> !HasAttribute(g, a)
  {
    GetSimpleColourLayout(GetDefaultColour(front, bold), bold)
  }

  /** getDefaultLayout is the layout of new AttributeGroup(). */
  function GetDefaultLayout(): (g: AttributeGroup)
    ensures g == Plain()
  {
    GetForeBackLayout(true, false)
  }
}
