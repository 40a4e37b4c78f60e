/** The four kinds of colour the client knows: the sixteen ANSI colours, the
  * 256-colour xterm palette, the four default colours and plain RGB colours.
  * Java compares colours by class and then by code, which is exactly the
  * equality of the datatype below. */
module Colours {
  import opened Wrappers
  import JavaText

  const COL_BLACK: int := 0
  const COL_RED: int := 1
  const COL_GREEN: int := 2
  const COL_YELLOW: int := 3
  const COL_BLUE: int := 4
  const COL_MAGENTA: int := 5
  const COL_CYAN: int := 6
  const COL_WHITE: int := 7

  /** A java.awt.Color without its alpha channel, which is always opaque here. */
  datatype Rgb = Rgb(red: int, green: int, blue: int)

  /** `Ansi(code)`: code 0..7 a basic colour, 8..15 its bright variant.
    * `XTerm(index)`: 0..255. `Default(code)`: 0 back, 1 front, 2 bright back,
    * 3 bright front. `RGBA(r, g, b)`: channels 0..255. */
  datatype Colour =
    | Ansi(code: int)
    | XTerm(index: int)
    | Default(code: int)
    | RGBA(red: int, green: int, blue: int)

  predicate IsChannel(x: int) { 0 <= x < 256 }

  /** The values the constructors let through. */
  predicate Valid(c: Colour)
  {
    match c
    case Ansi(code) => 0 <= code < 16
    case XTerm(index) => 0 <= index < 256
    case Default(code) => 0 <= code < 4
    case RGBA(r, g, b) => IsChannel(r) && IsChannel(g) && IsChannel(b)
  }

  // ---------------------------------------------------------------- constructors

  /** new AnsiColour(code): an Error outside 0..15. */
  function NewAnsi(code: int): (r: Result<Colour>)
    ensures r.Success? <==> 0 <= code < 16
    ensures r.Success? ==> r.value == Ansi(code) && Valid(r.value)
  {
    if code < 0 || code >= 16 then Failure("Illegal ansicode: " + JavaText.IntToString(code))
    else Success(Ansi(code))
  }

  /** new AnsiColour(code, bright) as written: the range test is made before 8 is
    * added, so codes 8..15 with `bright` give codes 16..23 that name no colour. */
  function NewAnsiBrightAsWritten(code: int, bright: bool): Result<Colour>
  {
    if code < 0 || code >= 16 then Failure("Illegal ansicode: " + JavaText.IntToString(code))
    else Success(Ansi(code + if bright then 8 else 0))
  }

  lemma AnsiBrightAsWrittenEscapes()
    ensures NewAnsiBrightAsWritten(8, true) == Success(Ansi(16))
    ensures !Valid(Ansi(16))
  {
  }

  /** new AnsiColour(code, bright) with the upper range test made on the final
    * code, which is what the other constructor and every use of the code
    * expect; a negative code is refused, bright or not, as in the Java. */
  function NewAnsiBright(code: int, bright: bool): (r: Result<Colour>)
    ensures r.Success? <==> 0 <= code && code + (if bright then 8 else 0) < 16
    ensures r.Success? ==> Valid(r.value) && r.value == Ansi(code + if bright then 8 else 0)
  {
    var full := code + if bright then 8 else 0;
    if code < 0 || full >= 16 then Failure("Illegal ansicode: " + JavaText.IntToString(code))
    else Success(Ansi(full))
  }

  /** new XTermColour(number): an Error outside 0..255. */
  function NewXTerm(number: int): (r: Result<Colour>)
    ensures r.Success? <==> 0 <= number < 256
    ensures r.Success? ==> r.value == XTerm(number) && Valid(r.value)
  {
    if number < 0 || number >= 256 then
      Failure("XTermColour created with illegal index: " + JavaText.IntToString(number))
    else Success(XTerm(number))
  }

  /** new XTermColour(r, g, b) for a point of the 6x6x6 colour cube. */
  function NewXTermCube(r: int, g: int, b: int): Result<Colour>
  {
    if r < 0 || g < 0 || b < 0 then Failure("XTermColour created with negative r/g/b")
    else if r > 5 || g > 5 || b > 5 then Failure("XTermColour created with too large r/g/b")
    else Success(XTerm(16 + r * 36 + 6 * g + b))
  }

  /** new DefaultColour(front, bright). */
  function NewDefault(front: bool, bright: bool): Colour
  {
    Default((if bright then 2 else 0) + (if front then 1 else 0))
  }

  /** new RGBAColour(red, green, blue): java.awt.Color refuses channels outside 0..255. */
  function NewRGBA(red: int, green: int, blue: int): (r: Result<Colour>)
    ensures r.Success? <==> IsChannel(red) && IsChannel(green) && IsChannel(blue)
    ensures r.Success? ==> r.value == RGBA(red, green, blue) && Valid(r.value)
  {
    if IsChannel(red) && IsChannel(green) && IsChannel(blue) then Success(RGBA(red, green, blue))
    else Failure("Color parameter outside of expected range")
  }

  lemma DefaultCodes(front: bool, bright: bool)
    ensures Valid(NewDefault(front, bright))
    ensures NewDefault(front, bright).code % 2 == 1 <==> front
    ensures NewDefault(front, bright).code >= 2 <==> bright
  {
  }

  // ---------------------------------------------------------------- xterm channels

  function CubeLevel(d: int): int { if d == 0 then 0 else 55 + 40 * d }

  /** The RGB value XTermColour computes for the colour cube (16..231) and the
    * grey ramp (232..255); the first sixteen indexes borrow the ANSI palette,
    * which is not part of this model. */
  function XTermRgb(index: int): (c: Rgb)
    requires 16 <= index < 256
    ensures IsChannel(c.red) && IsChannel(c.green) && IsChannel(c.blue)
  {
    if index < 232 then
      var m := index - 16;
      Rgb(CubeLevel(m / 36), CubeLevel(m / 6 % 6), CubeLevel(m % 6))
    else
      var k := 8 + 10 * (index - 232);
      Rgb(k, k, k)
  }

  /** A cube point gets the index 16 + 36r + 6g + b, and that index shows the
    * cube levels of r, g and b. */
  lemma XTermCubeColour(r: int, g: int, b: int)
    requires 0 <= r <= 5 && 0 <= g <= 5 && 0 <= b <= 5
    ensures NewXTermCube(r, g, b).Success?
    ensures var c := NewXTermCube(r, g, b).value;
      c.XTerm? && 16 <= c.index < 232 && XTermRgb(c.index) == Rgb(CubeLevel(r), CubeLevel(g), CubeLevel(b))
  {
    var m := r * 36 + 6 * g + b;
    assert m == (r * 6 + g) * 6 + b;
    assert m % 6 == b && m / 6 == r * 6 + g;
    assert m / 36 == r && m / 6 % 6 == g;
  }

  lemma XTermCubeErrors(r: int, g: int, b: int)
    ensures NewXTermCube(r, g, b).Failure? <==> !(0 <= r <= 5 && 0 <= g <= 5 && 0 <= b <= 5)
  {
  }

  /** The grey ramp climbs in steps of ten from 8 to 238. */
  lemma XTermGreys(index: int)
    requires 232 <= index < 256
    ensures XTermRgb(index) == Rgb(8 + 10 * (index - 232), 8 + 10 * (index - 232), 8 + 10 * (index - 232))
    ensures 8 <= XTermRgb(index).red <= 238
  {
  }

  // ---------------------------------------------------------------- brightness

  /** brightenedColour. */
  function Brightened(c: Colour): Colour
  {
    match c
    case Ansi(code) => if code < 8 then Ansi(code + 8) else c
    case XTerm(index) => if index < 8 then XTerm(index + 8) else c
    case Default(code) => NewDefault(code % 2 == 1, true)
    case RGBA(_, _, _) => c
  }

  /** unbrightenedColour. */
  function Unbrightened(c: Colour): Colour
  {
    match c
    case Ansi(code) => if code >= 8 then Ansi(code - 8) else c
    case XTerm(index) => if 8 <= index < 16 then XTerm(index - 8) else c
    case Default(code) => NewDefault(code % 2 == 1, false)
    case RGBA(_, _, _) => c
  }

  lemma BrightnessKeepsValidity(c: Colour)
    requires Valid(c)
    ensures Valid(Brightened(c)) && Valid(Unbrightened(c))
  {
  }

  /** Brightening twice is brightening once, and so for unbrightening. */
  lemma BrightnessIdempotent(c: Colour)
    requires Valid(c)
    ensures Brightened(Brightened(c)) == Brightened(c)
    ensures Unbrightened(Unbrightened(c)) == Unbrightened(c)
  {
    if c.Default? {
      var front := c.code % 2 == 1;
      DefaultCodes(front, true);
      DefaultCodes(front, false);
    }
  }

  /** Brightness behaves as one flag: each operation forgets what the other did. */
  lemma BrightnessAbsorbs(c: Colour)
    requires Valid(c)
    ensures Unbrightened(Brightened(c)) == Unbrightened(c)
    ensures Brightened(Unbrightened(c)) == Brightened(c)
  {
    if c.Default? {
      var front := c.code % 2 == 1;
      DefaultCodes(front, true);
      DefaultCodes(front, false);
    }
  }

  /** Only the basic ANSI, the first sixteen xterm and the default colours have
    * a bright variant that differs from them. */
  lemma BrightenChanges(c: Colour)
    requires Valid(c)
    ensures Brightened(c) != c <==>
      (c.Ansi? && c.code < 8) || (c.XTerm? && c.index < 8) || (c.Default? && c.code < 2)
  {
  }

  // ---------------------------------------------------------------- names

  const BaseNames: seq<string> := ["black", "red", "green", "yellow", "blue", "magenta", "cyan", "white"]

  predicate IsHexDigit(ch: char) { '0' <= ch <= '9' || 'a' <= ch <= 'f' }

  function HexDigit(d: int): (ch: char)
    requires 0 <= d < 16
    ensures IsHexDigit(ch)
  {
    if d < 10 then ('0' as int + d) as char else ('a' as int + d - 10) as char
  }

  function HexValue(ch: char): (d: int)
    requires IsHexDigit(ch)
    ensures 0 <= d < 16
  {
    if ch <= '9' then ch as int - '0' as int else ch as int - 'a' as int + 10
  }

  /** Integer.toHexString of a non-negative number: lower-case, no leading zeros. */
  function ToHexString(n: nat): (s: string)
    ensures |s| >= 1
    decreases n
  {
    if n < 16 then [HexDigit(n)] else ToHexString(n / 16) + [HexDigit(n % 16)]
  }

  /** RGBAColour.hexify: a channel as two lower-case hex digits. */
  function Hexify(num: nat): string
  {
    (if num < 16 then "0" else "") + ToHexString(num)
  }

  lemma HexifyDigits(num: int)
    requires IsChannel(num)
    ensures Hexify(num) == [HexDigit(num / 16), HexDigit(num % 16)]
  {
    if num >= 16 {
      assert ToHexString(num / 16) == [HexDigit(num / 16)];
    }
  }

  function XTermName(index: nat): string
  {
    "x" + (if index < 10 then "00" else if index < 100 then "0" else "") + JavaText.NatToString(index)
  }

  /** colourName. */
  function ColourName(c: Colour): string
    requires Valid(c)
  {
    match c
    case Ansi(code) => if code < 8 then BaseNames[code] else "bright" + BaseNames[code - 8]
    case XTerm(index) => XTermName(index)
    case Default(code) => ["defaultback", "defaultfront", "brightdefaultback", "brightdefaultfront"][code]
    case RGBA(r, g, b) => Hexify(r) + Hexify(g) + Hexify(b)
  }

  /** The index of a basic colour name, if it is one. */
  function BaseIndex(s: string): (r: Option<int>)
    ensures r.Some? ==> 0 <= r.value < 8 && BaseNames[r.value] == s
  {
    if s == "black" then Some(0) else if s == "red" then Some(1)
    else if s == "green" then Some(2) else if s == "yellow" then Some(3)
    else if s == "blue" then Some(4) else if s == "magenta" then Some(5)
    else if s == "cyan" then Some(6) else if s == "white" then Some(7)
    else None
  }

  function DefaultIndex(s: string): Option<int>
  {
    if s == "defaultback" then Some(0) else if s == "defaultfront" then Some(1)
    else if s == "brightdefaultback" then Some(2) else if s == "brightdefaultfront" then Some(3)
    else None
  }

  function HexPair(s: string): int
    requires |s| == 2 && IsHexDigit(s[0]) && IsHexDigit(s[1])
  {
    HexValue(s[0]) * 16 + HexValue(s[1])
  }

  /** Reads a colour back from its name: the inverse of ColourName. */
  function ColourFromName(s: string): Option<Colour>
  {
    if BaseIndex(s).Some? then Some(Ansi(BaseIndex(s).value))
    else if |s| >= 6 && s[..6] == "bright" && BaseIndex(s[6..]).Some? then Some(Ansi(8 + BaseIndex(s[6..]).value))
    else if DefaultIndex(s).Some? then Some(Default(DefaultIndex(s).value))
    else if |s| == 4 && s[0] == 'x' && JavaText.AllDigits(s[1..]) then Some(XTerm(JavaText.DigitsValue(s[1..])))
    else if |s| == 6 && forall i :: 0 <= i < 6 ==> IsHexDigit(s[i]) then
      Some(RGBA(HexPair(s[0..2]), HexPair(s[2..4]), HexPair(s[4..6])))
    else None
  }

  lemma BaseIndexOfName(k: int)
    requires 0 <= k < 8
    ensures BaseIndex(BaseNames[k]) == Some(k)
  {
  }

  lemma {:induction false} DigitsValueAppend(s: string, t: string)
    requires JavaText.AllDigits(s) && JavaText.AllDigits(t) && |t| == 1
    ensures JavaText.AllDigits(s + t)
    ensures JavaText.DigitsValue(s + t) == JavaText.DigitsValue(s) * 10 + JavaText.DigitValue(t[0])
  {
    assert (s + t)[..|s + t| - 1] == s;
  }

  lemma {:induction false} DigitsValueZeroPrefix(s: string)
    requires JavaText.AllDigits(s)
    ensures JavaText.AllDigits("0" + s) && JavaText.DigitsValue("0" + s) == JavaText.DigitsValue(s)
    decreases |s|
  {
    if s != [] {
      var init := s[..|s| - 1];
      DigitsValueZeroPrefix(init);
      assert ("0" + s)[..|"0" + s| - 1] == "0" + init;
    }
  }

  lemma XTermNameShape(index: int)
    requires 0 <= index < 256
    ensures |XTermName(index)| == 4 && XTermName(index)[0] == 'x'
    ensures JavaText.AllDigits(XTermName(index)[1..])
    ensures JavaText.DigitsValue(XTermName(index)[1..]) == index
  {
    var digits := JavaText.NatToString(index);
    JavaText.DigitsValueOfNatToString(index);
    if index < 10 {
      OneDigitXTermName(index, digits);
    } else if index < 100 {
      TwoDigitXTermName(index, digits);
    } else {
      ThreeDigitXTermName(index, digits);
    }
  }

  /** x00 and one digit. */
  lemma OneDigitXTermName(index: nat, digits: string)
    requires index < 10 && digits == JavaText.NatToString(index)
    requires JavaText.AllDigits(digits) && JavaText.DigitsValue(digits) == index
    ensures |XTermName(index)| == 4 && XTermName(index)[1..] == "0" + ("0" + digits)
    ensures JavaText.AllDigits(XTermName(index)[1..]) && JavaText.DigitsValue(XTermName(index)[1..]) == index
  {
    assert |digits| == 1;
    DigitsValueZeroPrefix(digits);
    DigitsValueZeroPrefix("0" + digits);
    assert XTermName(index)[1..] == "0" + ("0" + digits);
  }

  /** x0 and two digits. */
  lemma TwoDigitXTermName(index: nat, digits: string)
    requires 10 <= index < 100 && digits == JavaText.NatToString(index)
    requires JavaText.AllDigits(digits) && JavaText.DigitsValue(digits) == index
    ensures |XTermName(index)| == 4 && XTermName(index)[1..] == "0" + digits
    ensures JavaText.AllDigits(XTermName(index)[1..]) && JavaText.DigitsValue(XTermName(index)[1..]) == index
  {
    assert digits == JavaText.NatToString(index / 10) + [JavaText.DigitChar(index % 10)];
    assert |digits| == 2;
    DigitsValueZeroPrefix(digits);
    assert XTermName(index)[1..] == "0" + digits;
  }

  /** x and three digits. */
  lemma ThreeDigitXTermName(index: nat, digits: string)
    requires 100 <= index < 256 && digits == JavaText.NatToString(index)
    requires JavaText.AllDigits(digits) && JavaText.DigitsValue(digits) == index
    ensures |XTermName(index)| == 4 && XTermName(index)[1..] == digits
    ensures JavaText.AllDigits(XTermName(index)[1..]) && JavaText.DigitsValue(XTermName(index)[1..]) == index
  {
    assert digits == JavaText.NatToString(index / 10) + [JavaText.DigitChar(index % 10)];
    assert JavaText.NatToString(index / 10) == JavaText.NatToString(index / 100) + [JavaText.DigitChar(index / 10 % 10)];
    assert |digits| == 3;
    assert XTermName(index)[1..] == digits;
  }

  lemma HexNameShape(c: Colour)
    requires c.RGBA? && Valid(c)
    ensures var s := ColourName(c);
      |s| == 6 && (forall i :: 0 <= i < 6 ==> IsHexDigit(s[i]))
      && HexPair(s[0..2]) == c.red && HexPair(s[2..4]) == c.green && HexPair(s[4..6]) == c.blue
  {
    HexifyDigits(c.red);
    HexifyDigits(c.green);
    HexifyDigits(c.blue);
  }

  /** Every name is read back as the colour it names, so colourName is the
    * unique representation it is meant to be. */
  lemma ColourFromNameOfColourName(c: Colour)
    requires Valid(c)
    ensures ColourFromName(ColourName(c)) == Some(c)
  {
    match c
    case Ansi(code) =>
      if code < 8 {
        BaseIndexOfName(code);
      } else {
        BrightNameRead(code);
      }
    case XTerm(index) => XTermNameRead(index);
    case Default(code) => DefaultNameRead(code);
    case RGBA(r, g, b) => HexNameRead(c);
  }

  lemma BrightNameRead(code: int)
    requires 8 <= code < 16
    ensures ColourFromName(ColourName(Ansi(code))) == Some(Ansi(code))
  {
    var s := ColourName(Ansi(code));
    BaseIndexOfName(code - 8);
    assert s[..6] == "bright" && s[6..] == BaseNames[code - 8];
    assert BaseIndex(s) == None;
  }

  lemma XTermNameRead(index: int)
    requires 0 <= index < 256
    ensures ColourFromName(ColourName(XTerm(index))) == Some(XTerm(index))
  {
    var s := ColourName(XTerm(index));
    XTermNameShape(index);
    assert BaseIndex(s) == None;
    assert DefaultIndex(s) == None;
  }

  lemma DefaultNameRead(code: int)
    requires 0 <= code < 4
    ensures ColourFromName(ColourName(Default(code))) == Some(Default(code))
  {
    var s := ColourName(Default(code));
    assert BaseIndex(s) == None;
    assert BaseIndex(s[6..]) == None;
  }

  lemma HexNameRead(c: Colour)
    requires c.RGBA? && Valid(c)
    ensures ColourFromName(ColourName(c)) == Some(c)
  {
    var s := ColourName(c);
    HexNameShape(c);
    assert BaseIndex(s) == None by {
      assert s != "yellow" by { assert IsHexDigit(s[0]); }
    }
    assert DefaultIndex(s) == None;
  }

  lemma ColourNameInjective(c: Colour, d: Colour)
    requires Valid(c) && Valid(d) && ColourName(c) == ColourName(d)
    ensures c == d
  {
    ColourFromNameOfColourName(c);
    ColourFromNameOfColourName(d);
  }
}
