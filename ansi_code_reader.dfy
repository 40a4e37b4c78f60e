/** The ANSI SGR reader: it cuts incoming text into plain text and escape
  * sequences, keeps an unfinished escape sequence until the next call, and
  * folds every SGR sequence (ECMA-48 section 8.3.117, with the xterm 256-colour
  * and 24-bit extensions) into the current character layout. */
module AnsiCodes {
  import opened Wrappers
  import JavaText
  import opened Colours
  import opened AttributeGroups
  import opened LayoutedTexts

  const ESC: char := 27 as char

  // ================================================================ single SGR fields

  /** attributeByChar: the attribute a digit stands for in 1..9 and 2X. */
  function AttributeByChar(code: char): (a: bv32)
    ensures a == ATT_NORMAL || IsAttribute(a)
  {
    if code == '1' then ATT_BOLD
    else if code == '2' then ATT_DIM
    else if code == '3' then ATT_ITALIC
    else if code == '4' then ATT_UNDERLINE
    else if code == '5' || code == '6' then ATT_BLINK
    else if code == '7' then ATT_REVERSE
    else if code == '8' then ATT_INVISIBLE
    else if code == '9' then ATT_STRIKETHROUGH
    else ATT_NORMAL
  }

  /** handleAttributeAddCommand: a one-character field sets the attribute; BOLD
    * also brightens the foreground. */
  function HandleAttributeAdd(cmd: string, original: AttributeGroup): AttributeGroup
    requires |cmd| >= 1
  {
    var adding := AttributeByChar(cmd[0]);
    var layout := if adding == ATT_BOLD then ReplaceForegroundColour(original, Brightened(original.front)) else original;
    AddAttribute(layout, AttributeByChar(cmd[0]))
  }

  /** handleAttributeDeleteCommand: 2X clears attribute X, and 21 unbrightens
    * the foreground. For 22 it clears DIM and unbrightens the foreground, but
    * its last step deletes the attribute of the digit again (DIM): BOLD stays
    * set, although the comment above the Java method says 22 turns off both. */
  function HandleAttributeDelete(cmd: string, original: AttributeGroup): AttributeGroup
    requires |cmd| >= 2
  {
    DeleteAttributeOf(AttributeByChar(cmd[1]), original)
  }

  /** The body of handleAttributeDeleteCommand, for the attribute of the digit. */
  function DeleteAttributeOf(removing: bv32, original: AttributeGroup): AttributeGroup
  {
    var layout1 := if removing == ATT_DIM then DelAttribute(original, ATT_DIM) else original;
    var removing1 := if removing == ATT_DIM then ATT_BOLD else removing;
    var layout2 := if removing1 == ATT_BOLD then ReplaceForegroundColour(layout1, Unbrightened(layout1.front)) else layout1;
    DelAttribute(layout2, removing)
  }

  predicate IsBasicDigit(c: char) { '0' <= c <= '7' }

  /** handleFrontColourCommand: 3X and 9X; 9X and a bold layout give the bright variant. */
  function HandleFrontColour(cmd: string, original: AttributeGroup): AttributeGroup
    requires |cmd| >= 2
  {
    var n := cmd[1];
    var bold := QueryBold(original) || cmd[0] == '9';
    var c :=
      if IsBasicDigit(n) then NewAnsiBright(n as int - '0' as int, bold).value
      else if n == '9' then NewDefault(true, bold)
      else original.front;
    ReplaceForegroundColour(original, c)
  }

  /** handleBackColourCommand: 4X a normal and 10X a bright background. */
  function HandleBackColour(cmd: string, original: AttributeGroup): AttributeGroup
    requires |cmd| >= 2 && (cmd[0] == '1' ==> |cmd| >= 3)
  {
    var bold := cmd[0] == '1';
    var n := if bold then cmd[2] else cmd[1];
    var c :=
      if IsBasicDigit(n) then NewAnsiBright(n as int - '0' as int, bold).value
      else if n == '9' then NewDefault(false, bold)
      else original.back;
    ReplaceBackgroundColour(original, c)
  }

  /** handleXTermFrontColourCommand: 38;5;x, brightened when the layout is bold;
    * an unparsable or out-of-range x changes nothing. */
  function HandleXTermFrontColour(x: string, original: AttributeGroup): AttributeGroup
  {
    var num := JavaText.ParseInt(x);
    if num.Some? && 0 <= num.value < 256 then
      var c := XTerm(num.value);
      ReplaceForegroundColour(original, if QueryBold(original) then Brightened(c) else c)
    else original
  }

  /** handleXTermBackColourCommand: 48;5;x. */
  function HandleXTermBackColour(x: string, original: AttributeGroup): AttributeGroup
  {
    var num := JavaText.ParseInt(x);
    if num.Some? && 0 <= num.value < 256 then ReplaceBackgroundColour(original, XTerm(num.value))
    else original
  }

  /** The three channels of a 24-bit colour, when all parse and lie in 0..255. */
  function ParseChannels(x: string, y: string, z: string): (r: Option<Colour>)
    ensures r.Some? ==> r.value.RGBA? && Colours.Valid(r.value)
  {
    var r := JavaText.ParseInt(x);
    var g := JavaText.ParseInt(y);
    var b := JavaText.ParseInt(z);
    if r.None? || g.None? || b.None? then None
    else if !IsChannel(r.value) || !IsChannel(g.value) || !IsChannel(b.value) then None
    else Some(RGBA(r.value, g.value, b.value))
  }

  /** handleFullFrontColourCommand: 38;2;r;g;b. */
  function HandleFullFrontColour(x: string, y: string, z: string, original: AttributeGroup): AttributeGroup
  {
    var c := ParseChannels(x, y, z);
    if c.Some? then ReplaceForegroundColour(original, c.value) else original
  }

  /** handleFullBackColourCommand: 48;2;r;g;b; the dispatcher never reaches it. */
  function HandleFullBackColour(x: string, y: string, z: string, original: AttributeGroup): AttributeGroup
  {
    var c := ParseChannels(x, y, z);
    if c.Some? then ReplaceBackgroundColour(original, c.value) else original
  }

  // ================================================================ SGR sequences

  /** ansiCodeParts: the fields of ESC [ ... m, split at ';' as String.split does;
    * None for anything else. */
  function AnsiCodeParts(code: string): (r: Option<seq<string>>)
    ensures r.Some? <==> |code| >= 3 && code[1] == '[' && code[|code| - 1] == 'm'
  {
    if |code| <= 1 || code[1] != '[' || code[|code| - 1] != 'm' then None
    else Some(JavaText.Split(code[2..|code| - 1], ';'))
  }

  /** nextAnsiCode: the position after the field starting at `pos` and its
    * parameters, or -1 when the field is not supported. */
  function NextAnsiCode(parts: seq<string>, pos: int): (r: int)
    requires 0 <= pos < |parts|
    ensures r == -1 || pos < r <= |parts|
  {
    var p := parts[pos];
    if |p| == 0 then pos + 1
    else if |p| == 1 then pos + 1
    else if |p| == 2 && p[1] != '8' && (p[0] == '2' || p[0] == '3' || p[0] == '4' || p[0] == '9') then pos + 1
    else if |p| == 3 && p[2] != '8' && p[0] == '1' && p[1] == '0' then pos + 1
    else if p == "38" || p == "48" then
      if pos + 2 < |parts| && parts[pos + 1] == "5" then pos + 3
      else if pos + 4 < |parts| && parts[pos + 1] == "2" then pos + 5
      else -1
    else -1
  }

  /** The branch of handleAnsiCommand for 3X, 4X, 9X and 10X. */
  function HandleBasicColour(cmd: string, layout: AttributeGroup): AttributeGroup
    requires |cmd| >= 2 && (cmd[..2] == "10" ==> |cmd| >= 3)
  {
    var layout1 := if cmd[0] == '3' || cmd[0] == '9' then HandleFrontColour(cmd, layout) else layout;
    if cmd[0] == '4' || cmd[..2] == "10" then HandleBackColour(cmd, layout1) else layout1
  }

  /** handleAnsiCommand for a field that nextAnsiCode approved, ending at `end`.
    * Its last branch tests for "5" where "2" is meant, so it can never be
    * taken: a 48;2;r;g;b field is approved but changes nothing. */
  function HandleAnsiCommand(layout: AttributeGroup, parts: seq<string>, start: int, end: int): AttributeGroup
    requires 0 <= start < |parts| && end == NextAnsiCode(parts, start) && end != -1
  {
    var cmd := parts[start];
    if cmd == "" then layout
    else if cmd == "0" then Plain()
    else if |cmd| == 1 then HandleAttributeAdd(cmd, layout)
    else if cmd[0] == '2' then HandleAttributeDelete(cmd, layout)
    else if end == start + 1 then HandleBasicColour(cmd, layout)
    else if cmd == "38" && parts[start + 1] == "5" then HandleXTermFrontColour(parts[start + 2], layout)
    else if cmd == "48" && parts[start + 1] == "5" then HandleXTermBackColour(parts[start + 2], layout)
    else if cmd == "38" && parts[start + 1] == "2" then
      HandleFullFrontColour(parts[start + 2], parts[start + 3], parts[start + 4], layout)
    else if cmd == "48" && parts[start + 1] == "5" then
      // the call of handleFullBackColourCommand here is dead code
      assert false; layout
    else layout
  }

  /** The loop of adaptWithAnsi from field `i` on: each approved field in turn,
    * stopping at the first unsupported one. */
  function AdaptFrom(layout: AttributeGroup, parts: seq<string>, i: nat): AttributeGroup
    decreases |parts| - i
  {
    if i >= |parts| then layout
    else
      var next := NextAnsiCode(parts, i);
      if next == -1 then layout
      else AdaptFrom(HandleAnsiCommand(layout, parts, i, next), parts, next)
  }

  /** adaptWithAnsi: the layout after the escape sequence `ansi`, starting from a
    * copy of `original`. */
  function AdaptSpec(original: AttributeGroup, ansi: string): AttributeGroup
  {
    var parts := AnsiCodeParts(ansi);
    if parts.None? then Copy(original) else AdaptFrom(Copy(original), parts.value, 0)
  }

  /** adaptWithAnsi. */
  method AdaptWithAnsi(original: AttributeGroup, ansi: string) returns (r: AttributeGroup)
    ensures r == AdaptSpec(original, ansi)
  {
    var parts := AnsiCodeParts(ansi);
    var layout := Copy(original);
    if parts.None? {
      return layout;
    }
    var fields := parts.value;
    var i := 0;
    while i < |fields|
      invariant 0 <= i <= |fields|
      invariant AdaptFrom(layout, fields, i) == AdaptFrom(Copy(original), fields, 0)
      decreases |fields| - i
    {
      var nextpos := NextAnsiCode(fields, i);
      if nextpos == -1 {
        return layout;
      }
      layout := HandleAnsiCommand(layout, fields, i, nextpos);
      i := nextpos;
    }
    return layout;
  }

  // ---------------------------------------------------------------- what single fields do

  /** Field 0 resets to the default layout. */
  lemma ResetField(g: AttributeGroup, parts: seq<string>, i: nat)
    requires i < |parts| && parts[i] == "0"
    ensures NextAnsiCode(parts, i) == i + 1
    ensures HandleAnsiCommand(g, parts, i, i + 1) == Plain()
  {
  }

  /** Field X (one character) sets the attribute X stands for; 1 (bold) also
    * brightens the foreground. A character that stands for no attribute changes nothing. */
  lemma SetAttributeField(g: AttributeGroup, c: char, parts: seq<string>, i: nat, b: bv32)
    requires i < |parts| && parts[i] == [c] && c != '0' && IsAttribute(b)
    ensures NextAnsiCode(parts, i) == i + 1
    ensures var h := HandleAnsiCommand(g, parts, i, i + 1);
      h.back == g.back
      && h.front == (if c == '1' then Brightened(g.front) else g.front)
      && (HasAttribute(h, b) <==> b == AttributeByChar(c) || HasAttribute(g, b))
  {
    var a := AttributeByChar(c);
    var g1 := if a == ATT_BOLD then ReplaceForegroundColour(g, Brightened(g.front)) else g;
    if a == ATT_NORMAL {
      assert g.attributes | 0 == g.attributes;
    } else {
      AddAttributeEffect(g1, a, b);
    }
  }

  /** What the delete handler does with the attribute a of digit X. */
  predicate DeletesAs(g: AttributeGroup, a: bv32, b: bv32, h: AttributeGroup)
  {
    h.back == g.back
    && h.front == (if a == ATT_BOLD || a == ATT_DIM then Unbrightened(g.front) else g.front)
    && (HasAttribute(h, b) <==> HasAttribute(g, b) && b != a)
  }

  /** handleAttributeDeleteCommand on 2X: X's attribute cleared and no other;
    * for 21 and 22 the foreground unbrightened. */
  lemma DeleteEffect(g: AttributeGroup, a: bv32, b: bv32)
    requires IsAttribute(b) && (IsAttribute(a) || a == ATT_NORMAL)
    ensures DeletesAs(g, a, b, DeleteAttributeOf(a, g))
  {
    if a == ATT_DIM {
      DeleteDimEffect(g, b);
    } else if a == ATT_NORMAL {
      DeleteNormalEffect(g, b);
    } else {
      DeleteOtherEffect(g, a, b);
    }
  }

  lemma DeleteNormalEffect(g: AttributeGroup, b: bv32)
    requires IsAttribute(b)
    ensures DeletesAs(g, ATT_NORMAL, b, DeleteAttributeOf(ATT_NORMAL, g))
  {
    var x := g.attributes;
    assert (x & 511) & b == x & (511 & b);
  }

  lemma DeleteOtherEffect(g: AttributeGroup, a: bv32, b: bv32)
    requires IsAttribute(b) && IsAttribute(a) && a != ATT_DIM
    ensures DeletesAs(g, a, b, DeleteAttributeOf(a, g))
  {
    var g1 := if a == ATT_BOLD then ReplaceForegroundColour(g, Unbrightened(g.front)) else g;
    DelAttributeEffect(g1, a, b);
  }

  lemma DeleteDimEffect(g: AttributeGroup, b: bv32)
    requires IsAttribute(b)
    ensures DeletesAs(g, ATT_DIM, b, DeleteAttributeOf(ATT_DIM, g))
  {
    var g1 := DelAttribute(g, ATT_DIM);
    DelAttributeEffect(g, ATT_DIM, b);
    DelAttributeEffect(g1.(front := Unbrightened(g1.front)), ATT_DIM, b);
  }

  /** Field 2X clears attribute X and no other; 21 and 22 also unbrighten the
    * foreground. So 22 clears DIM but leaves BOLD as it was. */
  lemma ClearAttributeField(g: AttributeGroup, c: char, parts: seq<string>, i: nat, b: bv32)
    requires i < |parts| && parts[i] == ['2', c] && c != '8' && IsAttribute(b)
    ensures NextAnsiCode(parts, i) == i + 1
    ensures var h := HandleAnsiCommand(g, parts, i, i + 1);
      h.back == g.back
      && h.front == (if c == '1' || c == '2' then Unbrightened(g.front) else g.front)
      && (HasAttribute(h, b) <==> HasAttribute(g, b) && b != AttributeByChar(c))
  {
    assert HandleAnsiCommand(g, parts, i, i + 1) == DeleteAttributeOf(AttributeByChar(c), g);
    DeleteEffect(g, AttributeByChar(c), b);
    assert DeletesAs(g, AttributeByChar(c), b, DeleteAttributeOf(AttributeByChar(c), g));
  }

  /** The palette code of basic colour 0..7 given by the digit d, plus 8 when bright. */
  function BasicCode(d: char, bright: bool): int
    requires IsBasicDigit(d)
  {
    d as int - '0' as int + (if bright then 8 else 0)
  }

  /** Fields 3X and 9X set the foreground: ANSI colour X (bright for 9X or on a
    * bold layout), or for X = 9 the default foreground; other X change nothing. */
  lemma ForegroundField(g: AttributeGroup, c: char, d: char, parts: seq<string>, i: nat)
    requires i < |parts| && parts[i] == [c, d] && (c == '3' || c == '9') && d != '8'
    ensures NextAnsiCode(parts, i) == i + 1
    ensures var h := HandleAnsiCommand(g, parts, i, i + 1);
      var bright := c == '9' || QueryBold(g);
      h.back == g.back && h.attributes == g.attributes
      && h.front == (if IsBasicDigit(d) then Ansi(BasicCode(d, bright))
                     else if d == '9' then Default(if bright then 3 else 1)
                     else g.front)
      && Colours.Valid(h.front) == (IsBasicDigit(d) || d == '9' || Colours.Valid(g.front))
  {
  }

  /** Fields 4X and 10X set the background: ANSI colour X (bright for 10X), or
    * for X = 9 the default background; other X change nothing. */
  lemma BackgroundField(g: AttributeGroup, cmd: string, parts: seq<string>, i: nat)
    requires i < |parts| && parts[i] == cmd
    requires (|cmd| == 2 && cmd[0] == '4') || (|cmd| == 3 && cmd[..2] == "10")
    requires cmd[|cmd| - 1] != '8'
    ensures NextAnsiCode(parts, i) == i + 1
    ensures var h := HandleAnsiCommand(g, parts, i, i + 1);
      var d := cmd[|cmd| - 1];
      var bright := |cmd| == 3;
      h.front == g.front && h.attributes == g.attributes
      && h.back == (if IsBasicDigit(d) then Ansi(BasicCode(d, bright))
                    else if d == '9' then Default(if bright then 2 else 0)
                    else g.back)
  {
  }

  /** Fields 38;5;N and 48;5;N set the foreground or background to xterm colour
    * N (the foreground brightened on a bold layout) when N parses to 0..255;
    * otherwise they change nothing. */
  lemma XTermField(g: AttributeGroup, parts: seq<string>, i: nat)
    requires i + 2 < |parts| && (parts[i] == "38" || parts[i] == "48") && parts[i + 1] == "5"
    ensures NextAnsiCode(parts, i) == i + 3
    ensures var h := HandleAnsiCommand(g, parts, i, i + 3);
      var n := JavaText.ParseInt(parts[i + 2]);
      if n.None? || !(0 <= n.value < 256) then h == g
      else if parts[i] == "38" then h == g.(front := if QueryBold(g) then Brightened(XTerm(n.value)) else XTerm(n.value))
      else h == g.(back := XTerm(n.value))
  {
  }

  /** Field 38;2;R;G;B sets the foreground to the 24-bit colour when all three
    * channels parse to 0..255, and otherwise changes nothing; 48;2;R;G;B is
    * approved but never changes anything. */
  lemma TrueColourField(g: AttributeGroup, parts: seq<string>, i: nat)
    requires i + 4 < |parts| && (parts[i] == "38" || parts[i] == "48") && parts[i + 1] == "2"
    ensures NextAnsiCode(parts, i) == i + 5
    ensures var h := HandleAnsiCommand(g, parts, i, i + 5);
      var c := ParseChannels(parts[i + 2], parts[i + 3], parts[i + 4]);
      if parts[i] == "48" || c.None? then h == g
      else h == g.(front := c.value)
  {
  }

  /** Empty fields are skipped. */
  lemma EmptyField(g: AttributeGroup, parts: seq<string>, i: nat)
    requires i < |parts| && parts[i] == ""
    ensures AdaptFrom(g, parts, i) == AdaptFrom(g, parts, i + 1)
  {
  }

  /** The fields that nextAnsiCode approves, one after another from i to j. */
  predicate Reaches(parts: seq<string>, i: nat, j: nat)
    decreases |parts| - i
  {
    i == j || (i < j && i < |parts| && NextAnsiCode(parts, i) != -1 && Reaches(parts, NextAnsiCode(parts, i), j))
  }

  /** An unsupported field ends the sequence: it and every field after it are
    * ignored, whatever they are. */
  lemma {:induction false} UnsupportedFieldEndsSequence(g: AttributeGroup, parts: seq<string>, i: nat, j: nat)
    requires j < |parts| && Reaches(parts, i, j) && NextAnsiCode(parts, j) == -1
    ensures AdaptFrom(g, parts, i) == AdaptFrom(g, parts[..j], i)
    decreases |parts| - i
  {
    if i < j {
      var next := NextAnsiCode(parts, i);
      var q := parts[..j];
      assert q[i] == parts[i];
      NextAnsiCodePrefix(parts, i, j);
      if next < j {
        assert q[next] == parts[next];
      }
      UnsupportedFieldEndsSequence(HandleAnsiCommand(g, parts, i, next), parts, next, j);
      HandleAnsiCommandPrefix(g, parts, i, j);
    }
  }

  /** A field that ends by j is approved the same way in the fields before j. */
  lemma NextAnsiCodePrefix(parts: seq<string>, i: nat, j: nat)
    requires i < j <= |parts| && NextAnsiCode(parts, i) != -1 && NextAnsiCode(parts, i) <= j
    ensures NextAnsiCode(parts[..j], i) == NextAnsiCode(parts, i)
  {
    var q := parts[..j];
    assert q[i] == parts[i];
    if i + 1 < j {
      assert q[i + 1] == parts[i + 1];
    }
  }

  lemma HandleAnsiCommandPrefix(g: AttributeGroup, parts: seq<string>, i: nat, j: nat)
    requires i < j <= |parts| && NextAnsiCode(parts, i) != -1 && NextAnsiCode(parts, i) <= j
    ensures NextAnsiCode(parts[..j], i) == NextAnsiCode(parts, i)
    ensures HandleAnsiCommand(g, parts[..j], i, NextAnsiCode(parts, i)) == HandleAnsiCommand(g, parts, i, NextAnsiCode(parts, i))
  {
    NextAnsiCodePrefix(parts, i, j);
    var next := NextAnsiCode(parts, i);
    var q := parts[..j];
    assert forall k | i <= k < next :: q[k] == parts[k];
  }

  // ---------------------------------------------------------------- validity

  lemma AttributeCommandsKeepValidity(g: AttributeGroup, cmd: string)
    requires AttributeGroups.Valid(g)
    ensures |cmd| >= 1 ==> AttributeGroups.Valid(HandleAttributeAdd(cmd, g))
    ensures |cmd| >= 2 ==> AttributeGroups.Valid(HandleAttributeDelete(cmd, g))
  {
    if |cmd| >= 1 {
      AddCommandKeepsValidity(g, cmd);
    }
    if |cmd| >= 2 {
      DeleteKeepsValidity(g, AttributeByChar(cmd[1]));
    }
  }

  lemma AddCommandKeepsValidity(g: AttributeGroup, cmd: string)
    requires AttributeGroups.Valid(g) && |cmd| >= 1
    ensures AttributeGroups.Valid(HandleAttributeAdd(cmd, g))
  {
    var a := AttributeByChar(cmd[0]);
    BrightnessKeepsValidity(g.front);
    var layout := if a == ATT_BOLD then ReplaceForegroundColour(g, Brightened(g.front)) else g;
    AddKeepsValidity(layout, a);
    assert HandleAttributeAdd(cmd, g) == AddAttribute(layout, a);
  }

  lemma DeleteKeepsValidity(g: AttributeGroup, a: bv32)
    requires AttributeGroups.Valid(g)
    ensures AttributeGroups.Valid(DeleteAttributeOf(a, g))
  {
    if a == ATT_DIM {
      var g1 := DelAttribute(g, ATT_DIM);
      DelKeepsValidity(g, ATT_DIM);
      UnbrightenKeepsValidity(g1, ATT_DIM);
    } else if a == ATT_BOLD {
      UnbrightenKeepsValidity(g, ATT_BOLD);
    } else {
      DelKeepsValidity(g, a);
    }
  }

  /** Unbrightening the foreground and then deleting `a` keeps a layout valid. */
  lemma UnbrightenKeepsValidity(g: AttributeGroup, a: bv32)
    requires AttributeGroups.Valid(g)
    ensures AttributeGroups.Valid(DelAttribute(ReplaceForegroundColour(g, Unbrightened(g.front)), a))
  {
    BrightnessKeepsValidity(g.front);
    DelKeepsValidity(ReplaceForegroundColour(g, Unbrightened(g.front)), a);
  }

  lemma FrontColourKeepsValidity(g: AttributeGroup, cmd: string)
    requires |cmd| >= 2 && AttributeGroups.Valid(g)
    ensures AttributeGroups.Valid(HandleFrontColour(cmd, g))
  {
    DefaultCodes(true, true);
    DefaultCodes(true, false);
  }

  lemma BackColourKeepsValidity(g: AttributeGroup, cmd: string)
    requires |cmd| >= 2 && (cmd[0] == '1' ==> |cmd| >= 3) && AttributeGroups.Valid(g)
    ensures AttributeGroups.Valid(HandleBackColour(cmd, g))
  {
    DefaultCodes(false, true);
    DefaultCodes(false, false);
  }

  lemma XTermFrontKeepsValidity(g: AttributeGroup, x: string)
    requires AttributeGroups.Valid(g)
    ensures AttributeGroups.Valid(HandleXTermFrontColour(x, g))
  {
    var n := JavaText.ParseInt(x);
    if n.Some? && 0 <= n.value < 256 {
      BrightnessKeepsValidity(XTerm(n.value));
    }
  }

  lemma BasicColourKeepsValidity(g: AttributeGroup, cmd: string)
    requires |cmd| >= 2 && (cmd[..2] == "10" ==> |cmd| >= 3) && AttributeGroups.Valid(g)
    ensures AttributeGroups.Valid(HandleBasicColour(cmd, g))
  {
    FrontColourKeepsValidity(g, cmd);
    var g1 := if cmd[0] == '3' || cmd[0] == '9' then HandleFrontColour(cmd, g) else g;
    if cmd[0] == '4' || cmd[..2] == "10" {
      BackColourKeepsValidity(g1, cmd);
    }
  }

  lemma ColourCommandsKeepValidity(g: AttributeGroup, parts: seq<string>, i: nat, next: int)
    requires i < |parts| && next == NextAnsiCode(parts, i) && next != -1 && AttributeGroups.Valid(g)
    requires |parts[i]| >= 2 && parts[i][0] != '2'
    ensures AttributeGroups.Valid(HandleAnsiCommand(g, parts, i, next))
  {
    var cmd := parts[i];
    var h := HandleAnsiCommand(g, parts, i, next);
    if next == i + 1 {
      BasicColourKeepsValidity(g, cmd);
      assert h == HandleBasicColour(cmd, g);
    } else if cmd == "38" && parts[i + 1] == "5" {
      XTermFrontKeepsValidity(g, parts[i + 2]);
      assert h == HandleXTermFrontColour(parts[i + 2], g);
    } else if cmd == "48" && parts[i + 1] == "5" {
      XTermBackKeepsValidity(g, parts[i + 2]);
      assert h == HandleXTermBackColour(parts[i + 2], g);
    } else if cmd == "38" && parts[i + 1] == "2" {
      FullFrontKeepsValidity(g, parts[i + 2], parts[i + 3], parts[i + 4]);
      assert h == HandleFullFrontColour(parts[i + 2], parts[i + 3], parts[i + 4], g);
    } else {
      assert h == g;
    }
  }

  lemma XTermBackKeepsValidity(g: AttributeGroup, x: string)
    requires AttributeGroups.Valid(g)
    ensures AttributeGroups.Valid(HandleXTermBackColour(x, g))
  {
  }

  lemma FullFrontKeepsValidity(g: AttributeGroup, x: string, y: string, z: string)
    requires AttributeGroups.Valid(g)
    ensures AttributeGroups.Valid(HandleFullFrontColour(x, y, z, g))
  {
  }

  /** Every field keeps a layout valid. */
  lemma HandleAnsiCommandKeepsValidity(g: AttributeGroup, parts: seq<string>, i: nat, next: int)
    requires i < |parts| && next == NextAnsiCode(parts, i) && next != -1 && AttributeGroups.Valid(g)
    ensures AttributeGroups.Valid(HandleAnsiCommand(g, parts, i, next))
  {
    var cmd := parts[i];
    if cmd == "" || cmd == "0" {
    } else if |cmd| == 1 || cmd[0] == '2' {
      AttributeCommandsKeepValidity(g, cmd);
    } else {
      ColourCommandsKeepValidity(g, parts, i, next);
    }
  }

  lemma {:induction false} AdaptFromKeepsValidity(g: AttributeGroup, parts: seq<string>, i: nat)
    requires AttributeGroups.Valid(g)
    ensures AttributeGroups.Valid(AdaptFrom(g, parts, i))
    decreases |parts| - i
  {
    if i < |parts| && NextAnsiCode(parts, i) != -1 {
      var next := NextAnsiCode(parts, i);
      HandleAnsiCommandKeepsValidity(g, parts, i, next);
      AdaptFromKeepsValidity(HandleAnsiCommand(g, parts, i, next), parts, next);
    }
  }

  /** adaptWithAnsi keeps a layout valid; on a valid layout, an escape sequence
    * that is not SGR, or that has no fields, changes nothing. */
  lemma AdaptKeepsValidity(g: AttributeGroup, ansi: string)
    requires AttributeGroups.Valid(g)
    ensures AttributeGroups.Valid(AdaptSpec(g, ansi))
    ensures AnsiCodeParts(ansi).None? ==> AdaptSpec(g, ansi) == g
    ensures ansi == [ESC, '[', 'm'] ==> AdaptSpec(g, ansi) == g
  {
    CopyKeepsKnownAttributes(g);
    AdaptFromKeepsValidity(g, if AnsiCodeParts(ansi).Some? then AnsiCodeParts(ansi).value else [], 0);
    if ansi == [ESC, '[', 'm'] {
      assert ansi[2..|ansi| - 1] == "";
      assert ';' !in "";
      assert AnsiCodeParts(ansi) == Some([""]);
    }
  }

  // ================================================================ splitting text

  predicate IsParamChar(c: char) { c == ';' || '0' <= c <= '9' }

  /** The length of the run of parameter characters (digits and ';') that starts s. */
  function ParamRun(s: string): (n: nat)
    ensures n <= |s|
  {
    if s == [] || !IsParamChar(s[0]) then 0 else 1 + ParamRun(s[1..])
  }

  lemma {:induction false} ParamRunFacts(s: string)
    ensures forall i :: 0 <= i < ParamRun(s) ==> IsParamChar(s[i])
    ensures ParamRun(s) < |s| ==> !IsParamChar(s[ParamRun(s)])
  {
    if s != [] && IsParamChar(s[0]) {
      ParamRunFacts(s[1..]);
    }
  }

  lemma {:induction false} ParamRunIs(s: string, n: nat)
    requires n <= |s| && (forall i :: 0 <= i < n ==> IsParamChar(s[i])) && (n < |s| ==> !IsParamChar(s[n]))
    ensures ParamRun(s) == n
  {
    if n > 0 {
      ParamRunIs(s[1..], n - 1);
    }
  }

  /** findAnsiEnd, measured from the ESC at s[0]: the length of the escape
    * sequence, or None when the text ends before the sequence does. */
  function EscapeLength(s: string): (r: Option<nat>)
    requires |s| >= 1
    ensures r.Some? ==> 1 <= r.value <= |s|
  {
    if |s| == 1 then None
    else if s[1] != '[' then Some(1)
    else
      var k := 2 + ParamRun(s[2..]);
      if k == |s| then None else Some(k + 1)
  }

  /** The length of the ESC-free text that starts s. */
  function TextLength(s: string): (n: nat)
    ensures n <= |s|
  {
    if s == [] || s[0] == ESC then 0 else 1 + TextLength(s[1..])
  }

  lemma {:induction false} TextLengthFacts(s: string)
    ensures forall i :: 0 <= i < TextLength(s) ==> s[i] != ESC
    ensures TextLength(s) < |s| ==> s[TextLength(s)] == ESC
  {
    if s != [] && s[0] != ESC {
      TextLengthFacts(s[1..]);
    }
  }

  lemma {:induction false} TextLengthIs(s: string, n: nat)
    requires n <= |s| && (forall i :: 0 <= i < n ==> s[i] != ESC) && (n < |s| ==> s[n] == ESC)
    ensures TextLength(s) == n
  {
    if n > 0 {
      TextLengthIs(s[1..], n - 1);
    }
  }

  /** The segments splitText returns and the unfinished escape it keeps. */
  datatype Split = Split(segments: seq<string>, tail: string)

  /** The length of the segment that starts s: text up to the next ESC, or an
    * escape sequence as findAnsiEnd delimits it (None: it does not end in s). */
  function SegmentLength(s: string): (r: Option<nat>)
    requires s != []
    ensures r.Some? ==> 1 <= r.value <= |s|
  {
    if s[0] == ESC then EscapeLength(s) else Some(TextLength(s))
  }

  /** splitText on the already prefixed text: its segments one after another;
    * an escape that runs to the end is the tail. */
  function SplitSegments(s: string): Split
    decreases |s|
  {
    if s == [] then Split([], "")
    else
      var n := SegmentLength(s);
      if n.None? then Split([], s)
      else
        var rest := SplitSegments(s[n.value..]);
        Split([s[..n.value]] + rest.segments, rest.tail)
  }

  /** Where the escape sequence at text[startpos] ends, or -1 when it does not end in text. */
  function AnsiEnd(text: string, startpos: nat): (r: int)
    requires startpos < |text| && text[startpos] == ESC
    ensures r == -1 || startpos < r <= |text|
  {
    var len := EscapeLength(text[startpos..]);
    if len.None? then -1 else startpos + len.value
  }

  /** findAnsiEnd. */
  method FindAnsiEnd(text: string, startpos: int) returns (r: int)
    requires 0 <= startpos < |text| && text[startpos] == ESC
    ensures r == AnsiEnd(text, startpos)
  {
    ghost var s := text[startpos..];
    if |text| == startpos + 1 {
      return -1;
    }
    if text[startpos + 1] != '[' {
      return startpos + 1;
    }
    var k := startpos + 2;
    while k < |text|
      invariant startpos + 2 <= k <= |text|
      invariant forall i :: startpos + 2 <= i < k ==> IsParamChar(text[i])
    {
      var c := text[k];
      if c != ';' && (c < '0' || c > '9') {
        ParamRunIs(s[2..], k - startpos - 2);
        return k + 1;
      }
      k := k + 1;
    }
    ParamRunIs(s[2..], k - startpos - 2);
    return -1;
  }

  /** readText: the text from `pos` up to the next ESC, added to `values`. */
  method ReadText(text: string, pos: int, values: seq<string>) returns (n: int, out: seq<string>)
    requires 0 <= pos <= |text|
    ensures n == pos + TextLength(text[pos..])
    ensures out == values + [text[pos..n]]
  {
    n := JavaText.IndexOf(text, ESC, pos);
    if n == -1 {
      n := |text|;
    }
    TextLengthIs(text[pos..], n - pos);
    out := values + [text[pos..n]];
  }

  lemma SplitEscapeStep(t: string, pos: nat, n: int)
    requires pos < |t| && t[pos] == ESC && n == AnsiEnd(t, pos)
    ensures n == -1 ==> SplitSegments(t[pos..]) == Split([], t[pos..])
    ensures n != -1 ==> SplitSegments(t[pos..]).segments == [t[pos..n]] + SplitSegments(t[n..]).segments
    ensures n != -1 ==> SplitSegments(t[pos..]).tail == SplitSegments(t[n..]).tail
  {
    var s := t[pos..];
    var len := EscapeLength(s);
    if len.Some? {
      assert s[len.value..] == t[n..];
      assert s[..len.value] == t[pos..n];
    }
  }

  lemma SplitTextStep(t: string, pos: nat, n: int)
    requires pos < |t| && t[pos] != ESC
    requires n == pos + TextLength(t[pos..])
    ensures pos < n <= |t|
    ensures SplitSegments(t[pos..]).segments == [t[pos..n]] + SplitSegments(t[n..]).segments
    ensures SplitSegments(t[pos..]).tail == SplitSegments(t[n..]).tail
  {
    var s := t[pos..];
    var m := TextLength(s);
    assert SegmentLength(s) == Some(m);
    SliceOfSlice(t, pos, n, m, s);
    SplitSegmentsCons(s, m, t[n..]);
  }

  /** The slices of a suffix are slices of the whole. */
  lemma SliceOfSlice<T>(t: seq<T>, pos: nat, n: nat, m: nat, s: seq<T>)
    requires pos <= n <= |t| && m == n - pos && s == t[pos..]
    ensures s[..m] == t[pos..n] && s[m..] == t[n..]
  {
  }

  /** What splitText has done once it reaches pos: the segments so far, and
    * the rest of the text left to split, give the segments of the whole text. */
  ghost predicate SplitInvariant(t: string, pos: nat, ret: seq<string>, tail: string, whole: Split)
    requires pos <= |t|
  {
    whole.segments == ret + SplitSegments(t[pos..]).segments
    && whole.tail == if pos == |t| then tail else SplitSegments(t[pos..]).tail
  }

  /** One step of splitText: a segment taken off the rest moves to the result. */
  lemma SplitLoopStep(whole: Split, ret0: seq<string>, seg: string, here: Split, next: Split)
    requires whole.segments == ret0 + here.segments && whole.tail == here.tail
    requires here.segments == [seg] + next.segments && here.tail == next.tail
    ensures whole.segments == (ret0 + [seg]) + next.segments && whole.tail == next.tail
  {
  }

  // ---------------------------------------------------------------- what splitting yields

  /** A segment of plain text: nonempty and without ESC. */
  predicate IsTextSegment(seg: string) { seg != "" && ESC !in seg }

  /** A complete control sequence: ESC '[' parameters and one final character. */
  predicate IsControlSequence(seg: string)
  {
    |seg| >= 3 && seg[0] == ESC && seg[1] == '['
    && (forall i :: 2 <= i < |seg| - 1 ==> IsParamChar(seg[i]))
    && !IsParamChar(seg[|seg| - 1])
  }

  /** An escape that the text may still complete: a lone ESC, or ESC '[' and parameters. */
  predicate IsUnfinishedEscape(tail: string)
  {
    tail == [ESC]
    || (|tail| >= 2 && tail[0] == ESC && tail[1] == '[' && forall i :: 2 <= i < |tail| ==> IsParamChar(tail[i]))
  }

  /** The text that follows segment k. */
  function After(segs: seq<string>, k: nat, tail: string): string
    requires k < |segs|
  {
    Concat(segs[k + 1..]) + tail
  }

  lemma {:induction false} SplitSpellsText(s: string)
    ensures Concat(SplitSegments(s).segments) + SplitSegments(s).tail == s
    decreases |s|, 1
  {
    if s != [] && SegmentLength(s).Some? {
      var n := SegmentLength(s).value;
      var t := s[n..];
      SplitSpellsRest(s, t);
      SplitSpellsFirst(s, n, t);
    } else if s != [] {
      assert Concat([]) == "";
    }
  }

  lemma {:induction false} SplitSpellsRest(s: string, t: string)
    requires |t| < |s|
    ensures Concat(SplitSegments(t).segments) + SplitSegments(t).tail == t
    decreases |s|, 0
  {
    SplitSpellsText(t);
  }

  /** The first segment and the text that the rest of the split spells spell s. */
  lemma SplitSpellsFirst(s: string, n: nat, t: string)
    requires s != [] && SegmentLength(s) == Some(n) && t == s[n..]
    requires Concat(SplitSegments(t).segments) + SplitSegments(t).tail == t
    ensures Concat(SplitSegments(s).segments) + SplitSegments(s).tail == s
  {
    var rest := SplitSegments(t);
    var h := s[..n];
    SplitSegmentsCons(s, n, t);
    ConcatCons(h, rest.segments);
    PrefixAndRest(s, n, h, t);
    PrefixSpells(h, Concat(rest.segments), rest.tail, t, s);
  }

  /** A split starts with the first segment, then splits the rest. */
  lemma SplitSegmentsCons(s: string, n: nat, t: string)
    requires s != [] && SegmentLength(s) == Some(n) && t == s[n..]
    ensures SplitSegments(s) == Split([s[..n]] + SplitSegments(t).segments, SplitSegments(t).tail)
  {
  }

  lemma PrefixAndRest(s: string, n: nat, h: string, t: string)
    requires n <= |s| && h == s[..n] && t == s[n..]
    ensures h + t == s
  {
  }

  lemma PrefixSpells(h: string, c: string, tl: string, t: string, s: string)
    requires c + tl == t && h + t == s
    ensures (h + c) + tl == s
  {
    SeqAssoc(h, c, tl);
  }

  /** Segment k is text, a control sequence, or an ESC that the next
    * character does not continue as a control sequence. */
  predicate WellShapedAt(segs: seq<string>, k: nat, tail: string)
    requires k < |segs|
  {
    IsTextSegment(segs[k]) || IsControlSequence(segs[k])
    || (segs[k] == [ESC] && After(segs, k, tail) != "" && After(segs, k, tail)[0] != '[')
  }

  lemma FirstSegmentShape(s: string)
    requires s != [] && SegmentLength(s).Some?
    ensures var n := SegmentLength(s).value;
      IsTextSegment(s[..n]) || IsControlSequence(s[..n]) || (s[..n] == [ESC] && n < |s| && s[n] != '[')
  {
    var n := SegmentLength(s).value;
    if s[0] != ESC {
      TextLengthFacts(s);
      assert forall c | c in s[..n] :: c != ESC;
    } else if n > 1 {
      ParamRunFacts(s[2..]);
      assert s[..n][n - 1] == s[n - 1];
    }
  }

  lemma {:induction false} TailShape(s: string)
    ensures SplitSegments(s).tail == "" || IsUnfinishedEscape(SplitSegments(s).tail)
    decreases |s|
  {
    if s != [] {
      var n := SegmentLength(s);
      if n.Some? {
        TailShape(s[n.value..]);
      } else if |s| >= 2 {
        ParamRunFacts(s[2..]);
      }
    }
  }

  /** Every segment of a split is well shaped. */
  lemma {:induction false} SegmentShapes(s: string)
    ensures forall k :: 0 <= k < |SplitSegments(s).segments| ==>
      WellShapedAt(SplitSegments(s).segments, k, SplitSegments(s).tail)
    decreases |s|
  {
    if s != [] && SegmentLength(s).Some? {
      var n := SegmentLength(s).value;
      var rest := SplitSegments(s[n..]);
      var r := SplitSegments(s);
      SegmentShapes(s[n..]);
      assert r.segments == [s[..n]] + rest.segments && r.tail == rest.tail;
      forall k | 0 <= k < |r.segments|
        ensures WellShapedAt(r.segments, k, r.tail)
      {
        if k == 0 {
          FirstSegmentShape(s);
          SplitSpellsText(s[n..]);
          assert r.segments[1..] == rest.segments;
        } else {
          assert r.segments[k + 1..] == rest.segments[k..];
          assert WellShapedAt(rest.segments, k - 1, rest.tail);
        }
      }
    }
  }

  // ---------------------------------------------------------------- the text as tokens

  /** A character of text, or an escape sequence. */
  datatype Token = Char(c: char) | Escape(code: string)

  function CharTokens(s: string): (r: seq<Token>)
    ensures |r| == |s|
  {
    if s == [] then [] else [Char(s[0])] + CharTokens(s[1..])
  }

  lemma {:induction false} CharTokensAppend(a: string, b: string)
    ensures CharTokens(a + b) == CharTokens(a) + CharTokens(b)
    decreases |a|
  {
    if a == [] {
      assert a + b == b;
    } else {
      assert (a + b)[1..] == a[1..] + b;
      CharTokensAppend(a[1..], b);
      assert [Char(a[0])] + (CharTokens(a[1..]) + CharTokens(b)) == ([Char(a[0])] + CharTokens(a[1..])) + CharTokens(b);
    }
  }

  function SegmentTokens(seg: string): seq<Token>
  {
    if seg != "" && seg[0] == ESC then [Escape(seg)] else CharTokens(seg)
  }

  function Tokens(segs: seq<string>): seq<Token>
  {
    if segs == [] then [] else SegmentTokens(segs[0]) + Tokens(segs[1..])
  }

  /** The tokens of a text that starts with plain text: that text, one
    * character at a time, then the tokens of what follows it. */
  lemma SplitAfterText(y: string)
    ensures var m := TextLength(y);
      Tokens(SplitSegments(y).segments) == CharTokens(y[..m]) + Tokens(SplitSegments(y[m..]).segments)
      && SplitSegments(y).tail == SplitSegments(y[m..]).tail
  {
    var m := TextLength(y);
    if m == 0 {
      assert y[..0] == [] && y[0..] == y;
    } else {
      var rest := SplitSegments(y[m..]);
      assert SplitSegments(y).segments == [y[..m]] + rest.segments;
      assert ([y[..m]] + rest.segments)[1..] == rest.segments;
    }
  }

  lemma EscapeLengthExtends(x: string, y: string)
    requires |x| >= 1 && EscapeLength(x).Some?
    ensures EscapeLength(x + y) == EscapeLength(x)
  {
    if x[1] == '[' {
      var k := ParamRun(x[2..]);
      assert (x + y)[2..] == x[2..] + y;
      ParamRunFacts(x[2..]);
      ParamRunIs((x + y)[2..], k);
    }
  }

  lemma TextLengthExtends(x: string, y: string)
    ensures TextLength(x) < |x| ==> TextLength(x + y) == TextLength(x)
    ensures TextLength(x) == |x| ==> TextLength(x + y) == |x| + TextLength(y)
  {
    var n := TextLength(x);
    TextLengthFacts(x);
    TextLengthFacts(y);
    if n < |x| {
      TextLengthIs(x + y, n);
    } else {
      TextLengthIs(x + y, n + TextLength(y));
    }
  }

  lemma TokensCons(h: string, r: seq<string>)
    ensures Tokens([h] + r) == SegmentTokens(h) + Tokens(r)
  {
    assert ([h] + r)[1..] == r;
  }

  /** A segment that ends before the text does, or an escape sequence, is
    * delimited the same way whatever follows the text. */
  lemma SegmentLengthExtends(x: string, y: string)
    requires x != [] && SegmentLength(x).Some?
    requires x[0] == ESC || SegmentLength(x).value < |x|
    ensures SegmentLength(x + y) == SegmentLength(x)
    ensures var n := SegmentLength(x).value; (x + y)[..n] == x[..n] && (x + y)[n..] == x[n..] + y
  {
    if x[0] == ESC {
      EscapeLengthExtends(x, y);
    } else {
      TextLengthExtends(x, y);
    }
  }

  lemma SplitWholeText(x: string)
    requires x != [] && x[0] != ESC && TextLength(x) == |x|
    ensures SplitSegments(x) == Split([x], "")
  {
    assert x[|x|..] == [] && x[..|x|] == x;
  }

  lemma SplitTextThenRest(x: string, y: string)
    requires x != [] && x[0] != ESC && TextLength(x) == |x|
    ensures var m := TextLength(y);
      SplitSegments(x + y) == Split([x + y[..m]] + SplitSegments(y[m..]).segments, SplitSegments(y[m..]).tail)
  {
    var m := TextLength(y);
    var s := x + y;
    var k := |x| + m;
    TextLengthExtends(x, y);
    assert s[0] == x[0];
    assert SegmentLength(s) == Some(k);
    ConcatSlices(x, y, m, s, k);
    SplitSegmentsCons(s, k, y[m..]);
  }

  /** Cutting x + y inside y. */
  lemma ConcatSlices<T>(x: seq<T>, y: seq<T>, m: nat, s: seq<T>, k: nat)
    requires m <= |y| && s == x + y && k == |x| + m
    ensures s[..k] == x + y[..m] && s[k..] == y[m..]
  {
  }

  lemma MergeTokens(x: string, z: string, r: seq<string>)
    requires x != [] && x[0] != ESC
    ensures Tokens([x + z] + r) == CharTokens(x) + (CharTokens(z) + Tokens(r))
  {
    TokensCons(x + z, r);
    assert (x + z)[0] == x[0];
    CharTokensAppend(x, z);
    SeqAssoc(CharTokens(x), CharTokens(z), Tokens(r));
  }

  lemma SeqAssoc<T>(a: seq<T>, b: seq<T>, c: seq<T>)
    ensures (a + b) + c == a + (b + c)
  {
  }

  /** Text that runs to the end of x merges with the text that starts y. */
  lemma SplitComposeText(x: string, y: string)
    requires x != [] && x[0] != ESC && TextLength(x) == |x|
    ensures Tokens(SplitSegments(x + y).segments) == CharTokens(x) + Tokens(SplitSegments(y).segments)
    ensures SplitSegments(x + y).tail == SplitSegments(y).tail
  {
    var m := TextLength(y);
    SplitTextThenRest(x, y);
    SplitAfterText(y);
    MergeTokens(x, y[..m], SplitSegments(y[m..]).segments);
  }

  /** The split of x + y starts with the first segment of x, when that segment
    * does not depend on what follows x. */
  lemma SplitConsExtends(x: string, y: string)
    requires x != [] && SegmentLength(x).Some?
    requires x[0] == ESC || SegmentLength(x).value < |x|
    ensures var n := SegmentLength(x).value;
      SplitSegments(x + y) == Split([x[..n]] + SplitSegments(x[n..] + y).segments, SplitSegments(x[n..] + y).tail)
  {
    SegmentLengthExtends(x, y);
  }

  lemma ConsTokens(h: string, r1: seq<string>, r2: seq<string>, r3: seq<string>)
    requires Tokens(r2) == Tokens(r1) + Tokens(r3)
    ensures Tokens([h] + r2) == Tokens([h] + r1) + Tokens(r3)
  {
    TokensCons(h, r1);
    TokensCons(h, r2);
    SeqAssoc(SegmentTokens(h), Tokens(r1), Tokens(r3));
  }

  /** Splitting is compositional: splitting x, then the kept tail with y,
    * yields the tokens and the tail of splitting x + y at once. */
  lemma {:induction false} SplitCompose(x: string, y: string)
    ensures var a := SplitSegments(x);
      var b := SplitSegments(a.tail + y);
      var c := SplitSegments(x + y);
      Tokens(c.segments) == Tokens(a.segments) + Tokens(b.segments) && c.tail == b.tail
    decreases |x|
  {
    if x == [] {
      assert x + y == y;
    } else if SegmentLength(x).None? {
      assert SplitSegments(x) == Split([], x);
    } else if x[0] != ESC && SegmentLength(x).value == |x| {
      SplitWholeText(x);
      SplitComposeText(x, y);
      TokensCons(x, []);
      assert [x] + [] == [x];
      assert "" + y == y;
    } else {
      var n := SegmentLength(x).value;
      SplitConsExtends(x, y);
      SplitCompose(x[n..], y);
      var ra := SplitSegments(x[n..]);
      ConsTokens(x[..n], ra.segments, SplitSegments(x[n..] + y).segments, SplitSegments(ra.tail + y).segments);
    }
  }

  lemma {:induction false} TokensAppend(a: seq<string>, b: seq<string>)
    ensures Tokens(a + b) == Tokens(a) + Tokens(b)
    decreases |a|
  {
    if a == [] {
      assert a + b == b;
    } else {
      assert (a + b)[1..] == a[1..] + b;
      TokensAppend(a[1..], b);
      var h := SegmentTokens(a[0]);
      assert h + (Tokens(a[1..]) + Tokens(b)) == (h + Tokens(a[1..])) + Tokens(b);
    }
  }

  // ---------------------------------------------------------------- the meaning of a text

  /** Styled characters and the layout reached after them. */
  datatype Styling = Styling(chars: seq<StyledChar>, layout: AttributeGroup)

  /** The reference meaning of a token stream: each character takes the current
    * layout, and each escape sequence changes it as adaptWithAnsi does. */
  function Run(layout: AttributeGroup, tokens: seq<Token>): Styling
    decreases |tokens|
  {
    if tokens == [] then Styling([], layout)
    else match tokens[0]
      case Char(c) =>
        var rest := Run(layout, tokens[1..]);
        Styling([StyledChar(c, layout)] + rest.chars, rest.layout)
      case Escape(code) => Run(AdaptSpec(layout, code), tokens[1..])
  }

  lemma {:induction false} RunAppend(layout: AttributeGroup, t1: seq<Token>, t2: seq<Token>)
    ensures var r1 := Run(layout, t1);
      var r2 := Run(r1.layout, t2);
      Run(layout, t1 + t2) == Styling(r1.chars + r2.chars, r2.layout)
    decreases |t1|
  {
    if t1 == [] {
      assert t1 + t2 == t2;
    } else {
      assert (t1 + t2)[1..] == t1[1..] + t2;
      match t1[0]
      case Char(c) =>
        RunAppend(layout, t1[1..], t2);
      case Escape(code) =>
        RunAppend(AdaptSpec(layout, code), t1[1..], t2);
    }
  }

  lemma {:induction false} RunChars(layout: AttributeGroup, s: string, rest: seq<Token>)
    ensures Run(layout, CharTokens(s) + rest) == Styling(Styled(s, layout) + Run(layout, rest).chars, Run(layout, rest).layout)
    decreases |s|
  {
    if s == [] {
      assert CharTokens(s) + rest == rest;
    } else {
      assert (CharTokens(s) + rest)[1..] == CharTokens(s[1..]) + rest;
      RunChars(layout, s[1..], rest);
      var r := Run(layout, rest);
      var c := StyledChar(s[0], layout);
      assert [c] + (Styled(s[1..], layout) + r.chars) == ([c] + Styled(s[1..], layout)) + r.chars;
    }
  }

  /** The partition and layout that parse builds from the segments, one after another. */
  datatype Applied = Applied(text: Partition, layout: AttributeGroup)

  /** The loop of parse over the remaining segments: text is appended in the
    * current layout, an escape sequence changes the layout. */
  function ApplyFrom(p: Partition, layout: AttributeGroup, segs: seq<string>): (r: Applied)
    requires WellFormed(p)
    ensures WellFormed(r.text)
    decreases |segs|
  {
    if segs == [] then Applied(p, layout)
    else if segs[0] == "" then ApplyFrom(p, layout, segs[1..])
    else if segs[0][0] == ESC then ApplyFrom(p, AdaptSpec(layout, segs[0]), segs[1..])
    else ApplyFrom(AppendPart(p, segs[0], layout), layout, segs[1..])
  }

  /** One iteration of parse's loop over the segments from i on. */
  lemma ApplyFromStep(p: Partition, layout: AttributeGroup, segs: seq<string>, i: nat)
    requires WellFormed(p) && i < |segs|
    ensures var seg := segs[i];
      ApplyFrom(p, layout, segs[i..]) ==
        if seg == "" then ApplyFrom(p, layout, segs[i + 1..])
        else if seg[0] == ESC then ApplyFrom(p, AdaptSpec(layout, seg), segs[i + 1..])
        else ApplyFrom(AppendPart(p, seg, layout), layout, segs[i + 1..])
  {
    assert segs[i..][1..] == segs[i + 1..];
  }

  /** Applying the segments to p appends the characters of their reference
    * meaning and ends in its layout. */
  predicate AppliesAsRun(p: Partition, layout: AttributeGroup, segs: seq<string>)
    requires WellFormed(p)
  {
    var ap := ApplyFrom(p, layout, segs);
    var run := Run(layout, Tokens(segs));
    Characters(ap.text) == Characters(p) + run.chars && ap.layout == run.layout
  }

  /** Applying segments styles their characters as the reference meaning says. */
  lemma {:induction false} ApplyFromRun(p: Partition, layout: AttributeGroup, segs: seq<string>)
    requires WellFormed(p)
    ensures var ap := ApplyFrom(p, layout, segs);
      var run := Run(layout, Tokens(segs));
      WellFormed(ap.text) && Characters(ap.text) == Characters(p) + run.chars && ap.layout == run.layout
    decreases |segs|, 1
  {
    if segs != [] {
      var seg := segs[0];
      var rest := segs[1..];
      if seg == "" {
        ApplyFromRunRest(p, layout, segs, rest);
        ApplyRunSkipsEmpty(p, layout, segs, rest);
      } else if seg[0] == ESC {
        ApplyFromRunRest(p, AdaptSpec(layout, seg), segs, rest);
        ApplyRunAdapts(p, layout, segs, rest);
      } else {
        var q := AppendPart(p, seg, layout);
        ApplyFromRunRest(q, layout, segs, rest);
        ApplyFromOfText(p, layout, segs, rest, q);
        AppendPartCharacters(p, seg, layout);
        ApplyRunAppends(p, layout, segs, rest, q);
      }
    }
  }

  lemma {:induction false} ApplyFromRunRest(p: Partition, layout: AttributeGroup, segs: seq<string>, rest: seq<string>)
    requires WellFormed(p) && |rest| < |segs|
    ensures AppliesAsRun(p, layout, rest)
    decreases |segs|, 0
  {
    ApplyFromRun(p, layout, rest);
  }

  lemma ApplyRunSkipsEmpty(p: Partition, layout: AttributeGroup, segs: seq<string>, rest: seq<string>)
    requires WellFormed(p) && segs != [] && segs[0] == "" && rest == segs[1..]
    requires AppliesAsRun(p, layout, rest)
    ensures AppliesAsRun(p, layout, segs)
  {
    assert Tokens(segs) == Tokens(rest);
  }

  lemma ApplyRunAdapts(p: Partition, layout: AttributeGroup, segs: seq<string>, rest: seq<string>)
    requires WellFormed(p) && segs != [] && segs[0] != "" && segs[0][0] == ESC && rest == segs[1..]
    requires AppliesAsRun(p, AdaptSpec(layout, segs[0]), rest)
    ensures AppliesAsRun(p, layout, segs)
  {
    assert Tokens(segs) == [Escape(segs[0])] + Tokens(rest);
  }

  lemma ApplyRunAppends(p: Partition, layout: AttributeGroup, segs: seq<string>, rest: seq<string>, q: Partition)
    requires WellFormed(p) && WellFormed(q) && segs != []
    requires ApplyFrom(p, layout, segs) == ApplyFrom(q, layout, rest)
    requires Tokens(segs) == CharTokens(segs[0]) + Tokens(rest)
    requires Characters(q) == Characters(p) + Styled(segs[0], layout)
    requires AppliesAsRun(q, layout, rest)
    ensures AppliesAsRun(p, layout, segs)
  {
    var seg := segs[0];
    RunChars(layout, seg, Tokens(rest));
    var r := Run(layout, Tokens(rest));
    var cp, st := Characters(p), Styled(seg, layout);
    SeqAssoc(cp, st, r.chars);
  }

  /** Parse's step over a text segment, and the tokens of the segments. */
  lemma ApplyFromOfText(p: Partition, layout: AttributeGroup, segs: seq<string>, rest: seq<string>, q: Partition)
    requires WellFormed(p) && segs != [] && segs[0] != "" && segs[0][0] != ESC && rest == segs[1..]
    requires q == AppendPart(p, segs[0], layout)
    ensures ApplyFrom(p, layout, segs) == ApplyFrom(q, layout, rest)
    ensures Tokens(segs) == CharTokens(segs[0]) + Tokens(rest)
  {
  }

  /** parse never adds an empty part: a partition with nonempty parts keeps them so. */
  lemma {:induction false} ApplyFromKeepsMaximal(p: Partition, layout: AttributeGroup, segs: seq<string>)
    requires Maximal(p)
    ensures Maximal(ApplyFrom(p, layout, segs).text)
    decreases |segs|
  {
    if segs != [] {
      var seg := segs[0];
      if seg == "" || seg[0] == ESC {
        ApplyFromKeepsMaximal(p, if seg == "" then layout else AdaptSpec(layout, seg), segs[1..]);
      } else {
        AppendPartKeepsMaximal(p, seg, layout);
        ApplyFromKeepsMaximal(AppendPart(p, seg, layout), layout, segs[1..]);
      }
    }
  }

  lemma {:induction false} ApplyFromKeepsValidity(p: Partition, layout: AttributeGroup, segs: seq<string>)
    requires WellFormed(p) && AttributeGroups.Valid(layout)
    ensures AttributeGroups.Valid(ApplyFrom(p, layout, segs).layout)
    decreases |segs|
  {
    if segs != [] {
      var seg := segs[0];
      if seg == "" {
        ApplyFromKeepsValidity(p, layout, segs[1..]);
      } else if seg[0] == ESC {
        AdaptKeepsValidity(layout, seg);
        ApplyFromKeepsValidity(p, AdaptSpec(layout, seg), segs[1..]);
      } else {
        ApplyFromKeepsValidity(AppendPart(p, seg, layout), layout, segs[1..]);
      }
    }
  }

  /** The result of parse, the layout it leaves and the escape it keeps. */
  datatype ParseResult = ParseResult(text: Partition, layout: AttributeGroup, tail: string)

  /** parse, on the reader's state (layout and kept tail). */
  function ParseSpec(layout: AttributeGroup, tail: string, text: string): ParseResult
  {
    var sp := SplitSegments(tail + text);
    var ap := ApplyFrom(Partition([], []), layout, sp.segments);
    ParseResult(ap.text, ap.layout, sp.tail)
  }

  /** What parse yields for a text is what the reference meaning gives its
    * tokens, and the result never holds an empty part. */
  lemma ParseMeaning(layout: AttributeGroup, tail: string, text: string)
    ensures var r := ParseSpec(layout, tail, text);
      var run := Run(layout, Tokens(SplitSegments(tail + text).segments));
      Characters(r.text) == run.chars && r.layout == run.layout && Maximal(r.text)
  {
    var sp := SplitSegments(tail + text);
    ApplyFromRun(Partition([], []), layout, sp.segments);
    ApplyFromKeepsMaximal(Partition([], []), layout, sp.segments);
  }

  /** Sending a text in two pieces styles every character as sending it at once
    * does, and leaves the reader in the same state. */
  lemma ParseSplitInvariance(layout: AttributeGroup, tail: string, x: string, y: string)
    ensures var r1 := ParseSpec(layout, tail, x);
      var r2 := ParseSpec(r1.layout, r1.tail, y);
      var r := ParseSpec(layout, tail, x + y);
      Characters(r1.text) + Characters(r2.text) == Characters(r.text)
      && r2.layout == r.layout && r2.tail == r.tail
  {
    var a := SplitSegments(tail + x);
    var b := SplitSegments(a.tail + y);
    assert tail + (x + y) == (tail + x) + y;
    SplitCompose(tail + x, y);
    var c := SplitSegments(tail + x + y);
    ParseMeaning(layout, tail, x);
    var r1 := ParseSpec(layout, tail, x);
    ParseMeaning(r1.layout, r1.tail, y);
    ParseMeaning(layout, tail, x + y);
    RunAppend(layout, Tokens(a.segments), Tokens(b.segments));
  }

  class AnsiCodeReader {
    var currentAtts: AttributeGroup
    var incompleteAnsi: string

    /** The current layout is a valid one, and the kept text is empty or an
      * escape sequence that more text may still complete. */
    ghost predicate Valid()
      reads this
    {
      AttributeGroups.Valid(currentAtts) && (incompleteAnsi == "" || IsUnfinishedEscape(incompleteAnsi))
    }

    constructor ()
      ensures Valid() && currentAtts == Plain() && incompleteAnsi == ""
    {
      incompleteAnsi := "";
      currentAtts := Plain();
    }

    /** readAnsiSequence: a complete escape sequence is added to `values`; an
      * unfinished one becomes the kept tail and ends the text. */
    method ReadAnsiSequence(text: string, pos: int, values: seq<string>) returns (n: int, out: seq<string>)
      requires 0 <= pos < |text| && text[pos] == ESC
      modifies this`incompleteAnsi
      ensures AnsiEnd(text, pos) == -1 ==> n == |text| && out == values && incompleteAnsi == text[pos..]
      ensures AnsiEnd(text, pos) != -1 ==>
        n == AnsiEnd(text, pos) && out == values + [text[pos..n]] && incompleteAnsi == old(incompleteAnsi)
    {
      n := FindAnsiEnd(text, pos);
      if n == -1 {
        incompleteAnsi := text[pos..];
        return |text|, values;
      }
      out := values + [text[pos..n]];
    }

    /** splitText: the kept tail is put before the text and cleared; the result
      * and the new tail are the segments of the combined text. */
    method SplitText(text: string) returns (ret: seq<string>)
      modifies this`incompleteAnsi
      ensures Split(ret, incompleteAnsi) == SplitSegments(old(incompleteAnsi) + text)
    {
      ret := [];
      var t := incompleteAnsi + text;
      incompleteAnsi := "";
      var pos := 0;
      assert t[pos..] == t;
      ghost var whole := SplitSegments(t);
      while pos < |t|
        invariant 0 <= pos <= |t|
        invariant pos < |t| ==> incompleteAnsi == ""
        invariant SplitInvariant(t, pos, ret, incompleteAnsi, whole)
        decreases |t| - pos
      {
        ghost var ret0 := ret;
        var n;
        if t[pos] == ESC {
          ghost var e := AnsiEnd(t, pos);
          n, ret := ReadAnsiSequence(t, pos, ret);
          SplitEscapeStep(t, pos, e);
        } else {
          n, ret := ReadText(t, pos, ret);
          SplitTextStep(t, pos, n);
        }
        assert t[|t|..] == [];
        if ret != ret0 {
          SplitLoopStep(whole, ret0, t[pos..n], SplitSegments(t[pos..]), SplitSegments(t[n..]));
        }
        pos := n;
      }
    }

    /** parse: the segments of the text, with the kept tail before it, folded
      * into a new frozen text; the layout and the tail carry over to the next call. */
    method Parse(text: string) returns (r: PartitionedLayoutedText)
      requires Valid()
      modifies this
      ensures Valid() && fresh(r) && r.Valid() && !r.mutable
      ensures ParseResult(r.Content(), currentAtts, incompleteAnsi) == ParseSpec(old(currentAtts), old(incompleteAnsi), text)
    {
      ghost var atts0 := currentAtts;
      var parts := SplitText(text);
      r := Render(parts);
      r.CompleteConstruction();
      TailShape(old(incompleteAnsi) + text);
      ApplyFromKeepsValidity(Partition([], []), atts0, parts);
    }

    /** The loop of parse over the segments: text is appended in the current
      * layout, and an escape sequence changes the current layout. */
    method Render(parts: seq<string>) returns (r: PartitionedLayoutedText)
      modifies this`currentAtts
      ensures fresh(r) && r.Valid() && r.mutable
      ensures Applied(r.Content(), currentAtts) == ApplyFrom(Partition([], []), old(currentAtts), parts)
    {
      r := new PartitionedLayoutedText();
      var i := 0;
      assert parts[i..] == parts;
      while i < |parts|
        invariant 0 <= i <= |parts|
        invariant fresh(r) && r.Valid() && r.mutable
        invariant ApplyFrom(r.Content(), currentAtts, parts[i..]) == ApplyFrom(Partition([], []), old(currentAtts), parts)
      {
        var part := parts[i];
        ApplyFromStep(r.Content(), currentAtts, parts, i);
        if part == "" {
        } else if part[0] == ESC {
          currentAtts := AdaptWithAnsi(currentAtts, part);
        } else {
          var _ := r.Append(part, currentAtts);
        }
        i := i + 1;
      }
      assert parts[i..] == [];
    }
  }
}
