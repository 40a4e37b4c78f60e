/** A character layout: a background colour, a foreground colour and a set of
  * text attributes, kept as the bits of one Java `int`. */
module AttributeGroups {
  import opened Colours

  const ATT_NORMAL: bv32 := 0
  const ATT_BOLD: bv32 := 2
  const ATT_ITALIC: bv32 := 4
  const ATT_UNDERLINE: bv32 := 8
  const ATT_REVERSE: bv32 := 16
  const ATT_BLINK: bv32 := 32
  const ATT_DIM: bv32 := 64
  const ATT_INVISIBLE: bv32 := 128
  const ATT_STRIKETHROUGH: bv32 := 256

  /** The eight attributes a layout can carry (ATT_NORMAL is the empty set). */
  predicate IsAttribute(a: bv32)
  {
    a == ATT_BOLD || a == ATT_ITALIC || a == ATT_UNDERLINE || a == ATT_REVERSE
    || a == ATT_BLINK || a == ATT_DIM || a == ATT_INVISIBLE || a == ATT_STRIKETHROUGH
  }

  /** The union of all eight attribute bits. */
  const ALL_ATTRIBUTES: bv32 := 510

  datatype AttributeGroup = AttributeGroup(back: Colour, front: Colour, attributes: bv32)

  /** A layout built from valid colours with only known attribute bits set. */
  predicate Valid(g: AttributeGroup)
  {
    Colours.Valid(g.back) && Colours.Valid(g.front) && g.attributes & ALL_ATTRIBUTES == g.attributes
  }

  /** new AttributeGroup(): default colours, no attributes. */
  function Plain(): (g: AttributeGroup)
    ensures Valid(g)
    ensures ColourName(g.back) == "defaultback" && ColourName(g.front) == "defaultfront"
    ensures forall a :: IsAttribute(a) ==> !HasAttribute(g, a)
  {
    AttributeGroup(NewDefault(false, false), NewDefault(true, false), ATT_NORMAL)
  }

  /** new AttributeGroup(f). */
  function WithFront(f: Colour): AttributeGroup
  {
    AttributeGroup(NewDefault(false, false), f, ATT_NORMAL)
  }

  /** new AttributeGroup(f, atts). */
  function WithFrontAndAttributes(f: Colour, atts: bv32): AttributeGroup
  {
    AttributeGroup(NewDefault(false, false), f, atts)
  }

  /** Every bit of `a` is set in `x`. */
  predicate HasBits(x: bv32, a: bv32)
  {
    x & a == a
  }

  /** hasAttribute: every bit of `a` is set. */
  predicate HasAttribute(g: AttributeGroup, a: bv32)
  {
    HasBits(g.attributes, a)
  }

  predicate QueryBold(g: AttributeGroup) { HasAttribute(g, ATT_BOLD) }
  predicate QueryDim(g: AttributeGroup) { HasAttribute(g, ATT_DIM) }
  predicate QueryItalic(g: AttributeGroup) { HasAttribute(g, ATT_ITALIC) }
  predicate QueryUnderline(g: AttributeGroup) { HasAttribute(g, ATT_UNDERLINE) }
  predicate QueryBlink(g: AttributeGroup) { HasAttribute(g, ATT_BLINK) }
  predicate QueryReverse(g: AttributeGroup) { HasAttribute(g, ATT_REVERSE) }
  predicate QueryInvisible(g: AttributeGroup) { HasAttribute(g, ATT_INVISIBLE) }
  predicate QueryStrikethrough(g: AttributeGroup) { HasAttribute(g, ATT_STRIKETHROUGH) }

  /** The copy constructor: the colours, and the attributes rebuilt one query at a time. */
  function Copy(g: AttributeGroup): AttributeGroup
  {
    var a0: bv32 := 0;
    var a1 := if QueryBold(g) then a0 | ATT_BOLD else a0;
    var a2 := if QueryDim(g) then a1 | ATT_DIM else a1;
    var a3 := if QueryItalic(g) then a2 | ATT_ITALIC else a2;
    var a4 := if QueryUnderline(g) then a3 | ATT_UNDERLINE else a3;
    var a5 := if QueryBlink(g) then a4 | ATT_BLINK else a4;
    var a6 := if QueryReverse(g) then a5 | ATT_REVERSE else a5;
    var a7 := if QueryInvisible(g) then a6 | ATT_INVISIBLE else a6;
    var a8 := if QueryStrikethrough(g) then a7 | ATT_STRIKETHROUGH else a7;
    AttributeGroup(g.back, g.front, a8)
  }

  /** The copy keeps the colours and exactly the known attribute bits; so a valid
    * layout is copied to an equal one. */
  lemma CopyKeepsKnownAttributes(g: AttributeGroup)
    ensures Copy(g) == AttributeGroup(g.back, g.front, g.attributes & ALL_ATTRIBUTES)
    ensures Valid(g) ==> Copy(g) == g
  {
  }

  /** addAttribute. */
  function AddAttribute(g: AttributeGroup, a: bv32): AttributeGroup
  {
    AttributeGroup(g.back, g.front, g.attributes | a)
  }

  /** delAttribute: the mask is the Java expression 511 - a. */
  function DelAttribute(g: AttributeGroup, a: bv32): AttributeGroup
  {
    AttributeGroup(g.back, g.front, g.attributes & (511 - a))
  }

  function ReplaceBackgroundColour(g: AttributeGroup, c: Colour): (r: AttributeGroup)
    ensures r.back == c && r.front == g.front && r.attributes == g.attributes
  {
    g.(back := c)
  }

  function ReplaceForegroundColour(g: AttributeGroup, c: Colour): (r: AttributeGroup)
    ensures r.front == c && r.back == g.back && r.attributes == g.attributes
  {
    g.(front := c)
  }

  /** Adding an attribute sets it and leaves every other attribute as it was. */
  lemma AddAttributeEffect(g: AttributeGroup, a: bv32, b: bv32)
    requires IsAttribute(a) && IsAttribute(b)
    ensures HasAttribute(AddAttribute(g, a), b) <==> b == a || HasAttribute(g, b)
  {
    var x := g.attributes;
    assert AddAttribute(g, a).attributes == x | a;
    if a == b {
      SetBitsHeld(x, a);
    } else {
      AttributesDisjoint(a, b);
      OtherBitsKept(x, a, b);
    }
  }

  /** Bits just set are held. */
  lemma SetBitsHeld(x: bv32, a: bv32)
    ensures HasBits(x | a, a)
  {
  }

  /** Setting bits a leaves the bits b that it shares nothing with as they were. */
  lemma OtherBitsKept(x: bv32, a: bv32, b: bv32)
    requires a & b == 0
    ensures (x | a) & b == x & b
  {
  }

  /** Two attributes share a bit only when they are the same. */
  lemma AttributesDisjoint(a: bv32, b: bv32)
    requires IsAttribute(a) && IsAttribute(b)
    ensures a & b == if a == b then b else 0
  {
  }

  /** Deleting an attribute clears it and leaves every other attribute as it was. */
  lemma DelAttributeEffect(g: AttributeGroup, a: bv32, b: bv32)
    requires IsAttribute(a) && IsAttribute(b)
    ensures HasAttribute(DelAttribute(g, a), b) <==> b != a && HasAttribute(g, b)
  {
  }

  /** Adding known attribute bits keeps a layout valid. */
  lemma AddKeepsValidity(g: AttributeGroup, a: bv32)
    requires Valid(g) && a & ALL_ATTRIBUTES == a
    ensures Valid(AddAttribute(g, a))
  {
    var x := g.attributes;
    assert (x | a) & ALL_ATTRIBUTES == (x & ALL_ATTRIBUTES) | (a & ALL_ATTRIBUTES);
  }

  /** Deleting any attribute keeps a layout valid. */
  lemma DelKeepsValidity(g: AttributeGroup, a: bv32)
    requires Valid(g)
    ensures Valid(DelAttribute(g, a))
  {
    var x := g.attributes;
    assert (x & (511 - a)) & ALL_ATTRIBUTES == (x & ALL_ATTRIBUTES) & (511 - a);
  }

  /** Adding or deleting ATT_NORMAL changes nothing in a valid layout. */
  lemma NormalChangesNothing(g: AttributeGroup)
    requires Valid(g)
    ensures DelAttribute(g, ATT_NORMAL) == g && AddAttribute(g, ATT_NORMAL) == g
  {
    var x := g.attributes;
    assert x & 511 == (x & ALL_ATTRIBUTES) & 511;
  }

  /** Deleting after adding is the same as deleting. */
  lemma DelUndoesAdd(g: AttributeGroup, a: bv32)
    requires IsAttribute(a)
    ensures DelAttribute(AddAttribute(g, a), a) == DelAttribute(g, a)
  {
  }

  /** Two valid layouts with the same colours and the same answer to every query are equal. */
  lemma QueriesDetermineLayout(g: AttributeGroup, h: AttributeGroup)
    requires Valid(g) && Valid(h) && g.back == h.back && g.front == h.front
    requires QueryBold(g) == QueryBold(h) && QueryDim(g) == QueryDim(h)
    requires QueryItalic(g) == QueryItalic(h) && QueryUnderline(g) == QueryUnderline(h)
    requires QueryBlink(g) == QueryBlink(h) && QueryReverse(g) == QueryReverse(h)
    requires QueryInvisible(g) == QueryInvisible(h) && QueryStrikethrough(g) == QueryStrikethrough(h)
    ensures g == h
  {
    CopyKeepsKnownAttributes(g);
    CopyKeepsKnownAttributes(h);
  }
}
