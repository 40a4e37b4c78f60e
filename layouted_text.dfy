/** Layouted texts: text whose characters each carry a character layout. A
  * PartitionedLayoutedText is built by appending pieces and then frozen; a
  * ColourString is one piece with one layout. */
module LayoutedTexts {
  import opened Wrappers
  import opened AttributeGroups

  /** A list of pieces with one layout per piece. */
  datatype Partition = Partition(parts: seq<string>, styles: seq<AttributeGroup>)

  predicate WellFormed(p: Partition) { |p.parts| == |p.styles| }

  /** The construction keeps every part but the last one non-empty. */
  predicate OnlyLastMayBeEmpty(p: Partition)
  {
    WellFormed(p) && forall i :: 0 <= i < |p.parts| - 1 ==> p.parts[i] != ""
  }

  /** Each part as long a piece of one style as possible: all parts non-empty
    * and no two neighbours with the same style. */
  predicate Maximal(p: Partition)
  {
    WellFormed(p)
    && (forall i :: 0 <= i < |p.parts| ==> p.parts[i] != "")
    && (forall i :: 0 < i < |p.styles| ==> p.styles[i - 1] != p.styles[i])
  }

  function Concat(parts: seq<string>): string
  {
    if parts == [] then "" else Concat(parts[..|parts| - 1]) + parts[|parts| - 1]
  }

  /** One character together with its layout. */
  datatype StyledChar = StyledChar(ch: char, layout: AttributeGroup)

  function Styled(t: string, layout: AttributeGroup): (r: seq<StyledChar>)
    ensures |r| == |t|
  {
    if t == [] then [] else [StyledChar(t[0], layout)] + Styled(t[1..], layout)
  }

  lemma {:induction false} StyledAt(t: string, layout: AttributeGroup, i: int)
    requires 0 <= i < |t|
    ensures Styled(t, layout)[i] == StyledChar(t[i], layout)
  {
    if i > 0 {
      StyledAt(t[1..], layout, i - 1);
    }
  }

  /** The text character by character, each with the layout of its part. */
  function Characters(p: Partition): seq<StyledChar>
    requires WellFormed(p)
    decreases |p.parts|
  {
    if p.parts == [] then []
    else
      var n := |p.parts| - 1;
      Characters(Partition(p.parts[..n], p.styles[..n])) + Styled(p.parts[n], p.styles[n])
  }

  /** The effect of append(txt, layout) on the parts and their styles. */
  function AppendPart(p: Partition, txt: string, layout: AttributeGroup): (r: Partition)
    requires WellFormed(p)
    ensures WellFormed(r)
  {
    var last := |p.styles| - 1;
    if p.styles != [] && p.styles[last] == layout then
      Partition(p.parts[last := p.parts[last] + txt], p.styles)
    else if p.styles != [] && p.parts[last] == "" then
      Partition(p.parts[last := txt], p.styles[last := layout])
    else
      Partition(p.parts + [txt], p.styles + [layout])
  }

  lemma {:induction false} StyledConcat(s: string, t: string, layout: AttributeGroup)
    ensures Styled(s + t, layout) == Styled(s, layout) + Styled(t, layout)
  {
    if s != [] {
      StyledConcat(s[1..], t, layout);
      assert (s + t)[1..] == s[1..] + t;
    } else {
      assert s + t == t;
    }
  }

  /** Characters of a partition whose last part is replaced. */
  lemma CharactersReplaceLast(p: Partition, t: string, layout: AttributeGroup)
    requires WellFormed(p) && p.parts != []
    ensures var n := |p.parts| - 1;
      Characters(Partition(p.parts[n := t], p.styles[n := layout]))
      == Characters(Partition(p.parts[..n], p.styles[..n])) + Styled(t, layout)
  {
    var n := |p.parts| - 1;
    var q := Partition(p.parts[n := t], p.styles[n := layout]);
    assert q.parts[..n] == p.parts[..n] && q.styles[..n] == p.styles[..n];
  }

  lemma CharactersPush(p: Partition, t: string, layout: AttributeGroup)
    requires WellFormed(p)
    ensures Characters(Partition(p.parts + [t], p.styles + [layout])) == Characters(p) + Styled(t, layout)
  {
    var q := Partition(p.parts + [t], p.styles + [layout]);
    assert q.parts[..|p.parts|] == p.parts && q.styles[..|p.parts|] == p.styles;
  }

  lemma ConcatPush(parts: seq<string>, t: string)
    ensures Concat(parts + [t]) == Concat(parts) + t
  {
    assert (parts + [t])[..|parts|] == parts;
  }

  lemma ConcatReplaceLast(parts: seq<string>, t: string)
    requires parts != []
    ensures Concat(parts[|parts| - 1 := t]) == Concat(parts[..|parts| - 1]) + t
  {
    assert parts[|parts| - 1 := t][..|parts| - 1] == parts[..|parts| - 1];
  }

  lemma AppendMergesCharacters(p: Partition, txt: string, layout: AttributeGroup)
    requires WellFormed(p) && p.styles != [] && p.styles[|p.styles| - 1] == layout
    ensures Characters(AppendPart(p, txt, layout)) == Characters(p) + Styled(txt, layout)
  {
    var n := |p.styles| - 1;
    var prefix := Partition(p.parts[..n], p.styles[..n]);
    var q := Partition(p.parts[n := p.parts[n] + txt], p.styles);
    assert AppendPart(p, txt, layout) == q;
    assert q.parts[..n] == p.parts[..n];
    assert Characters(q) == Characters(prefix) + Styled(p.parts[n] + txt, layout);
    StyledConcat(p.parts[n], txt, layout);
  }

  lemma AppendReplacesCharacters(p: Partition, txt: string, layout: AttributeGroup)
    requires WellFormed(p) && p.styles != [] && p.styles[|p.styles| - 1] != layout
    requires p.parts[|p.parts| - 1] == ""
    ensures Characters(AppendPart(p, txt, layout)) == Characters(p) + Styled(txt, layout)
  {
    var n := |p.styles| - 1;
    var init := Characters(Partition(p.parts[..n], p.styles[..n]));
    assert Characters(p) == init + Styled(p.parts[n], p.styles[n]);
    assert Styled(p.parts[n], p.styles[n]) == [];
    assert Characters(p) == init;
    assert AppendPart(p, txt, layout) == Partition(p.parts[n := txt], p.styles[n := layout]);
    CharactersReplaceLast(p, txt, layout);
  }

  lemma AppendPushesCharacters(p: Partition, txt: string, layout: AttributeGroup)
    requires WellFormed(p)
    requires p.styles == [] || (p.styles[|p.styles| - 1] != layout && p.parts[|p.parts| - 1] != "")
    ensures Characters(AppendPart(p, txt, layout)) == Characters(p) + Styled(txt, layout)
  {
    CharactersPush(p, txt, layout);
  }

  /** Appending adds exactly the new text, in the new layout, after the old
    * characters: neither the text nor any character's layout is lost. */
  lemma AppendPartCharacters(p: Partition, txt: string, layout: AttributeGroup)
    requires WellFormed(p)
    ensures Characters(AppendPart(p, txt, layout)) == Characters(p) + Styled(txt, layout)
  {
    var n := |p.styles| - 1;
    if p.styles != [] && p.styles[n] == layout {
      AppendMergesCharacters(p, txt, layout);
    } else if p.styles != [] && p.parts[n] == "" {
      AppendReplacesCharacters(p, txt, layout);
    } else {
      AppendPushesCharacters(p, txt, layout);
    }
  }

  lemma AppendPartConcat(p: Partition, txt: string, layout: AttributeGroup)
    requires WellFormed(p)
    ensures Concat(AppendPart(p, txt, layout).parts) == Concat(p.parts) + txt
  {
    var n := |p.styles| - 1;
    if p.styles != [] && p.styles[n] == layout {
      ConcatReplaceLast(p.parts, p.parts[n] + txt);
    } else if p.styles != [] && p.parts[n] == "" {
      ConcatReplaceLast(p.parts, txt);
    } else {
      ConcatPush(p.parts, txt);
    }
  }

  lemma AppendPartKeepsOnlyLastEmpty(p: Partition, txt: string, layout: AttributeGroup)
    requires OnlyLastMayBeEmpty(p)
    ensures OnlyLastMayBeEmpty(AppendPart(p, txt, layout))
  {
  }

  /** Appending non-empty text keeps every part as long as possible. */
  lemma AppendPartKeepsMaximal(p: Partition, txt: string, layout: AttributeGroup)
    requires Maximal(p) && txt != ""
    ensures Maximal(AppendPart(p, txt, layout))
  {
  }

  /** In a partition whose only possibly empty part is the last, there is no
    * text exactly when there are no parts or one empty part. */
  lemma EmptyPartition(p: Partition)
    requires OnlyLastMayBeEmpty(p)
    ensures Concat(p.parts) == "" <==> |p.parts| == 0 || (|p.parts| == 1 && p.parts[0] == "")
  {
    if |p.parts| >= 2 {
      var n := |p.parts| - 1;
      ConcatHasPart(p.parts[..n], n - 1);
    }
  }

  lemma {:induction false} ConcatCons(first: string, rest: seq<string>)
    ensures Concat([first] + rest) == first + Concat(rest)
    decreases |rest|
  {
    if rest != [] {
      var n := |rest| - 1;
      ConcatCons(first, rest[..n]);
      assert ([first] + rest)[..|rest|] == [first] + rest[..n];
    } else {
      assert [first] + rest == [first];
      assert [first][..0] == [];
    }
  }

  lemma {:induction false} ConcatHasPart(parts: seq<string>, i: int)
    requires 0 <= i < |parts|
    ensures |Concat(parts)| >= |parts[i]|
  {
    var n := |parts| - 1;
    if i < n {
      ConcatHasPart(parts[..n], i);
    }
  }

  class PartitionedLayoutedText {
    var parts: seq<string>
    var styles: seq<AttributeGroup>
    var mutable: bool

    ghost function Content(): Partition
      reads this
    {
      Partition(parts, styles)
    }

    ghost predicate Valid()
      reads this
    {
      OnlyLastMayBeEmpty(Content())
    }

    /** An empty text that is still under construction. */
    constructor ()
      ensures Valid() && parts == [] && styles == [] && mutable
    {
      parts := [];
      styles := [];
      mutable := true;
    }

    /** completeConstruction: from now on the text can be read and not changed. */
    method CompleteConstruction()
      modifies this`mutable
      ensures !mutable
    {
      mutable := false;
    }

    /** append: refused (an Error in Java) once construction is complete. */
    method Append(txt: string, layout: AttributeGroup) returns (ok: bool)
      requires Valid()
      modifies this`parts, this`styles
      ensures Valid()
      ensures ok == mutable
      ensures Content() == if ok then AppendPart(old(Content()), txt, layout) else old(Content())
    {
      ok := mutable;
      if !ok {
        return;
      }
      AppendPartKeepsOnlyLastEmpty(Content(), txt, layout);
      var last := |styles| - 1;
      if styles != [] {
        if styles[last] == layout {
          parts := parts[last := parts[last] + txt];
          return;
        }
        if parts[last] == "" {
          parts := parts[last := txt];
          styles := styles[last := layout];
          return;
        }
      }
      parts := parts + [txt];
      styles := styles + [layout];
    }

    /** numParts: an Error while under construction. */
    method NumParts() returns (r: Result<nat>)
      requires Valid()
      ensures r.Success? <==> !mutable
      ensures r.Success? ==> r.value == |parts|
    {
      if mutable {
        return Failure("Method numParts called on PartitionedLayoutedText before construction has been completed!");
      }
      return Success(|parts|);
    }

    /** getStyle: an Error while under construction or for an index out of range. */
    method GetStyle(part: int) returns (r: Result<AttributeGroup>)
      requires Valid()
      ensures r.Success? <==> !mutable && 0 <= part < |styles|
      ensures r.Success? ==> r.value == styles[part]
    {
      if mutable {
        return Failure("Method getStyle called on PartitionedLayoutedText before construction has been completed!");
      }
      if part < 0 || part >= |styles| {
        return Failure("Index out of bounds");
      }
      return Success(styles[part]);
    }

    /** getPart: an Error while under construction or for an index out of range. */
    method GetPart(part: int) returns (r: Result<string>)
      requires Valid()
      ensures r.Success? <==> !mutable && 0 <= part < |parts|
      ensures r.Success? ==> r.value == parts[part]
    {
      if mutable {
        return Failure("Method getPart called on PartitionedLayoutedText before construction has been completed!");
      }
      if part < 0 || part >= |parts| {
        return Failure("Index out of bounds");
      }
      return Success(parts[part]);
    }

    /** getFullString: the parts joined, attributes dropped. */
    method GetFullString() returns (r: Result<string>)
      requires Valid()
      ensures r.Success? <==> !mutable
      ensures r.Success? ==> r.value == Concat(parts)
    {
      if mutable {
        return Failure("Method getFullString called on PartitionedLayoutedText before construction has been completed!");
      }
      var ret := "";
      var i := 0;
      while i < |parts|
        invariant 0 <= i <= |parts|
        invariant ret == Concat(parts[..i])
      {
        assert parts[..i + 1][..i] == parts[..i];
        ret := ret + parts[i];
        i := i + 1;
      }
      assert parts[..i] == parts;
      return Success(ret);
    }

    /** isEmpty: no text at all. */
    method IsEmpty() returns (r: Result<bool>)
      requires Valid()
      ensures r.Success? <==> !mutable
      ensures r.Success? ==> (r.value <==> Concat(parts) == "")
    {
      if mutable {
        return Failure("Method isEmpty called on PartitionedLayoutedText before construction has been completed!");
      }
      EmptyPartition(Content());
      return Success(|parts| == 0 || (|parts| == 1 && |parts[0]| == 0));
    }
  }

  /** The characters of a partition spell out its full string. */
  lemma {:induction false} CharactersSpellConcat(p: Partition)
    requires WellFormed(p)
    decreases |p.parts|
    ensures |Characters(p)| == |Concat(p.parts)|
    ensures forall i :: 0 <= i < |Characters(p)| ==> Characters(p)[i].ch == Concat(p.parts)[i]
  {
    if p.parts != [] {
      var n := |p.parts| - 1;
      var prefix := Partition(p.parts[..n], p.styles[..n]);
      CharactersSpellConcat(prefix);
      forall i | 0 <= i < |Characters(p)|
        ensures Characters(p)[i].ch == Concat(p.parts)[i]
      {
        if i >= |Characters(prefix)| {
          StyledAt(p.parts[n], p.styles[n], i - |Characters(prefix)|);
        }
      }
    }
  }

  /** A text with a single layout. */
  datatype ColourString = ColourString(text: string, layout: AttributeGroup)

  /** new ColourString(str): the default layout. */
  function PlainColourString(str: string): ColourString
  {
    ColourString(str, Plain())
  }

  /** new ColourString(str, col): default background, no attributes. */
  function ColouredString(str: string, col: Colours.Colour): ColourString
  {
    ColourString(str, WithFront(col))
  }

  function ColourStringNumParts(cs: ColourString): nat { 1 }

  /** getPart: only part 0 exists. */
  function ColourStringPart(cs: ColourString, part: int): (r: Result<string>)
    ensures r.Success? <==> part == 0
    ensures r.Success? ==> r.value == cs.text
  {
    if part == 0 then Success(cs.text) else Failure("Asking for part in ColourString.")
  }

  /** getStyle: only part 0 exists. */
  function ColourStringStyle(cs: ColourString, part: int): (r: Result<AttributeGroup>)
    ensures r.Success? <==> part == 0
    ensures r.Success? ==> r.value == cs.layout
  {
    if part == 0 then Success(cs.layout) else Failure("Asking for style of part in ColourString.")
  }

  function ColourStringIsEmpty(cs: ColourString): bool { cs.text == "" }

  /** A colour string is the one-part partition of its text: the same full
    * string, the same emptiness and every character in its one layout. */
  lemma ColourStringAsPartition(cs: ColourString)
    ensures var p := Partition([cs.text], [cs.layout]);
      OnlyLastMayBeEmpty(p) && Concat(p.parts) == cs.text
      && Characters(p) == Styled(cs.text, cs.layout)
      && ColourStringNumParts(cs) == |p.parts|
      && (ColourStringIsEmpty(cs) <==> Concat(p.parts) == "")
  {
    var p := Partition([cs.text], [cs.layout]);
    assert p.parts[..0] == [] && p.styles[..0] == [];
  }
}
