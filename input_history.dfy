/** InputHistory: the last `size` lines typed into the input window, kept in a
  * ring buffer, with a cursor for browsing through them. */
module InputHistories {
  import opened Wrappers

  /** The history as the user sees it: the remembered lines, newest first, and
    * the browse position in that list (-1 when not browsing). */
  datatype History = History(lines: seq<string>, pos: int)

  predicate ValidHistory(h: History)
  {
    |h.lines| >= 1 && -1 <= h.pos < |h.lines|
  }

  /** A new history: every slot the empty line, not browsing. */
  function Empty(size: int): (h: History)
    requires size >= 1
    ensures ValidHistory(h) && |h.lines| == size && h.pos == -1
    ensures forall k :: 0 <= k < size ==> h.lines[k] == ""
  {
    History(seq(size, _ => ""), -1)
  }

  /** addHistoryItem stores its argument unless it is null, empty, or the
    * newest line already. */
  predicate Accepts(h: History, item: Option<string>)
    requires |h.lines| >= 1
  {
    item.Some? && item.value != "" && item.value != h.lines[0]
  }

  /** addHistoryItem: the item becomes the newest line and the oldest line
    * scrolls off; browsing ends either way. */
  function Add(h: History, item: Option<string>): (r: History)
    requires ValidHistory(h)
    ensures ValidHistory(r) && |r.lines| == |h.lines|
  {
    History(if Accepts(h, item) then [item.value] + h.lines[..|h.lines| - 1] else h.lines, -1)
  }

  /** browseUp: the line one step older than the cursor (the newest when not
    * browsing), or None at the oldest line, where the cursor stays. */
  function Up(h: History): (r: (Option<string>, History))
    requires ValidHistory(h)
    ensures ValidHistory(r.1) && r.1.lines == h.lines
  {
    if h.pos == -1 then (Some(h.lines[0]), h.(pos := 0))
    else if h.pos + 1 == |h.lines| then (None, h)
    else (Some(h.lines[h.pos + 1]), h.(pos := h.pos + 1))
  }

  /** browseDown: the line one step newer than the cursor; None when not
    * browsing, and None with browsing ended when at the newest line. */
  function Down(h: History): (r: (Option<string>, History))
    requires ValidHistory(h)
    ensures ValidHistory(r.1) && r.1.lines == h.lines
  {
    if h.pos == -1 then (None, h)
    else if h.pos == 0 then (None, h.(pos := -1))
    else (Some(h.lines[h.pos - 1]), h.(pos := h.pos - 1))
  }

  /** queryCurrent: the line under the cursor, None when not browsing. */
  function Current(h: History): (r: Option<string>)
    requires ValidHistory(h)
    ensures r.None? <==> h.pos == -1
    ensures r.Some? ==> r.value in h.lines
  {
    if h.pos == -1 then None else Some(h.lines[h.pos])
  }

  // ---------------------------------------------------------------- browsing

  /** Down undoes Up: after a step up that moved the cursor, a step down
    * returns the line that was current (None when browsing had not begun,
    * since down from the newest line ends browsing) and the same history. */
  lemma DownUndoesUp(h: History)
    requires ValidHistory(h) && h.pos + 1 < |h.lines|
    ensures Up(h).0.Some?
    ensures Down(Up(h).1) == (Current(h), h)
  {
  }

  /** Up undoes Down below the newest line. */
  lemma UpUndoesDown(h: History)
    requires ValidHistory(h) && h.pos >= 1
    ensures Up(Down(h).1) == (Current(h), h)
  {
  }

  /** What k successive browseUp calls return. */
  function Ups(h: History, k: nat): (r: seq<Option<string>>)
    requires ValidHistory(h)
    ensures |r| == k
    decreases k
  {
    if k == 0 then [] else [Up(h).0] + Ups(Up(h).1, k - 1)
  }

  /** Successive browseUp calls return the lines older than the cursor one by
    * one, newest first, and then None for ever. */
  lemma {:induction false} UpsWalkOlder(h: History, k: nat)
    requires ValidHistory(h)
    ensures forall i :: 0 <= i < k ==>
      Ups(h, k)[i] == if h.pos + 1 + i < |h.lines| then Some(h.lines[h.pos + 1 + i]) else None
    decreases k
  {
    if k > 0 {
      var h' := Up(h).1;
      UpsWalkOlder(h', k - 1);
      if h.pos + 1 == |h.lines| {
        assert h' == h;
      } else {
        assert h'.pos == h.pos + 1;
      }
      forall i | 0 <= i < k
        ensures Ups(h, k)[i] == if h.pos + 1 + i < |h.lines| then Some(h.lines[h.pos + 1 + i]) else None
      {
        if i > 0 {
          assert Ups(h, k)[i] == Ups(h', k - 1)[i - 1];
        }
      }
    }
  }

  // ---------------------------------------------------------------- adding

  /** Whether a line is added after the lines `recent` (newest first) were. */
  predicate Kept(item: Option<string>, recent: seq<string>)
  {
    item.Some? && item.value != "" && (recent == [] || item.value != recent[0])
  }

  /** The lines a sequence of addHistoryItem calls keeps, newest first: every
    * non-empty item that differs from the one kept just before it. */
  function Recent(items: seq<Option<string>>): (r: seq<string>)
    ensures forall k :: 0 <= k < |r| ==> r[k] != ""
    ensures forall k :: 0 <= k < |r| - 1 ==> r[k] != r[k + 1]
    decreases |items|
  {
    if items == [] then []
    else
      var before := Recent(items[..|items| - 1]);
      var item := items[|items| - 1];
      if Kept(item, before) then [item.value] + before else before
  }

  /** A sequence of addHistoryItem calls. */
  function AddAll(h: History, items: seq<Option<string>>): (r: History)
    requires ValidHistory(h)
    ensures ValidHistory(r) && |r.lines| == |h.lines|
    decreases |items|
  {
    if items == [] then h else Add(AddAll(h, items[..|items| - 1]), items[|items| - 1])
  }

  /** The empty line, `n` times. */
  function Blank(n: nat): (r: seq<string>)
    ensures |r| == n && forall k :: 0 <= k < n ==> r[k] == ""
  {
    seq(n, _ => "")
  }

  /** A new history that is given lines remembers the last `size` lines kept,
    * newest first, and shows the empty line in the slots not yet used; browsing
    * has ended. */
  lemma {:induction false} AddAllKeepsRecent(size: int, items: seq<Option<string>>)
    requires size >= 1
    ensures AddAll(Empty(size), items) == History((Recent(items) + Blank(size))[..size], -1)
    decreases |items|
  {
    if items == [] {
      assert Empty(size).lines == ([] + Blank(size))[..size];
    } else {
      var front, item := items[..|items| - 1], items[|items| - 1];
      AddAllKeepsRecent(size, front);
      var before := Recent(front);
      var h := AddAll(Empty(size), front);
      assert h.lines[0] == if before == [] then "" else before[0];
      assert Accepts(h, item) == Kept(item, before);
      if Kept(item, before) {
        var now := ([item.value] + before + Blank(size))[..size];
        assert Recent(items) == [item.value] + before;
        assert [item.value] + h.lines[..size - 1] == now;
      } else {
        assert Recent(items) == before;
      }
    }
  }

  /** Repeats and empty lines are not remembered. */
  lemma RepetitionExample()
    ensures AddAll(Empty(4), [Some("Bing"), Some("Bing"), Some("Bang"), Some(""), Some("Bang"), Some("Bong")]).lines
      == ["Bong", "Bang", "Bing", ""]
  {
    var items := [Some("Bing"), Some("Bing"), Some("Bang"), Some(""), Some("Bang"), Some("Bong")];
    AddAllKeepsRecent(4, items);
    assert Recent(items[..1]) == ["Bing"];
    assert items[..2][..1] == items[..1];
    assert Recent(items[..2]) == ["Bing"];
    assert items[..3][..2] == items[..2];
    assert Recent(items[..3]) == ["Bang", "Bing"];
    assert items[..4][..3] == items[..3];
    assert Recent(items[..4]) == ["Bang", "Bing"];
    assert items[..5][..4] == items[..4];
    assert Recent(items[..5]) == ["Bang", "Bing"];
    assert items[..6] == items;
    assert Recent(items) == ["Bong", "Bang", "Bing"];
  }

  /** Only the last `size` lines are remembered. */
  lemma ScrollOffExample()
    ensures AddAll(Empty(3), [Some("Bing"), Some("Bang"), Some("Bong"), Some("Beng")]).lines == ["Beng", "Bong", "Bang"]
  {
    var items := [Some("Bing"), Some("Bang"), Some("Bong"), Some("Beng")];
    AddAllKeepsRecent(3, items);
    assert Recent(items[..1]) == ["Bing"];
    assert items[..2][..1] == items[..1];
    assert Recent(items[..2]) == ["Bang", "Bing"];
    assert items[..3][..2] == items[..2];
    assert Recent(items[..3]) == ["Bong", "Bang", "Bing"];
    assert items[..4] == items;
    assert Recent(items) == ["Beng", "Bong", "Bang", "Bing"];
  }

  // ---------------------------------------------------------------- the ring buffer

  /** The position of a slot in the ring, counted from `offset`. */
  function Slot(n: int, offset: int, k: int): (s: int)
    requires 0 <= offset < n && 0 <= k < n
    ensures 0 <= s < n
  {
    if offset + k < n then offset + k else offset + k - n
  }

  /** The inverse of Slot: how far slot c lies from `offset`, round the ring. */
  function RingPos(n: int, offset: int, c: int): (k: int)
    requires 0 <= offset < n && 0 <= c < n
    ensures 0 <= k < n && Slot(n, offset, k) == c
  {
    if c >= offset then c - offset else c - offset + n
  }

  /** Moving the cursor one slot on moves its position one line older, and
    * reaches `offset` again exactly from the oldest line. */
  lemma RingPosNext(n: int, offset: int, c: int, next: int)
    requires 0 <= offset < n && 0 <= c < n && next == (c + 1) % n
    ensures next == offset <==> RingPos(n, offset, c) == n - 1
    ensures next != offset ==> 0 <= next < n && RingPos(n, offset, next) == RingPos(n, offset, c) + 1
  {
    NextSlot(c, n);
  }

  /** Moving the cursor one slot back, away from `offset`, moves its position
    * one line newer. */
  lemma RingPosPrev(n: int, offset: int, c: int, prev: int)
    requires 0 <= offset < n && 0 <= c < n && c != offset && prev == (c + n - 1) % n
    ensures 0 <= prev < n && RingPos(n, offset, prev) == RingPos(n, offset, c) - 1
  {
    PrevSlot(c, n);
  }

  /** `(c + 1) % n`, one slot on round the ring. */
  lemma NextSlot(c: int, n: int)
    requires 0 <= c < n
    ensures (c + 1) % n == if c + 1 < n then c + 1 else 0
  {
    if c + 1 == n {
      assert (c + 1) % n == n % n == 0;
    }
  }

  /** `(c + n - 1) % n`, one slot back round the ring. */
  lemma PrevSlot(c: int, n: int)
    requires 0 <= c < n
    ensures (c + n - 1) % n == if c == 0 then n - 1 else c - 1
  {
    if c > 0 {
      assert (c - 1 + n) % n == c - 1;
    }
  }

  /** The slots read from offset on, wrapping round, are the lines newest first. */
  lemma RingAt(a: seq<string>, offset: int, k: int)
    requires 0 <= offset < |a| && 0 <= k < |a|
    ensures (a[offset..] + a[..offset])[k] == a[Slot(|a|, offset, k)]
  {
  }

  /** Writing a line into the slot before `offset` makes it the newest line
    * and drops the oldest. */
  lemma RingPush(a: seq<string>, offset: int, item: string)
    requires 0 <= offset < |a|
    ensures var o := if offset == 0 then |a| - 1 else offset - 1;
      var b := a[o := item];
      b[o..] + b[..o] == [item] + (a[offset..] + a[..offset])[..|a| - 1]
  {
    var n := |a|;
    var o := if offset == 0 then n - 1 else offset - 1;
    var b := a[o := item];
    forall k | 0 <= k < n
      ensures (b[o..] + b[..o])[k] == ([item] + (a[offset..] + a[..offset])[..n - 1])[k]
    {
      RingAt(b, o, k);
      if k > 0 {
        RingAt(a, offset, k - 1);
      }
    }
  }

  /** The history array in use: newest line at `offset`, older lines after it
    * (wrapping round), and `current` the browsed slot or -1. */
  class InputHistory {
    var history: array<string>
    var offset: int
    var current: int

    ghost predicate Valid()
      reads this
    {
      history.Length >= 1 && 0 <= offset < history.Length && -1 <= current < history.Length
    }

    /** The remembered lines, newest first. */
    ghost function Lines(): seq<string>
      reads this, history
      requires Valid()
    {
      history[offset..] + history[..offset]
    }

    /** The browse position counted from the newest line. */
    ghost function Pos(): int
      reads this
      requires Valid()
    {
      if current == -1 then -1 else RingPos(history.Length, offset, current)
    }

    ghost function State(): History
      reads this, history
      requires Valid()
    {
      History(Lines(), Pos())
    }

    lemma StateValid()
      requires Valid()
      ensures ValidHistory(State())
    {
    }

    constructor(size: int)
      requires size >= 1
      ensures Valid() && fresh(history)
      ensures State() == Empty(size)
    {
      var slots := new string[size];
      for i := 0 to size
        invariant forall k :: 0 <= k < i ==> slots[k] == ""
      {
        slots[i] := "";
      }
      history := slots;
      offset := 0;
      current := -1;
      new;
      assert Lines() == history[..];
    }

    method AddHistoryItem(item: Option<string>)
      requires Valid()
      modifies this, history
      ensures Valid() && history == old(history)
      ensures State() == Add(old(State()), item)
    {
      StateValid();
      ghost var before := State();
      if item.Some? && item.value != "" && item.value != history[offset] {
        assert before.lines[0] == history[offset];
        ghost var slots := history[..];
        offset := if offset == 0 then history.Length - 1 else offset - 1;
        history[offset] := item.value;
        RingPush(slots, old(offset), item.value);
        assert history[..] == slots[offset := item.value];
      } else {
        assert item.Some? && item.value != "" ==> before.lines[0] == history[offset];
      }
      current := -1;
    }

    method BrowseUp() returns (r: Option<string>)
      requires Valid()
      modifies this`current
      ensures Valid() && (r, State()) == Up(old(State()))
    {
      StateValid();
      ghost var h := State();
      if current == -1 {
        current := offset;
        assert Up(h) == (Some(h.lines[0]), h.(pos := 0));
      } else {
        RingPosNext(history.Length, offset, current, (current + 1) % history.Length);
        current := (current + 1) % history.Length;
        if current == offset {
          PrevSlot(current, history.Length);
          current := (current + history.Length - 1) % history.Length;
          assert Up(h) == (None, h);
          return None;
        }
        assert Up(h) == (Some(h.lines[h.pos + 1]), h.(pos := h.pos + 1));
      }
      assert State() == h.(pos := Pos());
      RingAt(history[..], offset, Pos());
      r := Some(history[current]);
    }

    method BrowseDown() returns (r: Option<string>)
      requires Valid()
      modifies this`current
      ensures Valid() && (r, State()) == Down(old(State()))
    {
      StateValid();
      if current == -1 {
        return None;
      } else if current == offset {
        current := -1;
        return None;
      } else {
        RingPosPrev(history.Length, offset, current, (current + history.Length - 1) % history.Length);
        current := (current + history.Length - 1) % history.Length;
        RingAt(history[..], offset, Pos());
        return Some(history[current]);
      }
    }

    method QueryCurrent() returns (r: Option<string>)
      requires Valid()
      ensures r == Current(State())
    {
      StateValid();
      if current == -1 {
        return None;
      }
      RingAt(history[..], offset, Pos());
      return Some(history[current]);
    }

    method ResetBrowsing()
      requires Valid()
      modifies this`current
      ensures Valid() && State() == old(State()).(pos := -1)
    {
      current := -1;
    }
  }
}
