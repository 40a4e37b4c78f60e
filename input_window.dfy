/** InputWindow: the text box where commands are typed. Enter sends the text
  * as a command and remembers it; the up and down keys browse the history. The
  * Swing text field is reduced to the text it holds. */
module InputWindows {
  import opened Wrappers
  import opened InputHistories

  /** The key codes the window reacts to (java.awt.event.KeyEvent). */
  const VK_ENTER: int := 10
  const VK_UP: int := 38
  const VK_DOWN: int := 40

  /** The text in the component, the commands sent so far (one
    * UserCommandEvent each) and the history. */
  datatype Window = Window(text: string, commands: seq<string>, hist: History)

  predicate ValidWindow(w: Window)
  {
    ValidHistory(w.hist)
  }

  /** enterPressed: send the text as a command and add it to the history. */
  function Enter(w: Window): (r: Window)
    requires ValidWindow(w)
    ensures ValidWindow(r)
  {
    w.(commands := w.commands + [w.text], hist := Add(w.hist, Some(w.text)))
  }

  /** componentChanged: browsing ends; nothing is added. */
  function Changed(w: Window): (r: Window)
    requires ValidWindow(w)
    ensures ValidWindow(r)
  {
    w.(hist := w.hist.(pos := -1))
  }

  /** historyBrowse: when not browsing, typed text is first saved and browsed
    * onto; then one step up or down, showing the line reached. A step down
    * that reaches no line clears the text. */
  function Browse(w: Window, direction: int): (r: Window)
    requires ValidWindow(w)
    ensures ValidWindow(r) && r.commands == w.commands
  {
    var h := if w.hist.pos == -1 && w.text != "" then Up(Add(w.hist, Some(w.text))).1 else w.hist;
    if direction > 0 then
      var (line, h') := Up(h);
      w.(text := if line.Some? then line.value else w.text, hist := h')
    else
      var (line, h') := Down(h);
      w.(text := if line.Some? then line.value else "", hist := h')
  }

  /** specialKeyEvent: enter, up and down; other keys do nothing. */
  function Key(w: Window, number: int): (r: Window)
    requires ValidWindow(w)
    ensures ValidWindow(r)
  {
    if number == VK_ENTER then Enter(w)
    else if number == VK_UP then Browse(w, 1)
    else if number == VK_DOWN then Browse(w, -1)
    else w
  }

  // ---------------------------------------------------------------- properties

  /** Enter sends exactly the text, leaves it in place, ends browsing, and a
    * non-empty text becomes the newest history line. */
  lemma EnterSends(w: Window)
    requires ValidWindow(w)
    ensures Enter(w).commands == w.commands + [w.text] && Enter(w).text == w.text
    ensures Current(Enter(w).hist) == None
    ensures w.text != "" ==> Enter(w).hist.lines[0] == w.text
    ensures w.text == "" ==> Enter(w).hist.lines == w.hist.lines
  {
  }

  /** A change to the text only ends browsing. */
  lemma ChangeEndsBrowsing(w: Window)
    requires ValidWindow(w)
    ensures Changed(w).hist.lines == w.hist.lines && Current(Changed(w).hist) == None
    ensures Changed(w).text == w.text && Changed(w).commands == w.commands
  {
  }

  /** Browsing never sends a command, and typed text is saved before browsing
    * starts. */
  lemma BrowseSavesTypedText(w: Window, direction: int)
    requires ValidWindow(w) && w.hist.pos == -1 && w.text != ""
    ensures Browse(w, direction).hist.lines[0] == w.text
  {
  }

  /** While browsing, up shows the next older line, or keeps the text at the
    * oldest line. */
  lemma UpShowsOlder(w: Window)
    requires ValidWindow(w) && w.hist.pos >= 0
    ensures var p := w.hist.pos;
      Browse(w, 1) == if p + 1 < |w.hist.lines|
        then w.(text := w.hist.lines[p + 1], hist := w.hist.(pos := p + 1))
        else w
  {
  }

  /** While browsing, down shows the next newer line; past the newest line it
    * clears the text and browsing ends. */
  lemma DownShowsNewer(w: Window)
    requires ValidWindow(w) && w.hist.pos >= 0
    ensures var p := w.hist.pos;
      Browse(w, -1) == if p > 0
        then w.(text := w.hist.lines[p - 1], hist := w.hist.(pos := p - 1))
        else w.(text := "", hist := w.hist.(pos := -1))
  {
  }

  /** Down on typed text saves it and clears the box; up brings it back. */
  lemma DownSavesThenUpRestores(w: Window)
    requires ValidWindow(w) && w.hist.pos == -1 && w.text != ""
    ensures var d := Browse(w, -1);
      d.text == "" && d.hist.pos == -1 && d.hist.lines[0] == w.text
      && Browse(d, 1).text == w.text
  {
    var h := Add(w.hist, Some(w.text));
    assert h.lines[0] == w.text;
    assert Browse(w, -1).hist == h;
  }

  /** Up then down on typed text comes back to it when the history holds at
    * least two lines. */
  lemma UpThenDownRestores(w: Window)
    requires ValidWindow(w) && |w.hist.lines| >= 2 && w.hist.pos == -1 && w.text != ""
    ensures Browse(Browse(w, 1), -1).text == w.text
  {
    var h := Add(w.hist, Some(w.text));
    assert h.lines[0] == w.text;
    assert Browse(w, 1).hist.pos == 1;
  }

  // ---------------------------------------------------------------- the component

  /** The window over an InputHistory object; `text` stands for the component's
    * text and `commands` for the UserCommandEvents posted. */
  class InputWindow {
    var text: string
    var commands: seq<string>
    var history: InputHistory

    ghost predicate Valid()
      reads this, history
    {
      history.Valid()
    }

    ghost function State(): Window
      reads this, history, history.history
      requires Valid()
    {
      Window(text, commands, history.State())
    }

    /** The window the client builds: an empty box and a history of 100 lines. */
    constructor()
      ensures Valid() && fresh(history) && fresh(history.history)
      ensures State() == Window("", [], Empty(100))
    {
      text := "";
      commands := [];
      history := new InputHistory(100);
    }

    /** createTestWindow: a window over a given history. */
    constructor WithHistory(hist: InputHistory, initial: string)
      requires hist.Valid()
      ensures Valid() && history == hist
      ensures State() == Window(initial, [], hist.State())
    {
      text := initial;
      commands := [];
      history := hist;
    }

    method SpecialKeyEvent(number: int)
      requires Valid()
      modifies this, history, history.history
      ensures Valid() && history == old(history) && history.history == old(history.history)
      ensures State() == Key(old(State()), number)
    {
      if number == VK_ENTER {
        EnterPressed();
      }
      if number == VK_UP {
        HistoryBrowse(1);
      }
      if number == VK_DOWN {
        HistoryBrowse(-1);
      }
    }

    method ComponentChanged()
      requires Valid()
      modifies history
      ensures Valid() && State() == Changed(old(State()))
    {
      history.ResetBrowsing();
    }

    method EnterPressed()
      requires Valid()
      modifies this, history, history.history
      ensures Valid() && history == old(history) && history.history == old(history.history)
      ensures State() == Enter(old(State()))
    {
      var line := text;
      commands := commands + [line];
      history.AddHistoryItem(Some(line));
    }

    method HistoryBrowse(direction: int)
      requires Valid()
      modifies this`text, history, history.history
      ensures Valid() && history == old(history) && history.history == old(history.history)
      ensures State() == Browse(old(State()), direction)
    {
      ghost var w := State();
      var current := history.QueryCurrent();
      if current == None {
        var line := text;
        if line != "" {
          history.AddHistoryItem(Some(line));
          var _ := history.BrowseUp();
        }
      }
      ghost var h := history.State();
      assert h == if w.hist.pos == -1 && w.text != "" then Up(Add(w.hist, Some(w.text))).1 else w.hist;
      var browseText: Option<string>;
      if direction > 0 {
        browseText := history.BrowseUp();
      } else {
        browseText := history.BrowseDown();
        if browseText == None {
          text := "";
        }
      }
      if browseText.Some? {
        text := browseText.value;
      }
    }
  }
}
