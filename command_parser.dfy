/** The word functions of the command parser: `word`, `wordsFrom` and
  * `queryCommand`. A word is a non-empty maximal run of non-space characters;
  * only the space character separates words. The reference definitions work
  * on positions in one string; the methods recurse on the text after the
  * first word, as the Java does, and the shift lemmas connect the two. */
module CommandParsers {
  import opened Wrappers
  import JavaText

  /** The character that starts a client command. */
  const TURTLECHAR: char := '#'

  /** The first position at or after i that does not hold a space. */
  function SkipSpaces(s: string, i: nat): (r: nat)
    requires i <= |s|
    ensures i <= r <= |s| && (r < |s| ==> s[r] != ' ')
    decreases |s| - i
  {
    if i < |s| && s[i] == ' ' then SkipSpaces(s, i + 1) else i
  }

  /** The first position at or after i that holds a space, or the end. */
  function SkipWord(s: string, i: nat): (r: nat)
    requires i <= |s|
    ensures i <= r <= |s| && (r < |s| ==> s[r] == ' ')
    ensures i < |s| && s[i] != ' ' ==> r > i
    decreases |s| - i
  {
    if i < |s| && s[i] != ' ' then SkipWord(s, i + 1) else i
  }

  lemma {:induction false} SkippedWord(s: string, i: nat)
    requires i <= |s|
    ensures forall k :: i <= k < SkipWord(s, i) ==> s[k] != ' '
    decreases |s| - i
  {
    if i < |s| && s[i] != ' ' {
      SkippedWord(s, i + 1);
    }
  }

  lemma {:induction false} SkipWordAt(s: string, i: nat, j: nat)
    requires i <= j <= |s| && (j == |s| || s[j] == ' ')
    requires forall k :: i <= k < j ==> s[k] != ' '
    ensures SkipWord(s, i) == j
    decreases j - i
  {
    if i < j {
      SkipWordAt(s, i + 1, j);
    }
  }

  /** The words of s from position i on, in order: the word after the spaces,
    * then the words after the space that ends it. */
  function WordsAt(s: string, i: nat): seq<string>
    requires i <= |s|
    decreases |s| - i
  {
    var a := SkipSpaces(s, i);
    if a == |s| then []
    else
      var b := SkipWord(s, a);
      if b < |s| then [s[a..b]] + WordsAt(s, b + 1) else [s[a..b]]
  }

  /** The words of s. */
  function Words(s: string): seq<string>
  {
    WordsAt(s, 0)
  }

  /** Every word is non-empty and holds no space. */
  lemma {:induction false} WordsAreWords(s: string, i: nat)
    requires i <= |s|
    ensures forall k :: 0 <= k < |WordsAt(s, i)| ==> WordsAt(s, i)[k] != "" && ' ' !in WordsAt(s, i)[k]
    decreases |s| - i
  {
    var a := SkipSpaces(s, i);
    if a < |s| {
      var b := SkipWord(s, a);
      SkippedWord(s, a);
      assert ' ' !in s[a..b];
      if b < |s| {
        WordsAreWords(s, b + 1);
      }
    }
  }

  /** Word number n (0-based), or the empty string when s has fewer words. */
  function NthWord(s: string, n: nat): string
  {
    Nth(Words(s), n)
  }

  /** Item n of ws, or the empty string when ws is shorter. */
  function Nth(ws: seq<string>, n: nat): string
  {
    if n < |ws| then ws[n] else ""
  }

  /** Words joined by single spaces. */
  function Unwords(ws: seq<string>): string
  {
    if ws == [] then "" else if |ws| == 1 then ws[0] else ws[0] + " " + Unwords(ws[1..])
  }

  /** Splitting a line built from words gives the words back. */
  lemma WordsOfUnwords(ws: seq<string>)
    requires forall k :: 0 <= k < |ws| ==> ws[k] != "" && ' ' !in ws[k]
    ensures Words(Unwords(ws)) == ws
  {
    var s := Unwords(ws);
    WordsAtUnwords(s, 0, s[0..], ws);
  }

  /** Every item is a word: non-empty and without spaces. */
  predicate AllWords(ws: seq<string>)
  {
    forall k :: 0 <= k < |ws| ==> ws[k] != "" && ' ' !in ws[k]
  }

  lemma AllWordsTail(ws: seq<string>, tail: seq<string>)
    requires AllWords(ws) && ws != [] && tail == ws[1..]
    ensures AllWords(tail)
  {
    forall k | 0 <= k < |tail|
      ensures tail[k] != "" && ' ' !in tail[k]
    {
      assert tail[k] == ws[k + 1];
    }
  }

  lemma {:induction false} WordsAtUnwords(s: string, i: nat, t: string, ws: seq<string>)
    requires i <= |s| && t == s[i..] && t == Unwords(ws) && AllWords(ws)
    ensures WordsAt(s, i) == ws
    decreases |ws|, 2
  {
    if ws == [] {
      assert SkipSpaces(s, i) == i == |s|;
    } else if |ws| == 1 {
      assert ws[0] != "" && ' ' !in ws[0];
      UnwordsOne(s, i, t, ws);
    } else {
      UnwordsMany(s, i, t, ws, ws[0], ws[1..], Unwords(ws[1..]));
    }
  }

  lemma UnwordsOne(s: string, i: nat, t: string, ws: seq<string>)
    requires i <= |s| && t == s[i..] && |ws| == 1 && t == ws[0] && ws[0] != "" && ' ' !in ws[0]
    ensures WordsAt(s, i) == ws
  {
    var w := ws[0];
    UnwordsHead(s, i, t, w, "", i + |w|);
    WordsAtLast(s, i, i, i + |w|);
  }

  lemma {:induction false} UnwordsMany(s: string, i: nat, t: string, ws: seq<string>, w: string, tail: seq<string>, u: string)
    requires i <= |s| && t == s[i..] && |ws| > 1 && w == ws[0] && tail == ws[1..]
    requires u == Unwords(tail) && t == w + " " + u && AllWords(ws)
    ensures WordsAt(s, i) == ws
    decreases |ws|, 1
  {
    var e := i + |w|;
    assert w != "" && ' ' !in w;
    UnwordsHead(s, i, t, w, " " + u, e);
    UnwordsRest(s, i, t, w, u, e);
    WordsAtCons(s, i, i, e);
    UnwordsTail(s, e, ws, tail);
    ConsOf(ws, w, tail);
    ConsEqual(WordsAt(s, i), s[i..e], WordsAt(s, e + 1), ws, w, tail);
  }

  lemma {:induction false} UnwordsTail(s: string, e: nat, ws: seq<string>, tail: seq<string>)
    requires e < |s| && ws != [] && tail == ws[1..] && s[e + 1..] == Unwords(tail) && AllWords(ws)
    ensures WordsAt(s, e + 1) == tail
    decreases |ws|, 0
  {
    AllWordsTail(ws, tail);
    WordsAtUnwords(s, e + 1, s[e + 1..], tail);
  }

  /** A line t = s[i..] that starts with the word w followed by u (nothing, or
    * a space and more) has w as its first word, with no spaces before it. */
  lemma UnwordsHead(s: string, i: nat, t: string, w: string, u: string, e: nat)
    requires i <= |s| && t == s[i..] && t == w + u && w != "" && ' ' !in w && (u == "" || u[0] == ' ')
    requires e == i + |w|
    ensures e <= |s| && SkipSpaces(s, i) == i && SkipWord(s, i) == e && s[i..e] == w
  {
    forall k | i <= k < e
      ensures s[k] != ' '
    {
      assert s[k] == t[k - i] == w[k - i];
    }
    assert s[i] == w[0];
    assert e < |s| ==> s[e] == t[|w|] == u[0];
    SkipWordAt(s, i, e);
    assert s[i..e] == t[..|w|];
  }

  /** After the first word and the space, the rest of the line. */
  lemma UnwordsRest(s: string, i: nat, t: string, w: string, u: string, e: nat)
    requires i <= |s| && t == s[i..] && t == w + " " + u && e == i + |w|
    ensures e < |s| && s[e + 1..] == u
  {
    assert s[e + 1..] == t[|w| + 1..];
  }

  /** A non-empty list is its head followed by its tail. */
  lemma ConsOf(ws: seq<string>, w: string, tail: seq<string>)
    requires ws != [] && w == ws[0] && tail == ws[1..]
    ensures ws == [w] + tail
  {
  }

  /** wordsFrom on a non-negative index: the position where the text from word
    * n on starts (the end when there are too few words); it never holds a space. */
  function FromAt(s: string, i: nat, n: nat): (r: nat)
    requires i <= |s|
    ensures i <= r <= |s| && (r < |s| ==> s[r] != ' ')
    decreases |s| - i
  {
    var a := SkipSpaces(s, i);
    if n == 0 then a
    else
      var b := SkipWord(s, a);
      if b >= |s| - 1 then |s| else FromAt(s, b + 1, n - 1)
  }

  /** wordsFrom(s, n) for n >= 0: the text of s from word n on. */
  function From(s: string, n: nat): string
  {
    s[FromAt(s, 0, n)..]
  }

  /** The text from word n on is a suffix of s that does not start with a space. */
  lemma FromIsSuffix(s: string, n: nat)
    ensures var r := From(s, n); |r| <= |s| && r == s[|s| - |r|..] && (r == "" || r[0] != ' ')
  {
    var p := FromAt(s, 0, n);
    assert p < |s| ==> From(s, n)[0] == s[p];
  }

  /** A scan from position m of the text t after position k is the scan from
    * position p = k + m of s, shifted by k. */
  lemma {:induction false} SkipSpacesShift(s: string, k: nat, t: string, m: nat, p: nat)
    requires p == k + m <= |s| && t == s[k..]
    ensures SkipSpaces(t, m) + k == SkipSpaces(s, p)
    decreases |s| - p
  {
    if p < |s| {
      assert t[m] == s[p];
      if s[p] == ' ' {
        SkipSpacesShift(s, k, t, m + 1, p + 1);
      }
    }
  }

  lemma {:induction false} SkipWordShift(s: string, k: nat, t: string, m: nat, p: nat)
    requires p == k + m <= |s| && t == s[k..]
    ensures SkipWord(t, m) + k == SkipWord(s, p)
    decreases |s| - p
  {
    if p < |s| {
      assert t[m] == s[p];
      if s[p] != ' ' {
        SkipWordShift(s, k, t, m + 1, p + 1);
      }
    }
  }

  /** The words of the text t after position k, from position m on, are the
    * words of s from position p = k + m on. */
  lemma {:induction false} WordsAtShift(s: string, k: nat, t: string, m: nat, p: nat)
    requires p == k + m <= |s| && t == s[k..]
    ensures WordsAt(t, m) == WordsAt(s, p)
    decreases |s| - p, 1
  {
    SkipSpacesShift(s, k, t, m, p);
    var a := SkipSpaces(t, m);
    var a' := SkipSpaces(s, p);
    if a < |t| {
      SkipWordShift(s, k, t, a, a');
      var b := SkipWord(t, a);
      var b' := SkipWord(s, a');
      if b < |t| {
        SliceShift(s, k, t, a, b, a', b');
        WordsAtCons(t, m, a, b);
        WordsAtCons(s, p, a', b');
        WordsAtShiftCons(s, k, t, m, p, b, b', t[a..b], WordsAt(t, b + 1), WordsAt(s, b' + 1));
      } else {
        WordsAtShiftLast(s, k, t, m, p, a, a', b, b');
      }
    }
  }

  lemma {:induction false} WordsAtShiftCons(s: string, k: nat, t: string, m: nat, p: nat, b: nat, b': nat,
                                            w: string, tail: seq<string>, rest: seq<string>)
    requires p == k + m <= |s| && t == s[k..] && b < |t| && b' == b + k && p <= b'
    requires tail == WordsAt(t, b + 1) && rest == WordsAt(s, b' + 1)
    requires WordsAt(t, m) == [w] + tail && WordsAt(s, p) == [w] + rest
    ensures WordsAt(t, m) == WordsAt(s, p)
    decreases |s| - p, 0
  {
    WordsAtShift(s, k, t, b + 1, b' + 1);
    ConsEqual(WordsAt(t, m), w, tail, WordsAt(s, p), w, rest);
  }

  lemma WordsAtShiftLast(s: string, k: nat, t: string, m: nat, p: nat, a: nat, a': nat, b: nat, b': nat)
    requires p == k + m <= |s| && t == s[k..]
    requires a == SkipSpaces(t, m) && a' == SkipSpaces(s, p) && a' == a + k && a < |t|
    requires b == SkipWord(t, a) && b' == SkipWord(s, a') && b' == b + k && b == |t|
    ensures WordsAt(t, m) == WordsAt(s, p)
  {
    SliceShift(s, k, t, a, b, a', b');
    WordsAtLast(t, m, a, b);
    WordsAtLast(s, p, a', b');
  }

  /** Slicing the text after position k is slicing s, shifted by k. */
  lemma SliceShift(s: string, k: nat, t: string, a: nat, b: nat, a': nat, b': nat)
    requires k <= |s| && t == s[k..] && a <= b <= |t| && a' == k + a && b' == k + b
    ensures t[a..b] == s[a'..b']
  {
  }

  /** Lists with equal heads and equal tails are equal. */
  lemma ConsEqual(ws: seq<string>, w: string, tail: seq<string>, vs: seq<string>, v: string, rest: seq<string>)
    requires ws == [w] + tail && vs == [v] + rest && w == v && tail == rest
    ensures ws == vs
  {
  }

  /** When the word at a runs to the end, it is the last word. */
  lemma WordsAtLast(s: string, i: nat, a: nat, b: nat)
    requires i <= |s| && a == SkipSpaces(s, i) && a < |s| && b == SkipWord(s, a) && b == |s|
    ensures WordsAt(s, i) == [s[a..b]]
  {
  }

  lemma {:induction false} FromAtShift(s: string, k: nat, t: string, m: nat, p: nat, n: nat)
    requires p == k + m <= |s| && t == s[k..]
    ensures FromAt(t, m, n) + k == FromAt(s, p, n)
    decreases n, 1
  {
    SkipSpacesShift(s, k, t, m, p);
    var a := SkipSpaces(t, m);
    var a' := SkipSpaces(s, p);
    if n == 0 {
      assert FromAt(t, m, n) == a;
      assert FromAt(s, p, n) == a';
    } else {
      SkipWordShift(s, k, t, a, a');
      var b := SkipWord(t, a);
      var b' := SkipWord(s, a');
      if b < |t| - 1 {
        FromAtStep(t, m, n, a, b);
        FromAtStep(s, p, n, a', b');
        FromAtShiftStep(s, k, t, n, b, b');
      } else {
        FromAtShiftEnd(s, k, t, m, p, n, a, a', b, b');
      }
    }
  }

  lemma {:induction false} FromAtShiftStep(s: string, k: nat, t: string, n: nat, b: nat, b': nat)
    requires n > 0 && k <= |s| && t == s[k..] && b < |t| - 1 && b' == b + k
    ensures FromAt(t, b + 1, n - 1) + k == FromAt(s, b' + 1, n - 1)
    decreases n, 0
  {
    FromAtShift(s, k, t, b + 1, b' + 1, n - 1);
  }

  lemma FromAtShiftEnd(s: string, k: nat, t: string, m: nat, p: nat, n: nat, a: nat, a': nat, b: nat, b': nat)
    requires p == k + m <= |s| && t == s[k..] && n > 0
    requires a == SkipSpaces(t, m) && a' == SkipSpaces(s, p) && a' == a + k
    requires b == SkipWord(t, a) && b' == SkipWord(s, a') && b' == b + k && b >= |t| - 1
    ensures FromAt(t, m, n) + k == FromAt(s, p, n)
  {
    assert FromAt(t, m, n) == |t|;
    assert FromAt(s, p, n) == |s|;
  }

  /** The items of ws after the first n; none when there are fewer. */
  function Later(ws: seq<string>, n: nat): seq<string>
  {
    if n <= |ws| then ws[n..] else []
  }

  /** Dropping n items of a list with a head is dropping n - 1 of its tail. */
  lemma LaterOfCons(ws: seq<string>, w: string, tail: seq<string>, n: nat)
    requires n > 0 && ws == [w] + tail
    ensures Later(ws, n) == Later(tail, n - 1)
  {
    if n <= |ws| {
      assert ws[n..] == tail[n - 1..];
    }
  }

  /** The text from position FromAt(s, i, n) on holds exactly the words of s
    * from position i on, less the first n. */
  lemma {:induction false} FromAtHoldsLaterWords(s: string, i: nat, n: nat)
    requires i <= |s|
    ensures WordsAt(s, FromAt(s, i, n)) == Later(WordsAt(s, i), n)
    decreases n, 2
  {
    var a := SkipSpaces(s, i);
    if n == 0 {
      LaterWordsNone(s, i);
    } else if a == |s| {
      LaterWordsAtEnd(s, i, n);
    } else {
      var b := SkipWord(s, a);
      if b < |s| - 1 {
        LaterWordsAfterWord(s, i, n, a, b);
      } else {
        LaterWordsLastWord(s, i, n, a, b);
      }
    }
  }

  lemma LaterWordsNone(s: string, i: nat)
    requires i <= |s|
    ensures WordsAt(s, FromAt(s, i, 0)) == Later(WordsAt(s, i), 0)
  {
    var a := SkipSpaces(s, i);
    assert SkipSpaces(s, a) == a;
    assert WordsAt(s, a) == WordsAt(s, i);
  }

  lemma LaterWordsAtEnd(s: string, i: nat, n: nat)
    requires i <= |s| && n > 0 && SkipSpaces(s, i) == |s|
    ensures WordsAt(s, FromAt(s, i, n)) == Later(WordsAt(s, i), n)
  {
    assert WordsAt(s, i) == [];
    assert FromAt(s, i, n) == |s|;
  }

  lemma LaterWordsLastWord(s: string, i: nat, n: nat, a: nat, b: nat)
    requires i <= |s| && n > 0 && a == SkipSpaces(s, i) && a < |s| && b == SkipWord(s, a) && b >= |s| - 1
    ensures WordsAt(s, FromAt(s, i, n)) == Later(WordsAt(s, i), n)
  {
    assert WordsAt(s, |s|) == [];
    assert WordsAt(s, i) == [s[a..b]];
    assert FromAt(s, i, n) == |s|;
  }

  lemma {:induction false} LaterWordsAfterWord(s: string, i: nat, n: nat, a: nat, b: nat)
    requires i <= |s| && n > 0 && a == SkipSpaces(s, i) && a < |s| && b == SkipWord(s, a) && b < |s| - 1
    ensures WordsAt(s, FromAt(s, i, n)) == Later(WordsAt(s, i), n)
    decreases n, 1
  {
    WordsAtCons(s, i, a, b);
    FromAtStep(s, i, n, a, b);
    FromAtHoldsLaterStep(s, i, n, b + 1, s[a..b], WordsAt(s, b + 1));
  }

  /** The step: the words from i on are w, then the words from j on, and
    * skipping n words from i is skipping n - 1 from j. */
  lemma {:induction false} FromAtHoldsLaterStep(s: string, i: nat, n: nat, j: nat, w: string, tail: seq<string>)
    requires i <= |s| && j <= |s| && n > 0
    requires WordsAt(s, i) == [w] + tail && tail == WordsAt(s, j)
    requires FromAt(s, i, n) == FromAt(s, j, n - 1)
    ensures WordsAt(s, FromAt(s, i, n)) == Later(WordsAt(s, i), n)
    decreases n, 0
  {
    FromAtHoldsLaterWords(s, j, n - 1);
    LaterOfCons(WordsAt(s, i), w, tail, n);
  }

  /** The words from i on are the word at a, then the words after it. */
  lemma WordsAtCons(s: string, i: nat, a: nat, b: nat)
    requires i <= |s| && a == SkipSpaces(s, i) && a < |s| && b == SkipWord(s, a) && b < |s|
    ensures WordsAt(s, i) == [s[a..b]] + WordsAt(s, b + 1)
  {
  }

  /** Skipping n words from i is skipping n - 1 from after the word at a. */
  lemma FromAtStep(s: string, i: nat, n: nat, a: nat, b: nat)
    requires i <= |s| && n > 0 && a == SkipSpaces(s, i) && b == SkipWord(s, a) && b < |s| - 1
    ensures FromAt(s, i, n) == FromAt(s, b + 1, n - 1)
  {
  }

  /** From(s, n) holds exactly the words of s from word n on. */
  lemma FromHoldsLaterWords(s: string, n: nat)
    ensures Words(From(s, n)) == Later(Words(s), n)
  {
    WordsAtShift(s, FromAt(s, 0, n), From(s, n), 0, FromAt(s, 0, n));
    FromAtHoldsLaterWords(s, 0, n);
  }

  /** Leading spaces do not change the words. */
  lemma SpacesDropped(s: string)
    ensures Words(s[SkipSpaces(s, 0)..]) == Words(s)
  {
    var a := SkipSpaces(s, 0);
    WordsAtShift(s, a, s[a..], 0, a);
    assert SkipSpaces(s, a) == a;
  }

  /** queryCommand: the first word, lower-cased and without its `#`, when it
    * starts with `#`. */
  function CommandWord(text: string): (r: Option<string>)
  {
    var w := NthWord(text, 0);
    if w == "" || w[0] != TURTLECHAR then None else Some(JavaText.ToLowerAscii(w[1..]))
  }

  /** The loop that skips spaces from position i. */
  method SkipSpacesFrom(command: string, i0: nat) returns (i: nat)
    requires i0 <= |command|
    ensures i == SkipSpaces(command, i0)
  {
    i := i0;
    while i < |command| && command[i] == ' '
      invariant i0 <= i <= |command| && SkipSpaces(command, i) == SkipSpaces(command, i0)
    {
      i := i + 1;
    }
  }

  /** The loop that skips the characters of a word from position i. */
  method SkipWordFrom(command: string, i0: nat) returns (j: nat)
    requires i0 <= |command|
    ensures j == SkipWord(command, i0)
  {
    j := i0;
    while j < |command| && command[j] != ' '
      invariant i0 <= j <= |command| && SkipWord(command, j) == SkipWord(command, i0)
    {
      j := j + 1;
    }
  }

  /** Word n of s, in terms of the two scans word() makes. */
  lemma NthWordCases(s: string, n: nat, i: nat, j: nat)
    requires i == SkipSpaces(s, 0) && j == SkipWord(s, i)
    ensures i == |s| ==> NthWord(s, n) == ""
    ensures i < |s| && j == |s| ==> NthWord(s, n) == if n == 0 then s[i..] else ""
    ensures i < |s| && j < |s| && n == 0 ==> NthWord(s, n) == s[i..j]
    ensures i < |s| && j == |s| - 1 && n > 0 ==> NthWord(s, n) == ""
  {
    if i < |s| && j == |s| - 1 {
      assert WordsAt(s, j + 1) == [];
    }
  }

  /** Past the first word, word n of s is word n - 1 of the text after it. */
  lemma NthWordAfterWord(s: string, n: nat, i: nat, j: nat, rest: string, w: string)
    requires i == SkipSpaces(s, 0) && j == SkipWord(s, i) && i < |s| && n > 0 && j < |s| - 1
    requires rest == s[j + 1..] && w == NthWord(rest, n - 1)
    ensures w == NthWord(s, n)
  {
    WordsAtShift(s, j + 1, rest, 0, j + 1);
    WordsAtCons(s, 0, i, j);
    NthOfCons(Words(s), s[i..j], WordsAt(s, j + 1), n, w);
  }

  /** Item n of a list with a head is item n - 1 of its tail. */
  lemma NthOfCons(ws: seq<string>, w: string, tail: seq<string>, n: nat, x: string)
    requires n > 0 && ws == [w] + tail && x == Nth(tail, n - 1)
    ensures x == Nth(ws, n)
  {
  }

  lemma NthWordHasNoSpace(s: string, n: nat)
    ensures ' ' !in NthWord(s, n)
  {
    WordsAreWords(s, 0);
  }

  /** word(command, num): null for a negative index, else word number num. */
  method Word(command: string, num: int) returns (r: Option<string>)
    ensures num < 0 ==> r == None
    ensures num >= 0 ==> r == Some(NthWord(command, num))
    ensures r.Some? ==> ' ' !in r.value
    decreases |command|
  {
    if num < 0 {
      return None;
    }
    var len := |command|;
    var i := SkipSpacesFrom(command, 0);
    var j := SkipWordFrom(command, i);
    NthWordCases(command, num, i, j);
    NthWordHasNoSpace(command, num);
    if i == len {
      return Some("");
    }
    if j == len {
      if num == 0 {
        return Some(command[i..]);
      } else {
        return Some("");
      }
    }
    if num <= 0 {
      return Some(command[i..j]);
    }
    if j == len - 1 {
      return Some("");
    }
    var rest := command[j + 1..];
    r := Word(rest, num - 1);
    NthWordAfterWord(command, num, i, j, rest, r.value);
  }

  /** Past the first word, the text from word n of s is the text from word
    * n - 1 of the text after it. */
  lemma FromAfterWord(s: string, n: nat, i: nat, j: nat, rest: string, r: string)
    requires i == SkipSpaces(s, 0) && j == SkipWord(s, i) && n > 0 && j < |s| - 1
    requires rest == s[j + 1..] && r == From(rest, n - 1)
    ensures r == From(s, n)
  {
    FromAtStep(s, 0, n, i, j);
    FromAfterShift(s, n, j + 1, rest, r);
  }

  lemma FromAfterShift(s: string, n: nat, k: nat, rest: string, r: string)
    requires n > 0 && k <= |s| && rest == s[k..] && r == From(rest, n - 1)
    requires FromAt(s, 0, n) == FromAt(s, k, n - 1)
    ensures r == From(s, n)
  {
    FromAtShift(s, k, rest, 0, k, n - 1);
    DropOfDrop(s, k, rest, FromAt(rest, 0, n - 1), FromAt(s, 0, n));
  }

  /** The text after position p of the text after position k of s is the
    * text after position q = k + p of s. */
  lemma DropOfDrop(s: string, k: nat, rest: string, p: nat, q: nat)
    requires k <= |s| && rest == s[k..] && p <= |rest| && q == k + p
    ensures rest[p..] == s[q..]
  {
  }

  /** wordsFrom(command, num): the whole text for a negative index, else the
    * text from word num on. */
  method WordsFrom(command: string, num: int) returns (r: string)
    ensures num < 0 ==> r == command
    ensures num >= 0 ==> r == From(command, num)
    decreases |command|
  {
    if num < 0 {
      return command;
    }
    var len := |command|;
    var i := SkipSpacesFrom(command, 0);
    if num == 0 {
      return command[i..];
    }
    var j := SkipWordFrom(command, i);
    if j >= len - 1 {
      return "";
    }
    var rest := command[j + 1..];
    r := WordsFrom(rest, num - 1);
    FromAfterWord(command, num, i, j, rest, r);
  }

  method QueryCommand(text: string) returns (r: Option<string>)
    ensures r == CommandWord(text)
    ensures r.Some? <==> Words(text) != [] && Words(text)[0][0] == TURTLECHAR
  {
    var cmd := Word(text, 0);
    var w := cmd.value;
    WordsAreWords(text, 0);
    if w == "" || w[0] != TURTLECHAR {
      return None;
    }
    return Some(JavaText.ToLowerAscii(w[1..]));
  }
}
