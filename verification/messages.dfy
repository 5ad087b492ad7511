/** `messages._format`: the greedy word wrapper behind `error` and `inform`.
    The message is cut into whitespace-separated words, and the words are
    laid out on lines that start with `left_margin` spaces. A word moves to a
    new line when the current line already holds a word and the cursor plus
    the word's length passes `right_margin`. */
module Messages {
  import opened PyText

  /** `" " * left_margin`: a negative margin repeats nothing. */
  function Pad(left: int): (p: string)
    ensures AllSpaces(p) && '\n' !in p
    ensures |p| == if left > 0 then left else 0
  {
    Repeat(' ', if left > 0 then left else 0)
  }

  /** The loop's variables: the text so far (`fmsg`) and the column (`curs`). */
  datatype Cursor = Cursor(text: string, curs: int)

  /** One turn of the loop for word `w`: break the line when it already
      holds a word and the word would pass the right margin, then add a
      space unless the line is empty, then the word. The separating space
      is not counted in the test. */
  function Place(st: Cursor, w: string, left: int, right: int): Cursor {
    var broken := st.curs != left && st.curs + |w| > right;
    var text := if broken then st.text + "\n" + Pad(left) else st.text;
    var curs := if broken then left else st.curs;
    var spaced := curs > left;
    var text' := if spaced then text + " " else text;
    var curs' := if spaced then curs + 1 else curs;
    Cursor(text' + w, curs' + |w|)
  }

  /** The loop over the words `ws`, in order. */
  function Run(ws: seq<string>, left: int, right: int): Cursor
    decreases |ws|
  {
    if |ws| == 0 then Cursor(Pad(left), left)
    else Place(Run(ws[..|ws| - 1], left, right), ws[|ws| - 1], left, right)
  }

  /** `_format(msg, left_margin, right_margin)`. */
  function Format(msg: string, left: int, right: int): string {
    Run(Words(msg), left, right).text
  }

  // ---------------------------------------------------------------------------
  // The layout: the same text as lines of words
  // ---------------------------------------------------------------------------

  /** Words that `split()` can yield: non-empty, without whitespace. */
  predicate WordList(ws: seq<string>) {
    forall i :: 0 <= i < |ws| ==> |ws[i]| > 0 && NoSpaces(ws[i])
  }

  predicate WordLines(lines: seq<seq<string>>) {
    forall i :: 0 <= i < |lines| ==> WordList(lines[i])
  }

  /** The words of one line joined by single spaces. */
  function Line(ws: seq<string>): string
    decreases |ws|
  {
    if |ws| == 0 then ""
    else if |ws| == 1 then ws[0]
    else Line(ws[..|ws| - 1]) + " " + ws[|ws| - 1]
  }

  /** The text of a layout: each line after the margin, lines separated by
      line feeds; no line at all is the margin alone. */
  function Render(lines: seq<seq<string>>, left: int): string
    decreases |lines|
  {
    if |lines| == 0 then Pad(left)
    else if |lines| == 1 then Pad(left) + Line(lines[0])
    else Render(lines[..|lines| - 1], left) + "\n" + Pad(left) + Line(lines[|lines| - 1])
  }

  /** The rows of the rendered text, one per line of the layout. */
  function Rows(lines: seq<seq<string>>, left: int): (rows: seq<string>)
    ensures |rows| == |lines|
    decreases |lines|
  {
    if |lines| == 0 then []
    else Rows(lines[..|lines| - 1], left) + [Pad(left) + Line(lines[|lines| - 1])]
  }

  /** All the words of a layout, line after line. */
  function Flatten(lines: seq<seq<string>>): seq<string>
    decreases |lines|
  {
    if |lines| == 0 then [] else Flatten(lines[..|lines| - 1]) + lines[|lines| - 1]
  }

  /** The declarative account of a greedy layout: no line is empty, every
      word after the first on its line passed the fit test, and every line
      ended only because its next word failed that test. */
  predicate Greedy(lines: seq<seq<string>>, left: int, right: int) {
    && (forall i :: 0 <= i < |lines| ==> |lines[i]| > 0)
    && (forall i, j :: 0 <= i < |lines| && 1 <= j < |lines[i]| ==>
          left + |Line(lines[i][..j])| + |lines[i][j]| <= right)
    && (forall i :: 0 <= i < |lines| - 1 ==>
          left + |Line(lines[i])| + |lines[i + 1][0]| > right)
  }

  /** Adding a word to a layout the greedy way. */
  function Add(lines: seq<seq<string>>, w: string, left: int, right: int): seq<seq<string>> {
    if |lines| == 0 then [[w]]
    else
      var last := lines[|lines| - 1];
      if left + |Line(last)| + |w| > right then lines + [[w]]
      else lines[..|lines| - 1] + [last + [w]]
  }

  function Layout(ws: seq<string>, left: int, right: int): seq<seq<string>>
    decreases |ws|
  {
    if |ws| == 0 then [] else Add(Layout(ws[..|ws| - 1], left, right), ws[|ws| - 1], left, right)
  }

  /** The column after a layout: the margin plus the width of its last line. */
  function Column(lines: seq<seq<string>>, left: int): int {
    if |lines| == 0 then left else left + |Line(lines[|lines| - 1])|
  }

  /** Every line feed of `t` is followed by the margin, and so is its start. */
  predicate Margined(t: string, pad: string) {
    && pad <= t
    && forall k :: 0 <= k < |t| && t[k] == '\n' ==> pad <= t[k + 1..]
  }

  // ---------------------------------------------------------------------------
  // The loop builds the layout
  // ---------------------------------------------------------------------------

  /** After any number of words, the loop's text is the rendered greedy
      layout of those words and its cursor is the column after it. */
  lemma {:induction false} RunRenders(ws: seq<string>, left: int, right: int)
    requires WordList(ws)
    ensures Run(ws, left, right) == Cursor(Render(Layout(ws, left, right), left), Column(Layout(ws, left, right), left))
    decreases |ws|
  {
    if |ws| > 0 {
      var init := ws[..|ws| - 1];
      assert WordList(init) by {
        assert forall i :: 0 <= i < |init| ==> init[i] == ws[i];
      }
      RunRenders(init, left, right);
      LayoutGreedy(init, left, right);
      LayoutWords(init, left, right);
      PlaceRenders(Layout(init, left, right), ws[|ws| - 1], left, right);
    }
  }

  /** One turn of the loop on a rendered layout renders the layout with the
      word added. */
  lemma PlaceRenders(lines: seq<seq<string>>, w: string, left: int, right: int)
    requires |w| > 0
    requires |lines| == 0 || (|lines[|lines| - 1]| > 0 && WordList(lines[|lines| - 1]))
    ensures Place(Cursor(Render(lines, left), Column(lines, left)), w, left, right)
      == Cursor(Render(Add(lines, w, left, right), left), Column(Add(lines, w, left, right), left))
  {
    if |lines| == 0 {
      assert Line([w]) == w;
    } else {
      var last := lines[|lines| - 1];
      LineWidth(last);
      if left + |Line(last)| + |w| > right {
        RenderNewLine(lines, w, left);
      } else {
        RenderSameLine(lines, w, left);
      }
    }
  }

  lemma LineWidth(ws: seq<string>)
    requires |ws| > 0 && |ws[|ws| - 1]| > 0
    ensures |Line(ws)| > 0
  {
  }

  lemma RenderNewLine(lines: seq<seq<string>>, w: string, left: int)
    requires |lines| > 0
    ensures Render(lines + [[w]], left) == Render(lines, left) + "\n" + Pad(left) + w
    ensures Column(lines + [[w]], left) == left + |w|
  {
    assert (lines + [[w]])[..|lines|] == lines;
    assert Line([w]) == w;
  }

  lemma RenderSameLine(lines: seq<seq<string>>, w: string, left: int)
    requires |lines| > 0
    requires |lines[|lines| - 1]| > 0
    ensures var last := lines[|lines| - 1];
      Render(lines[..|lines| - 1] + [last + [w]], left) == Render(lines, left) + " " + w
    ensures var last := lines[|lines| - 1];
      Column(lines[..|lines| - 1] + [last + [w]], left) == Column(lines, left) + 1 + |w|
  {
    var last := lines[|lines| - 1];
    var lines' := lines[..|lines| - 1] + [last + [w]];
    assert (last + [w])[..|last|] == last;
    assert Line(last + [w]) == Line(last) + " " + w;
    if |lines| > 1 {
      assert lines'[..|lines'| - 1] == lines[..|lines| - 1];
    }
  }

  // ---------------------------------------------------------------------------
  // The greedy layout
  // ---------------------------------------------------------------------------

  /** The layout keeps every word, in order. */
  lemma {:induction false} LayoutFlatten(ws: seq<string>, left: int, right: int)
    ensures Flatten(Layout(ws, left, right)) == ws
    decreases |ws|
  {
    if |ws| > 0 {
      var init := ws[..|ws| - 1];
      var w := ws[|ws| - 1];
      var lines := Layout(init, left, right);
      LayoutFlatten(init, left, right);
      AddFlatten(lines, w, left, right);
      assert init + [w] == ws;
    }
  }

  lemma AddFlatten(lines: seq<seq<string>>, w: string, left: int, right: int)
    ensures Flatten(Add(lines, w, left, right)) == Flatten(lines) + [w]
  {
    if |lines| > 0 {
      var last := lines[|lines| - 1];
      var init := lines[..|lines| - 1];
      if left + |Line(last)| + |w| > right {
        assert (lines + [[w]])[..|lines|] == lines;
      } else {
        assert (init + [last + [w]])[..|init|] == init;
        assert Flatten(lines) == Flatten(init) + last;
      }
    }
  }

  /** The layout of any words is greedy. */
  lemma {:induction false} LayoutGreedy(ws: seq<string>, left: int, right: int)
    ensures Greedy(Layout(ws, left, right), left, right)
    decreases |ws|
  {
    if |ws| > 0 {
      LayoutGreedy(ws[..|ws| - 1], left, right);
      AddGreedy(Layout(ws[..|ws| - 1], left, right), ws[|ws| - 1], left, right);
    }
  }

  lemma AddGreedy(lines: seq<seq<string>>, w: string, left: int, right: int)
    requires Greedy(lines, left, right)
    ensures Greedy(Add(lines, w, left, right), left, right)
  {
    if |lines| > 0 {
      var last := lines[|lines| - 1];
      if left + |Line(last)| + |w| > right {
        GreedyNewLine(lines, w, left, right);
      } else {
        GreedySameLine(lines, w, left, right);
      }
    }
  }

  /** A word that does not fit opens a line of its own. */
  lemma GreedyNewLine(lines: seq<seq<string>>, w: string, left: int, right: int)
    requires Greedy(lines, left, right) && |lines| > 0
    requires left + |Line(lines[|lines| - 1])| + |w| > right
    ensures Greedy(lines + [[w]], left, right)
  {
    var r := lines + [[w]];
    assert forall i :: 0 <= i < |lines| ==> r[i] == lines[i];
  }

  /** A word that fits joins the last line. */
  lemma GreedySameLine(lines: seq<seq<string>>, w: string, left: int, right: int)
    requires Greedy(lines, left, right) && |lines| > 0
    requires left + |Line(lines[|lines| - 1])| + |w| <= right
    ensures Greedy(lines[..|lines| - 1] + [lines[|lines| - 1] + [w]], left, right)
  {
    var last := lines[|lines| - 1];
    var init := lines[..|lines| - 1];
    var r := init + [last + [w]];
    assert forall i :: 0 <= i < |init| ==> r[i] == lines[i];
    var n := |last|;
    assert r[|init|][..n] == last;
    assert forall j :: 1 <= j < n ==> r[|init|][..j] == last[..j] && r[|init|][j] == last[j];
  }

  /** Every word of the layout is one of the words it was given. */
  lemma {:induction false} LayoutWords(ws: seq<string>, left: int, right: int)
    requires WordList(ws)
    ensures WordLines(Layout(ws, left, right))
    decreases |ws|
  {
    if |ws| > 0 {
      var init := ws[..|ws| - 1];
      assert WordList(init) by {
        assert forall i :: 0 <= i < |init| ==> init[i] == ws[i];
      }
      LayoutWords(init, left, right);
      AddWords(Layout(init, left, right), ws[|ws| - 1], left, right);
    }
  }

  lemma AddWords(lines: seq<seq<string>>, w: string, left: int, right: int)
    requires WordLines(lines) && |w| > 0 && NoSpaces(w)
    ensures WordLines(Add(lines, w, left, right))
  {
    if |lines| > 0 {
      var last := lines[|lines| - 1];
      var init := lines[..|lines| - 1];
      if left + |Line(last)| + |w| > right {
        var r := lines + [[w]];
        assert forall i :: 0 <= i < |lines| ==> r[i] == lines[i];
      } else {
        var r := init + [last + [w]];
        assert forall i :: 0 <= i < |init| ==> r[i] == lines[i];
        assert WordList(last);
        assert WordList(last + [w]);
      }
    }
  }

  // ---------------------------------------------------------------------------
  // The rendered text
  // ---------------------------------------------------------------------------

  /** The words of a line are the words it joins. */
  lemma {:induction false} LineWords(ws: seq<string>)
    requires WordList(ws)
    ensures Words(Line(ws)) == ws
    decreases |ws|
  {
    if |ws| == 1 {
      WordsOfWord(ws[0]);
    } else if |ws| > 1 {
      var init := ws[..|ws| - 1];
      var w := ws[|ws| - 1];
      assert WordList(init) by {
        assert forall i :: 0 <= i < |init| ==> init[i] == ws[i];
      }
      LineWords(init);
      WordsSpaced(Line(init), w);
      assert init + [w] == ws;
    }
  }

  /** A space before a word keeps it apart from what precedes it. */
  lemma WordsSpaced(a: string, w: string)
    requires |w| > 0 && NoSpaces(w)
    ensures Words(a + " " + w) == Words(a) + [w]
  {
    WordsOfWord(w);
    WordsOfSpaces(" ");
    WordsAppend(" ", w);
    assert a + " " + w == a + (" " + w);
    WordsAppend(a, " " + w);
  }

  /** A row (margin and line) holds exactly the line's words. */
  lemma RowWords(ws: seq<string>, left: int)
    requires WordList(ws)
    ensures Words(Pad(left) + Line(ws)) == ws
  {
    LineWords(ws);
    WordsOfSpaces(Pad(left));
    WordsAppend(Pad(left), Line(ws));
  }

  /** The words of the rendered text are the words of the layout. */
  lemma {:induction false} RenderWords(lines: seq<seq<string>>, left: int)
    requires WordLines(lines)
    ensures Words(Render(lines, left)) == Flatten(lines)
    decreases |lines|
  {
    if |lines| == 0 {
      WordsOfSpaces(Pad(left));
    } else if |lines| == 1 {
      RowWords(lines[0], left);
      assert Flatten(lines) == Flatten(lines[..0]) + lines[0];
    } else {
      var init := lines[..|lines| - 1];
      var row := Pad(left) + Line(lines[|lines| - 1]);
      assert WordLines(init) by {
        assert forall i :: 0 <= i < |init| ==> init[i] == lines[i];
      }
      RenderWords(init, left);
      RowWords(lines[|lines| - 1], left);
      WordsFeed(Render(init, left), row);
      assert Render(lines, left) == Render(init, left) + "\n" + row;
    }
  }

  /** A line feed keeps the words on either side apart. */
  lemma WordsFeed(a: string, b: string)
    ensures Words(a + "\n" + b) == Words(a) + Words(b)
  {
    WordsOfSpaces("\n");
    WordsAppend(a, "\n");
    WordsAppend(a + "\n", b);
  }

  /** A line of words holds no line feed. */
  lemma {:induction false} LineNoFeed(ws: seq<string>)
    requires WordList(ws)
    ensures '\n' !in Line(ws)
    decreases |ws|
  {
    if |ws| == 1 {
      WordNoFeed(ws[0]);
    } else if |ws| > 1 {
      var init := ws[..|ws| - 1];
      assert WordList(init) by {
        assert forall i :: 0 <= i < |init| ==> init[i] == ws[i];
      }
      LineNoFeed(init);
      WordNoFeed(ws[|ws| - 1]);
    }
  }

  lemma WordNoFeed(w: string)
    requires NoSpaces(w)
    ensures '\n' !in w
  {
    assert IsSpace('\n');
  }

  /** The rendered text splits at its line feeds into the rows. */
  lemma {:induction false} RenderRows(lines: seq<seq<string>>, left: int)
    requires |lines| > 0 && WordLines(lines)
    ensures Split(Render(lines, left), '\n') == Rows(lines, left)
    decreases |lines|
  {
    var row := Pad(left) + Line(lines[|lines| - 1]);
    LineNoFeed(lines[|lines| - 1]);
    assert '\n' !in row;
    if |lines| == 1 {
      SplitNoSep(row, '\n');
      assert lines[..0] == [];
    } else {
      var init := lines[..|lines| - 1];
      assert WordLines(init) by {
        assert forall i :: 0 <= i < |init| ==> init[i] == lines[i];
      }
      RenderRows(init, left);
      SplitSnoc(Render(init, left), row);
      assert Render(lines, left) == Render(init, left) + "\n" + row;
    }
  }

  /** Splitting `a + "\n" + b`, for `b` without line feeds, adds `b` as the
      last piece. */
  lemma {:induction false} SplitSnoc(a: string, b: string)
    requires '\n' !in b
    ensures Split(a + "\n" + b, '\n') == Split(a, '\n') + [b]
    decreases |a|
  {
    if |a| == 0 {
      assert a + "\n" + b == [] + ['\n'] + b;
      SplitCons([], '\n', b);
      SplitNoSep(b, '\n');
    } else {
      SplitSnoc(a[1..], b);
      assert (a + "\n" + b)[1..] == a[1..] + "\n" + b;
    }
  }

  /** The i-th row is the margin and the i-th line. */
  lemma {:induction false} RowsAt(lines: seq<seq<string>>, left: int, i: int)
    requires 0 <= i < |lines|
    ensures Rows(lines, left)[i] == Pad(left) + Line(lines[i])
    decreases |lines|
  {
    if i < |lines| - 1 {
      RowsAt(lines[..|lines| - 1], left, i);
    }
  }

  /** The rendered text starts with the margin, and so does every line after
      a line feed. */
  lemma {:induction false} RenderMargins(lines: seq<seq<string>>, left: int)
    requires WordLines(lines)
    ensures Margined(Render(lines, left), Pad(left))
    decreases |lines|
  {
    if |lines| == 0 {
      MarginRow(Pad(left), "");
      assert Pad(left) + "" == Pad(left);
    } else if |lines| == 1 {
      LineNoFeed(lines[0]);
      MarginRow(Pad(left), Line(lines[0]));
    } else {
      var init := lines[..|lines| - 1];
      assert WordLines(init) by {
        assert forall i :: 0 <= i < |init| ==> init[i] == lines[i];
      }
      RenderMargins(init, left);
      LineNoFeed(lines[|lines| - 1]);
      MarginFeed(Render(init, left), Pad(left), Line(lines[|lines| - 1]));
    }
  }

  lemma MarginRow(pad: string, u: string)
    requires '\n' !in pad && '\n' !in u
    ensures Margined(pad + u, pad)
  {
    forall k | 0 <= k < |pad + u| ensures (pad + u)[k] != '\n' {
      if k >= |pad| {
        assert (pad + u)[k] == u[k - |pad|];
      }
    }
  }

  lemma MarginFeed(t: string, pad: string, u: string)
    requires Margined(t, pad) && '\n' !in pad && '\n' !in u
    ensures Margined(t + "\n" + pad + u, pad)
  {
    var s := t + "\n" + pad + u;
    assert s[..|t|] == t;
    assert s[|t| + 1..] == pad + u;
    assert '\n' !in pad + u;
    forall k | 0 <= k < |s| && s[k] == '\n' ensures pad <= s[k + 1..] {
      if k < |t| {
        assert s[k] == t[k];
        assert pad <= t[k + 1..];
        assert t[k + 1..] <= s[k + 1..];
      }
    }
  }

  /** A line of two or more words in a greedy layout fits in one column
      past the right margin: the last word passed the fit test, and only
      the separating space goes over. */
  lemma LineBound(lines: seq<seq<string>>, left: int, right: int, i: int)
    requires Greedy(lines, left, right) && 0 <= i < |lines| && |lines[i]| >= 2
    ensures left + |Line(lines[i])| <= right + 1
  {
    var ws := lines[i];
    var n := |ws| - 1;
    assert ws[..n + 1] == ws;
    assert left + |Line(ws[..n])| + |ws[n]| <= right;
  }

  // ---------------------------------------------------------------------------
  // Properties of `_format`
  // ---------------------------------------------------------------------------

  /** `_format` is the rendered greedy layout of the message's words. */
  lemma FormatLayout(msg: string, left: int, right: int)
    ensures var lines := Layout(Words(msg), left, right);
      && Format(msg, left, right) == Render(lines, left)
      && Greedy(lines, left, right)
      && Flatten(lines) == Words(msg)
  {
    RunRenders(Words(msg), left, right);
    LayoutGreedy(Words(msg), left, right);
    LayoutFlatten(Words(msg), left, right);
  }

  /** The output has the same words as the message, in the same order. */
  lemma FormatWords(msg: string, left: int, right: int)
    ensures Words(Format(msg, left, right)) == Words(msg)
  {
    var lines := Layout(Words(msg), left, right);
    FormatLayout(msg, left, right);
    LayoutWords(Words(msg), left, right);
    RenderWords(lines, left);
  }

  /** The output starts with `left_margin` spaces, and so does every line
      after a line feed. */
  lemma FormatMargins(msg: string, left: int, right: int)
    ensures Margined(Format(msg, left, right), Pad(left))
  {
    FormatLayout(msg, left, right);
    LayoutWords(Words(msg), left, right);
    RenderMargins(Layout(Words(msg), left, right), left);
  }

  /** An empty or all-whitespace message gives the margin alone. */
  lemma FormatBlank(msg: string, left: int, right: int)
    requires AllSpaces(msg)
    ensures Format(msg, left, right) == Pad(left)
  {
    WordsOfSpaces(msg);
  }

  /** With a non-negative margin, each output line that holds two or more
      words is at most `right_margin + 1` characters long; a longer line is
      a single word, kept whole. */
  lemma FormatWidth(msg: string, left: int, right: int)
    requires left >= 0
    ensures var rows := Split(Format(msg, left, right), '\n');
      forall i :: 0 <= i < |rows| ==> |rows[i]| <= right + 1 || |Words(rows[i])| <= 1
  {
    var lines := Layout(Words(msg), left, right);
    FormatLayout(msg, left, right);
    LayoutWords(Words(msg), left, right);
    if |lines| == 0 {
      SplitNoSep(Pad(left), '\n');
      WordsOfSpaces(Pad(left));
    } else {
      RenderRows(lines, left);
      var rows := Rows(lines, left);
      forall i | 0 <= i < |rows| ensures |rows[i]| <= right + 1 || |Words(rows[i])| <= 1 {
        RowsAt(lines, left, i);
        RowWords(lines[i], left);
        if |lines[i]| >= 2 {
          LineBound(lines, left, right, i);
        }
      }
    }
  }

  /** Row `a` was ended before row `b` because `b`'s first word did not fit
      after it. */
  predicate Forced(a: string, b: string, right: int) {
    |Words(a)| > 0 && |Words(b)| > 0 && |a| + |Words(b)[0]| > right
  }

  /** With a non-negative margin, a line ends only when it holds a word and
      the next line's first word would have passed the right margin. */
  lemma FormatBreaks(msg: string, left: int, right: int)
    requires left >= 0
    ensures var rows := Split(Format(msg, left, right), '\n');
      forall i :: 0 <= i < |rows| - 1 ==> Forced(rows[i], rows[i + 1], right)
  {
    var lines := Layout(Words(msg), left, right);
    FormatLayout(msg, left, right);
    LayoutWords(Words(msg), left, right);
    if |lines| == 0 {
      SplitNoSep(Pad(left), '\n');
    } else {
      RenderRows(lines, left);
      forall i | 0 <= i < |lines| - 1 ensures Forced(Rows(lines, left)[i], Rows(lines, left)[i + 1], right) {
        RowForced(lines, left, right, i);
      }
    }
  }

  lemma RowForced(lines: seq<seq<string>>, left: int, right: int, i: int)
    requires left >= 0 && Greedy(lines, left, right) && WordLines(lines)
    requires 0 <= i < |lines| - 1
    ensures Forced(Rows(lines, left)[i], Rows(lines, left)[i + 1], right)
  {
    RowsAt(lines, left, i);
    RowsAt(lines, left, i + 1);
    RowWords(lines[i], left);
    RowWords(lines[i + 1], left);
  }

  /** The bound is reached: with margins 0 and 4, `"ab cd"` stays on one
      line of 5 characters, because the space is not counted when `cd` is
      tested. */
  lemma FormatOverhang()
    ensures Format("ab cd", 0, 4) == "ab cd" && |"ab cd"| == 4 + 1
  {
    assert NoSpaces("ab") && NoSpaces("cd");
    WordsSpaced("ab", "cd");
    WordsOfWord("ab");
    assert "ab" + " " + "cd" == "ab cd";
    var ws := ["ab", "cd"];
    assert Words("ab cd") == ws;
    assert ws[..1] == ["ab"] && ["ab"][..0] == [];
    assert Pad(0) == "";
    assert Run(["ab"], 0, 4) == Cursor("ab", 2);
    assert Run(ws, 0, 4) == Place(Cursor("ab", 2), "cd", 0, 4);
  }
}
