/** Formatting of the command line: redundant spaces are squeezed out. */
module LineFormat {
  import opened Terminal

  /** The character at i survives: it is no space, or the first of a run that is not leading. */
  predicate Stays(text: string, i: nat)
    requires i < |text|
  {
    text[i] != ' ' || (i > 0 && text[i - 1] != ' ')
  }

  /** What the first n characters are squeezed to. */
  function Squeezed(text: string, n: nat): (r: string)
    requires n <= |text|
    ensures |r| <= n
  {
    if n == 0 then "" else Squeezed(text, n - 1) + if Stays(text, n - 1) then [text[n - 1]] else []
  }

  function Formatted(text: string): string {
    Squeezed(text, |text|)
  }

  predicate EndsInSpace(text: string) {
    text != "" && text[|text| - 1] == ' '
  }

  function ReplaceLast(ws: seq<string>, w: string): seq<string>
    requires ws != []
  {
    ws[..|ws| - 1] + [w]
  }

  /** The words of a line, read from its characters one by one. */
  function WordsOf(text: string): (ws: seq<string>)
    ensures text != "" && !EndsInSpace(text) ==> ws != []
  {
    if text == "" then []
    else
      var init, c := text[..|text| - 1], text[|text| - 1];
      if c == ' ' then WordsOf(init)
      else if init == "" || EndsInSpace(init) then WordsOf(init) + [[c]]
      else ReplaceLast(WordsOf(init), WordsOf(init)[|WordsOf(init)| - 1] + [c])
  }

  /** Words with one space between them. */
  function Joined(ws: seq<string>): string {
    if ws == [] then ""
    else if |ws| == 1 then ws[0]
    else Joined(ws[..|ws| - 1]) + " " + ws[|ws| - 1]
  }

  /** The words joined again; a line that ends in spaces keeps one behind its last word. */
  function Rejoined(text: string): string {
    Joined(WordsOf(text)) + if EndsInSpace(text) && WordsOf(text) != [] then " " else ""
  }

  lemma WordsSnoc(text: string, c: char)
    ensures WordsOf(text + [c]) ==
      if c == ' ' then WordsOf(text)
      else if text == "" || EndsInSpace(text) then WordsOf(text) + [[c]]
      else ReplaceLast(WordsOf(text), WordsOf(text)[|WordsOf(text)| - 1] + [c])
  {
    assert (text + [c])[..|text|] == text;
  }

  lemma JoinedSnoc(ws: seq<string>, w: string)
    ensures Joined(ws + [w]) == if ws == [] then w else Joined(ws) + " " + w
  {
    assert (ws + [w])[..|ws|] == ws;
  }

  lemma JoinedGrow(ws: seq<string>, c: char)
    requires ws != []
    ensures Joined(ReplaceLast(ws, ws[|ws| - 1] + [c])) == Joined(ws) + [c]
  {
    var init := ws[..|ws| - 1];
    JoinedSnoc(init, ws[|ws| - 1]);
    JoinedSnoc(init, ws[|ws| - 1] + [c]);
    assert ws == init + [ws[|ws| - 1]];
  }

  lemma {:induction false} RejoinedPrefix(text: string, n: nat)
    requires n <= |text|
    ensures Squeezed(text, n) == Rejoined(text[..n])
  {
    if n > 0 {
      RejoinedPrefix(text, n - 1);
      assert text[..n] == text[..n - 1] + [text[n - 1]];
      RejoinedSnoc(text[..n - 1], text[n - 1]);
    }
  }

  lemma RejoinedSpace(text: string)
    ensures Rejoined(text + [' ']) == Rejoined(text) + if text != "" && !EndsInSpace(text) then [' '] else []
  {
    WordsSnoc(text, ' ');
    if text == "" || EndsInSpace(text) {
      assert Rejoined(text) + [] == Rejoined(text);
    } else {
      assert Rejoined(text) == Joined(WordsOf(text)) + "" == Joined(WordsOf(text));
    }
  }

  lemma RejoinedNewWord(text: string, c: char)
    requires c != ' ' && (text == "" || EndsInSpace(text))
    ensures Rejoined(text + [c]) == Rejoined(text) + [c]
  {
    WordsSnoc(text, c);
    JoinedSnoc(WordsOf(text), [c]);
    assert !EndsInSpace(text + [c]);
    assert Rejoined(text + [c]) == Joined(WordsOf(text) + [[c]]);
  }

  lemma RejoinedSameWord(text: string, c: char)
    requires c != ' ' && text != "" && !EndsInSpace(text)
    ensures Rejoined(text + [c]) == Rejoined(text) + [c]
  {
    WordsSnoc(text, c);
    JoinedGrow(WordsOf(text), c);
    assert !EndsInSpace(text + [c]);
    assert Rejoined(text) == Joined(WordsOf(text));
  }

  lemma RejoinedSnoc(text: string, c: char)
    ensures Rejoined(text + [c]) == Rejoined(text) + if c != ' ' || (text != "" && !EndsInSpace(text)) then [c] else []
  {
    if c == ' ' {
      RejoinedSpace(text);
    } else if text == "" || EndsInSpace(text) {
      RejoinedNewWord(text, c);
    } else {
      RejoinedSameWord(text, c);
    }
  }

  /** Formatting is nothing but splitting the line into words and joining them with single spaces. */
  lemma FormatRejoins(text: string)
    ensures Formatted(text) == Rejoined(text)
  {
    RejoinedPrefix(text, |text|);
    assert text[..|text|] == text;
  }

  /** Nothing is left to squeeze. */
  predicate Tidy(text: string) {
    forall i :: 0 <= i < |text| ==> Stays(text, i)
  }

  /** A tidied line ends in a space where the original does. */
  predicate SameEnd(text: string, t: string) {
    if t == "" then text == "" || EndsInSpace(text) else text != "" && (EndsInSpace(t) <==> EndsInSpace(text))
  }

  /** One more character, dropped where it would be a leading or doubled space. */
  function Appended(text: string, t: string, c: char): string {
    if c != ' ' || (text != "" && !EndsInSpace(text)) then t + [c] else t
  }

  lemma SqueezedStep(text: string, n: nat)
    requires 0 < n <= |text|
    ensures text[..n] == text[..n - 1] + [text[n - 1]]
    ensures Squeezed(text, n) == Appended(text[..n - 1], Squeezed(text, n - 1), text[n - 1])
  {
  }

  lemma AppendedKeeps(text: string, t: string, c: char)
    requires Tidy(t) && WordsOf(t) == WordsOf(text) && SameEnd(text, t)
    ensures var t' := Appended(text, t, c);
      Tidy(t') && WordsOf(t') == WordsOf(text + [c]) && SameEnd(text + [c], t')
  {
    WordsSnoc(text, c);
    WordsSnoc(t, c);
    TidySnoc(t, c);
  }

  lemma {:induction false} SqueezedPrefix(text: string, n: nat)
    requires n <= |text|
    ensures var t := Squeezed(text, n); Tidy(t) && WordsOf(t) == WordsOf(text[..n]) && SameEnd(text[..n], t)
  {
    if n > 0 {
      SqueezedPrefix(text, n - 1);
      SqueezedStep(text, n);
      AppendedKeeps(text[..n - 1], Squeezed(text, n - 1), text[n - 1]);
    }
  }

  lemma TidySnoc(text: string, c: char)
    requires Tidy(text)
    ensures Tidy(text + [c]) <==> c != ' ' || (text != "" && !EndsInSpace(text))
  {
    var t := text + [c];
    forall i | 0 <= i < |text| ensures Stays(t, i) {
      assert Stays(text, i);
    }
    assert Stays(t, |text|) <==> c != ' ' || (text != "" && !EndsInSpace(text));
  }

  /** Formatting keeps the words and leaves no leading and no doubled space. */
  lemma FormatKeepsWords(text: string)
    ensures WordsOf(Formatted(text)) == WordsOf(text) && Tidy(Formatted(text))
  {
    SqueezedPrefix(text, |text|);
    assert text[..|text|] == text;
  }

  lemma {:induction false} TidyIsFixed(text: string, n: nat)
    requires n <= |text| && Tidy(text)
    ensures Squeezed(text, n) == text[..n]
  {
    if n > 0 {
      TidyIsFixed(text, n - 1);
      assert text[..n] == text[..n - 1] + [text[n - 1]];
    }
  }

  /** A line is left as it is exactly when it has no leading and no doubled space. */
  lemma FormatFixesTidy(text: string)
    ensures Formatted(text) == text <==> Tidy(text)
  {
    FormatKeepsWords(text);
    if Tidy(text) {
      TidyIsFixed(text, |text|);
    }
  }

  lemma FormatIdempotent(text: string)
    ensures Formatted(Formatted(text)) == Formatted(text)
  {
    FormatKeepsWords(text);
    FormatFixesTidy(Formatted(text));
  }

  /** The new cursor is behind exactly the characters kept from before the old one. */
  lemma {:induction false} CursorMaps(text: string, cursor: nat, n: nat)
    requires cursor <= n <= |text|
    ensures |Squeezed(text, cursor)| <= |Squeezed(text, n)|
    ensures Squeezed(text, n)[..|Squeezed(text, cursor)|] == Squeezed(text, cursor)
    decreases n - cursor
  {
    if cursor < n {
      CursorMaps(text, cursor, n - 1);
    }
  }

  /** The filter loop of shell_format: the new line in a cleared buffer, its end, and the cursor in it. */
  method Squeeze(line: array<char>, oldEnd: nat, oldCursor: nat, ghost text: string)
    returns (out: array<char>, end: nat, cursor: nat)
    requires oldCursor <= oldEnd < line.Length && text == line[..oldEnd]
    ensures fresh(out) && out.Length == line.Length
    ensures end <= oldEnd && out[..end] == Formatted(text) && out[end] == NUL
    ensures cursor == |Squeezed(text, oldCursor)|
  {
    out := new char[line.Length](i => NUL);
    end, cursor := 0, 0;
    var count := 0;
    for i := 0 to oldEnd
      invariant end <= i && out[..end] == Squeezed(text, i)
      invariant forall k :: end <= k < out.Length ==> out[k] == NUL
      invariant cursor == |Squeezed(text, if i < oldCursor then i else oldCursor)|
      invariant count >= 0 && (count > 0 <==> i > 0 && text[i - 1] == ' ')
    {
      assert line[i] == text[i];
      if line[i] == ' ' {
        count := count + 1;
      }
      if line[i] == ' ' && count > 1 {
        continue;
      }
      if line[i] == ' ' && i == 0 {
        continue;
      }
      out[end] := line[i];
      end := end + 1;
      if i < oldCursor {
        cursor := cursor + 1;
      }
      if line[i] != ' ' {
        count := 0;
      }
    }
  }
}
