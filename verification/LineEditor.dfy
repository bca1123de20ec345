/**
 * The command line editor as a state machine over keys: what each key makes of the line, what it
 * writes to the terminal, and that the written characters keep the screen equal to the line.
 */
module LineEditor {
  import opened Terminal
  import opened Words
  import opened LineFormat

  datatype Keymap = Normal | Escape1 | Escape2

  /** The editor between two keys; `cut` is "" when nothing is cut. */
  datatype Line = Line(text: string, cursor: nat, cut: string, escape: bool, keymap: Keymap)
  {
    predicate Valid() {
      cursor <= |text| && Clean(text) && Clean(cut)
    }
  }

  // ---------------------------------------------------------------- operations on the line

  function Inserted(l: Line, s: string): Line
    requires l.Valid()
  {
    l.(text := l.text[..l.cursor] + s + l.text[l.cursor..], cursor := l.cursor + |s|)
  }

  function Deleted(l: Line, start: nat, end: nat): Line
    requires start <= end <= |l.text|
  {
    l.(text := l.text[..start] + l.text[end..], cursor := start)
  }

  /** An empty cut only empties the cut buffer. */
  function CutOut(l: Line, start: nat, end: nat): Line
    requires start <= end <= |l.text|
  {
    if start == end then l.(cut := "") else Deleted(l, start, end).(cut := l.text[start..end])
  }

  function MovedTo(l: Line, at: nat): Line {
    l.(cursor := at)
  }

  lemma SqueezedIsClean(text: string, n: nat)
    requires Clean(text) && n <= |text|
    ensures Clean(Squeezed(text, n))
  {
  }

  function Tidied(l: Line): (r: Line)
    requires l.Valid()
    ensures r.Valid()
  {
    SqueezedIsClean(l.text, |l.text|);
    CursorMaps(l.text, l.cursor, |l.text|);
    l.(text := Formatted(l.text), cursor := |Squeezed(l.text, l.cursor)|)
  }

  /** Where a word motion backward goes: the head of the subword, or of the one before. */
  function WordBack(l: Line): (p: nat)
    requires l.Valid()
    ensures p <= l.cursor
  {
    var h := Head(l.text, l.cursor, SPACE_SLASH);
    if h == l.cursor then PrevHead(l.text, l.cursor, SPACE_SLASH) else h
  }

  // ---------------------------------------------------------------- what they write

  function InsertWrites(l: Line, s: string): string
    requires l.Valid()
  {
    s + l.text[l.cursor..] + Backs(|l.text| - l.cursor)
  }

  function DeleteWrites(l: Line, start: nat, end: nat): string
    requires l.Valid() && start <= end <= |l.text|
  {
    Backs(if start <= l.cursor then l.cursor - start else 0)
    + (l.text[end..] + Blanks(end - start)) + Backs(|l.text| - start)
  }

  function CutWrites(l: Line, start: nat, end: nat): string
    requires l.Valid() && start <= end <= |l.text|
  {
    if start == end then "" else DeleteWrites(l, start, end)
  }

  function MoveWrites(l: Line, at: nat): string
    requires l.Valid() && at <= |l.text|
  {
    if at < l.cursor then Backs(l.cursor - at) else l.text[l.cursor..at]
  }

  function TidyWrites(l: Line): string
    requires l.Valid()
  {
    Backs(l.cursor) + (Formatted(l.text) + Blanks(|l.text| - |Formatted(l.text)|))
    + Backs(|l.text| - |Squeezed(l.text, l.cursor)|)
  }

  // ---------------------------------------------------------------- the screen

  /** The screen shows the prompt, the line, nothing behind it, and the cursor in its place. */
  ghost predicate InSync(s: Screen, prompt: string, l: Line)
    requires l.Valid()
  {
    Shows(s, prompt + l.text, |prompt| + l.cursor)
  }

  /** A redraw from column `at` of the text on shows the new text if it spells it out. */
  lemma Redraws(s: Screen, prompt: string, l: Line, l': Line, at: nat, over: string)
    requires l.Valid() && l'.Valid() && InSync(s, prompt, l) && Clean(over)
    requires at <= l.cursor && l'.cursor <= at + |over| && |l.text| <= at + |over|
    requires at <= |l'.text| <= at + |over|
    requires l'.text + Blanks(at + |over| - |l'.text|) == l.text[..at] + over
    ensures InSync(Replay(s, Backs(l.cursor - at) + over + Backs(at + |over| - l'.cursor)), prompt, l')
  {
    RedrawsText(s, prompt, l.text, l.cursor, l'.text, l'.cursor, at, over);
  }

  lemma RedrawsText(s: Screen, prompt: string, text: string, cursor: nat, text': string, cursor': nat, at: nat,
                    over: string)
    requires Shows(s, prompt + text, |prompt| + cursor) && Clean(over)
    requires at <= cursor <= |text| <= at + |over| && cursor' <= at + |over| && at <= |text'| <= at + |over|
    requires text' + Blanks(at + |over| - |text'|) == text[..at] + over
    ensures Shows(Replay(s, Backs(cursor - at) + over + Backs(at + |over| - cursor')), prompt + text', |prompt|
      + cursor')
  {
    var n := |prompt|;
    forall i: nat ensures Overwritten(prompt + text, n + at, over, i) == Cell(prompt + text', i) {
      RedrawnCell(prompt, text, text', at, over, i);
    }
    RedrawnShows(s, prompt + text, n + cursor, cursor - at, over, at + |over| - cursor', prompt + text');
  }

  lemma RedrawnCell(prompt: string, text: string, text': string, at: nat, over: string, i: nat)
    requires at <= |text| <= at + |over| && at <= |text'| <= at + |over|
    requires text' + Blanks(at + |over| - |text'|) == text[..at] + over
    ensures Overwritten(prompt + text, |prompt| + at, over, i) == Cell(prompt + text', i)
  {
    var n := |prompt|;
    if n <= i < n + at + |over| {
      var k := i - n;
      assert (text' + Blanks(at + |over| - |text'|))[k] == (text[..at] + over)[k];
    }
  }

  lemma InsertShows(s: Screen, prompt: string, l: Line, t: string)
    requires l.Valid() && Clean(t) && InSync(s, prompt, l)
    ensures Inserted(l, t).Valid() && InSync(Replay(s, InsertWrites(l, t)), prompt, Inserted(l, t))
  {
    var over := t + l.text[l.cursor..];
    Redraws(s, prompt, l, Inserted(l, t), l.cursor, over);
    assert Backs(0) + over == over;
  }

  lemma DeleteShows(s: Screen, prompt: string, l: Line, start: nat, end: nat)
    requires l.Valid() && start <= end <= |l.text| && InSync(s, prompt, l) && start <= l.cursor
    ensures Deleted(l, start, end).Valid()
    ensures InSync(Replay(s, DeleteWrites(l, start, end)), prompt, Deleted(l, start, end))
  {
    Redraws(s, prompt, l, Deleted(l, start, end), start, l.text[end..] + Blanks(end - start));
  }

  /** Where the column stands after a deletion that starts behind the cursor. */
  lemma DeleteAheadColumn(s: Screen, prompt: string, l: Line, start: nat, end: nat)
    requires l.Valid() && l.cursor < start <= end <= |l.text| && InSync(s, prompt, l)
    ensures Replay(s, DeleteWrites(l, start, end)).col == |prompt| + l.cursor
  {
    var row := Redrawn(s, 0, l.text[end..] + Blanks(end - start), |l.text| - start);
  }

  /**
   * The deletion does not check where the cursor is: the screen follows exactly when the deleted
   * part starts at or before it, which its callers have to see to.
   */
  lemma DeleteShowsIff(s: Screen, prompt: string, l: Line, start: nat, end: nat)
    requires l.Valid() && start <= end <= |l.text| && InSync(s, prompt, l)
    ensures Deleted(l, start, end).Valid()
    ensures InSync(Replay(s, DeleteWrites(l, start, end)), prompt, Deleted(l, start, end)) <==> start <= l.cursor
  {
    if start <= l.cursor {
      DeleteShows(s, prompt, l, start, end);
    } else {
      DeleteAheadColumn(s, prompt, l, start, end);
    }
  }

  lemma CutShows(s: Screen, prompt: string, l: Line, start: nat, end: nat)
    requires l.Valid() && start <= end <= |l.text| && InSync(s, prompt, l) && start <= l.cursor
    ensures CutOut(l, start, end).Valid()
    ensures InSync(Replay(s, CutWrites(l, start, end)), prompt, CutOut(l, start, end))
  {
    if start < end {
      DeleteShows(s, prompt, l, start, end);
    }
  }

  lemma MoveShows(s: Screen, prompt: string, l: Line, at: nat)
    requires l.Valid() && at <= |l.text| && InSync(s, prompt, l)
    ensures InSync(Replay(s, MoveWrites(l, at)), prompt, MovedTo(l, at))
  {
    if at < l.cursor {
      MovedBack(s, l.cursor - at);
    } else {
      var over := l.text[l.cursor..at];
      forall i: nat ensures Cell(Replay(s, over).row, i) == Cell(prompt + l.text, i) {
        Printed(s, over, i);
      }
      Printed(s, over, 0);
    }
  }

  lemma TidyShows(s: Screen, prompt: string, l: Line)
    requires l.Valid() && InSync(s, prompt, l)
    ensures InSync(Replay(s, TidyWrites(l)), prompt, Tidied(l))
  {
    Redraws(s, prompt, l, Tidied(l), 0, Formatted(l.text) + Blanks(|l.text| - |Formatted(l.text)|));
  }

  // ---------------------------------------------------------------- keys

  datatype Action =
    | Nothing | Type(s: string) | Forward | Backward | ToBegin | ToEnd
    | DeleteChar | DeleteAdvanced | Backspace | KillLine | KillAll | Yank
    | DeleteWord | MoveWordBack | MoveWordForward | Refresh | Enter | SetEscape

  function Control(c: char): char
    requires '@' <= c <= '_'
  {
    (c as int - '@' as int) as char
  }

  const DEL: char := 127 as char

  /** The default keymap. */
  function DefaultAction(key: char): Action {
    if Printable(key) then Type([key])
    else if key == Control('A') then ToBegin
    else if key == Control('B') then Backward
    else if key == Control('D') then DeleteChar
    else if key == Control('E') then ToEnd
    else if key == Control('F') then Forward
    else if key == Control('H') then Backspace
    else if key == Control('I') then Type("<tab>")
    else if key == Control('J') || key == Control('M') then Enter
    else if key == Control('K') then KillLine
    else if key == Control('R') then Refresh
    else if key == Control('U') then KillAll
    else if key == Control('W') then DeleteWord
    else if key == Control('Y') then Yank
    else if key == Control('[') then SetEscape
    else if key == DEL then DeleteAdvanced
    else Nothing
  }

  /** What the key does, and the keymap after it; `vty` says that the escape keymaps are installed. */
  function KeyAction(keymap: Keymap, vty: bool, key: char): (Action, Keymap) {
    match keymap
    case Normal =>
      if vty && key == Control('[') then (Nothing, Escape1) else (DefaultAction(key), Normal)
    case Escape1 =>
      if key == 'b' then (MoveWordBack, Normal)
      else if key == 'f' then (MoveWordForward, Normal)
      else if key == Control('H') || key == DEL then (DeleteWord, Normal)
      else if key == '[' then (Nothing, Escape2)
      else (Nothing, Normal)
    case Escape2 => (Nothing, Normal)
  }

  predicate CleanAction(a: Action) {
    a.Type? ==> Clean(a.s)
  }

  function Act(l: Line, a: Action): Line
    requires l.Valid()
  {
    var n := |l.text|;
    match a
    case Nothing => l
    case Type(s) => Inserted(l, s)
    case Forward => if l.cursor + 1 > n then l else MovedTo(l, l.cursor + 1)
    case Backward => if l.cursor == 0 then l else MovedTo(l, l.cursor - 1)
    case ToBegin => MovedTo(l, 0)
    case ToEnd => MovedTo(l, n)
    case DeleteChar => if l.cursor < n then Deleted(l, l.cursor, l.cursor + 1) else l
    case DeleteAdvanced =>
      if l.cursor < n then Deleted(l, l.cursor, l.cursor + 1) else if n > 0 then Deleted(l, n - 1, n) else l
    case Backspace =>
      if l.cursor == 0 then l
      else if l.escape then CutOut(l, WordBack(l), l.cursor)
      else Deleted(l, l.cursor - 1, l.cursor)
    case KillLine => CutOut(l, l.cursor, n)
    case KillAll => CutOut(MovedTo(l, 0), 0, n)
    case Yank => if l.cut == "" then l else Inserted(l, l.cut)
    case DeleteWord => CutOut(l, WordBack(l), l.cursor)
    case MoveWordBack => MovedTo(l, WordBack(l))
    case MoveWordForward => MovedTo(l, NextHead(l.text, l.cursor, SPACE))
    case Refresh => Tidied(l)
    case Enter => l.(text := "", cursor := 0)
    case SetEscape => l.(escape := true)
  }

  function RowWrites(prompt: string, l: Line): string
    requires l.Valid()
  {
    [LINE_FEED, RETURN] + (prompt + l.text) + Backs(|l.text| - l.cursor)
  }

  function ActWrites(l: Line, prompt: string, a: Action): string
    requires l.Valid()
  {
    var n := |l.text|;
    match a
    case Nothing => ""
    case Type(s) => InsertWrites(l, s)
    case Forward => if l.cursor + 1 > n then "" else MoveWrites(l, l.cursor + 1)
    case Backward => if l.cursor == 0 then "" else MoveWrites(l, l.cursor - 1)
    case ToBegin => MoveWrites(l, 0)
    case ToEnd => MoveWrites(l, n)
    case DeleteChar => if l.cursor < n then DeleteWrites(l, l.cursor, l.cursor + 1) else ""
    case DeleteAdvanced =>
      if l.cursor < n then DeleteWrites(l, l.cursor, l.cursor + 1)
      else if n > 0 then DeleteWrites(l, n - 1, n) else ""
    case Backspace =>
      if l.cursor == 0 then ""
      else if l.escape then CutWrites(l, WordBack(l), l.cursor)
      else MoveWrites(l, l.cursor - 1) + DeleteWrites(MovedTo(l, l.cursor - 1), l.cursor - 1, l.cursor)
    case KillLine => CutWrites(l, l.cursor, n)
    case KillAll => MoveWrites(l, 0) + CutWrites(MovedTo(l, 0), 0, n)
    case Yank => if l.cut == "" then "" else InsertWrites(l, l.cut)
    case DeleteWord => CutWrites(l, WordBack(l), l.cursor)
    case MoveWordBack => MoveWrites(l, WordBack(l))
    case MoveWordForward => MoveWrites(l, NextHead(l.text, l.cursor, SPACE))
    case Refresh => TidyWrites(l) + RowWrites(prompt, Tidied(l))
    case Enter => [LINE_FEED, RETURN] + prompt
    case SetEscape => ""
  }

  lemma RowShows(s: Screen, prompt: string, l: Line)
    requires l.Valid() && Clean(prompt)
    ensures InSync(Replay(s, RowWrites(prompt, l)), prompt, l)
  {
    RowStarted(s, prompt + l.text, |l.text| - l.cursor);
  }

  /** The first prompt, on a blank row. */
  lemma PromptShows(s: Screen, prompt: string, l: Line)
    requires l.Valid() && l.text == "" && Clean(prompt) && s.row == ""
    ensures InSync(Replay(s, [RETURN] + prompt), prompt, l)
  {
    assert Replay(s, [RETURN]) == Screen("", 0) by {
      assert [RETURN][..0] == "";
    }
    ReplayAppend(s, [RETURN], prompt);
    forall i: nat ensures Cell(Replay(Screen("", 0), prompt).row, i) == Cell(prompt + l.text, i) {
      Printed(Screen("", 0), prompt, i);
    }
    Printed(Screen("", 0), prompt, 0);
  }

  lemma RefreshShows(s: Screen, prompt: string, l: Line)
    requires l.Valid() && Clean(prompt)
    ensures InSync(Replay(s, ActWrites(l, prompt, Refresh)), prompt, Tidied(l))
  {
    ReplayAppend(s, TidyWrites(l), RowWrites(prompt, Tidied(l)));
    RowShows(Replay(s, TidyWrites(l)), prompt, Tidied(l));
  }

  lemma EnterShows(s: Screen, prompt: string, l: Line)
    requires l.Valid() && Clean(prompt)
    ensures InSync(Replay(s, ActWrites(l, prompt, Enter)), prompt, Act(l, Enter))
  {
    RowShows(s, prompt, Act(l, Enter));
    assert prompt + "" == prompt;
    assert [LINE_FEED, RETURN] + prompt + Backs(0) == [LINE_FEED, RETURN] + prompt;
  }

  lemma BackspaceShows(s: Screen, prompt: string, l: Line)
    requires l.Valid() && InSync(s, prompt, l) && l.cursor > 0 && !l.escape
    ensures Act(l, Backspace).Valid() && InSync(Replay(s, ActWrites(l, prompt, Backspace)), prompt, Act(l, Backspace))
  {
    var at := l.cursor - 1;
    MoveShows(s, prompt, l, at);
    DeleteShows(Replay(s, MoveWrites(l, at)), prompt, MovedTo(l, at), at, at + 1);
    ReplayAppend(s, MoveWrites(l, at), DeleteWrites(MovedTo(l, at), at, at + 1));
  }

  lemma KillAllShows(s: Screen, prompt: string, l: Line)
    requires l.Valid() && InSync(s, prompt, l)
    ensures Act(l, KillAll).Valid() && InSync(Replay(s, ActWrites(l, prompt, KillAll)), prompt, Act(l, KillAll))
  {
    MoveShows(s, prompt, l, 0);
    CutShows(Replay(s, MoveWrites(l, 0)), prompt, MovedTo(l, 0), 0, |l.text|);
    ReplayAppend(s, MoveWrites(l, 0), CutWrites(MovedTo(l, 0), 0, |l.text|));
  }

  ghost predicate ShowsAfter(s: Screen, prompt: string, l: Line, a: Action)
    requires l.Valid()
  {
    Act(l, a).Valid() && InSync(Replay(s, ActWrites(l, prompt, a)), prompt, Act(l, a))
  }

  lemma MotionShows(s: Screen, prompt: string, l: Line, a: Action)
    requires l.Valid() && InSync(s, prompt, l)
    requires a in {Forward, Backward, ToBegin, ToEnd, MoveWordBack, MoveWordForward}
    ensures ShowsAfter(s, prompt, l, a)
  {
    var at := Act(l, a).cursor;
    MoveShows(s, prompt, l, at);
    assert at == l.cursor ==> ActWrites(l, prompt, a) == "";
  }

  lemma DeletionShows(s: Screen, prompt: string, l: Line, a: Action)
    requires l.Valid() && InSync(s, prompt, l) && a in {DeleteChar, DeleteAdvanced}
    ensures ShowsAfter(s, prompt, l, a)
  {
    if l.cursor < |l.text| {
      DeleteShows(s, prompt, l, l.cursor, l.cursor + 1);
    } else if a == DeleteAdvanced && |l.text| > 0 {
      DeleteShows(s, prompt, l, |l.text| - 1, |l.text|);
    }
  }

  lemma KillShows(s: Screen, prompt: string, l: Line, a: Action)
    requires l.Valid() && InSync(s, prompt, l)
    requires a in {KillLine, DeleteWord} || (a == Backspace && (l.cursor == 0 || l.escape))
    ensures ShowsAfter(s, prompt, l, a)
  {
    if a == KillLine {
      CutShows(s, prompt, l, l.cursor, |l.text|);
    } else {
      CutShows(s, prompt, l, WordBack(l), l.cursor);
    }
  }

  /** Whatever the action, what it writes takes a screen that shows the line to one that shows the new line. */
  lemma ActShows(s: Screen, prompt: string, l: Line, a: Action)
    requires l.Valid() && Clean(prompt) && CleanAction(a) && InSync(s, prompt, l)
    ensures ShowsAfter(s, prompt, l, a)
  {
    match a
    case Forward | Backward | ToBegin | ToEnd | MoveWordBack | MoveWordForward => MotionShows(s, prompt, l, a);
    case DeleteChar | DeleteAdvanced => DeletionShows(s, prompt, l, a);
    case KillLine | DeleteWord => KillShows(s, prompt, l, a);
    case Backspace =>
      if l.cursor > 0 && !l.escape { BackspaceShows(s, prompt, l); } else { KillShows(s, prompt, l, a); }
    case KillAll => KillAllShows(s, prompt, l);
    case Refresh => RefreshShows(s, prompt, l);
    case Enter => EnterShows(s, prompt, l);
    case _ => TypingShows(s, prompt, l, a);
  }

  lemma TypingShows(s: Screen, prompt: string, l: Line, a: Action)
    requires l.Valid() && CleanAction(a) && InSync(s, prompt, l)
    requires a.Nothing? || a.SetEscape? || a.Type? || a.Yank?
    ensures ShowsAfter(s, prompt, l, a)
  {
    if a.Type? {
      InsertShows(s, prompt, l, a.s);
    } else if a.Yank? && l.cut != "" {
      InsertShows(s, prompt, l, l.cut);
    }
  }

  // ---------------------------------------------------------------- runs

  lemma ActValid(l: Line, a: Action)
    requires l.Valid() && CleanAction(a)
    ensures Act(l, a).Valid()
  {
    var s := Screen(l.text, l.cursor);
    assert "" + l.text == l.text;
    ActShows(s, "", l, a);
  }

  lemma KeyIsClean(keymap: Keymap, vty: bool, key: char)
    ensures CleanAction(KeyAction(keymap, vty, key).0)
  {
  }

  /** shell_input: an escape lasts for one more key. */
  function Step(l: Line, vty: bool, key: char): (r: Line)
    requires l.Valid()
    ensures r.Valid()
  {
    var (action, keymap) := KeyAction(l.keymap, vty, key);
    KeyIsClean(l.keymap, vty, key);
    ActValid(l, action);
    var m := Act(l, action);
    m.(keymap := keymap, escape := m.escape && !l.escape)
  }

  function StepWrites(l: Line, vty: bool, prompt: string, key: char): string
    requires l.Valid()
  {
    ActWrites(l, prompt, KeyAction(l.keymap, vty, key).0)
  }

  /** The line, and everything written so far. */
  datatype Config = Config(line: Line, written: string)

  predicate Follows(vty: bool, prompt: string, key: char, c: Config, c': Config) {
    && c.line.Valid() && c'.line == Step(c.line, vty, key)
    && c'.written == c.written + StepWrites(c.line, vty, prompt, key)
  }

  ghost predicate Follow(vty: bool, prompt: string, keys: string, cs: seq<Config>) {
    && |cs| == |keys| + 1 && cs[0].line.Valid()
    && forall k {:trigger keys[k]} :: 0 <= k < |keys| ==> Follows(vty, prompt, keys[k], cs[k], cs[k + 1])
  }

  /** The keys lead from one configuration to the other. */
  ghost predicate Reached(vty: bool, prompt: string, keys: string, c: Config, c': Config) {
    exists cs :: Follow(vty, prompt, keys, cs) && cs[0] == c && cs[|keys|] == c'
  }

  lemma ReachedNone(vty: bool, prompt: string, keys: string, c: Config)
    requires c.line.Valid()
    ensures Reached(vty, prompt, keys[..0], c, c)
  {
    assert Follow(vty, prompt, keys[..0], [c]);
  }

  lemma ReachedOne(vty: bool, prompt: string, key: char, c: Config, c': Config)
    requires Follows(vty, prompt, key, c, c')
    ensures Reached(vty, prompt, [key], c, c')
  {
    assert Follow(vty, prompt, [key], [c, c']);
  }

  lemma ReachedNext(vty: bool, prompt: string, keys: string, i: nat, c: Config, c1: Config, c2: Config)
    requires i < |keys| && Reached(vty, prompt, keys[..i], c, c1) && Reached(vty, prompt, [keys[i]], c1, c2)
    ensures Reached(vty, prompt, keys[..i + 1], c, c2)
  {
    var cs :| Follow(vty, prompt, keys[..i], cs) && cs[0] == c && cs[|keys[..i]|] == c1;
    var last :| Follow(vty, prompt, [keys[i]], last) && last[0] == c1 && last[|[keys[i]]|] == c2;
    FollowSnoc(vty, prompt, keys, i, cs, last);
  }

  lemma FollowSnoc(vty: bool, prompt: string, keys: string, i: nat, cs: seq<Config>, last: seq<Config>)
    requires i < |keys| && Follow(vty, prompt, keys[..i], cs) && Follow(vty, prompt, [keys[i]], last)
      && cs[i] == last[0]
    ensures Follow(vty, prompt, keys[..i + 1], cs + [last[1]])
  {
    var ks, cs' := keys[..i + 1], cs + [last[1]];
    forall k | 0 <= k < i + 1 ensures Follows(vty, prompt, ks[k], cs'[k], cs'[k + 1]) {
      if k < i {
        assert Follows(vty, prompt, keys[..i][k], cs[k], cs[k + 1]);
      } else {
        assert Follows(vty, prompt, [keys[i]][0], last[0], last[1]);
      }
    }
  }

  /** After any keys the screen shows exactly the line, the cursor in its place. */
  lemma EveryRunIsInSync(s: Screen, vty: bool, prompt: string, keys: string, c: Config, c': Config)
    requires Clean(prompt) && c.line.Valid() && Reached(vty, prompt, keys, c, c')
    requires InSync(Replay(s, c.written), prompt, c.line)
    ensures c'.line.Valid() && InSync(Replay(s, c'.written), prompt, c'.line)
  {
    var cs :| Follow(vty, prompt, keys, cs) && cs[0] == c && cs[|keys|] == c';
    TraceInSync(s, vty, prompt, keys, cs, |keys|);
  }

  lemma {:induction false} TraceInSync(s: Screen, vty: bool, prompt: string, keys: string, cs: seq<Config>, n: nat)
    requires Clean(prompt) && Follow(vty, prompt, keys, cs) && n <= |keys|
    requires InSync(Replay(s, cs[0].written), prompt, cs[0].line)
    ensures cs[n].line.Valid() && InSync(Replay(s, cs[n].written), prompt, cs[n].line)
  {
    if n > 0 {
      TraceInSync(s, vty, prompt, keys, cs, n - 1);
      FollowsInSync(s, vty, prompt, keys[n - 1], cs[n - 1], cs[n]);
    }
  }

  lemma FollowsInSync(s: Screen, vty: bool, prompt: string, key: char, c: Config, c': Config)
    requires Clean(prompt) && Follows(vty, prompt, key, c, c') && InSync(Replay(s, c.written), prompt, c.line)
    ensures c'.line.Valid() && InSync(Replay(s, c'.written), prompt, c'.line)
  {
    StepShows(Replay(s, c.written), prompt, c.line, vty, key);
    ReplayAppend(s, c.written, StepWrites(c.line, vty, prompt, key));
  }

  /** The keys determine the outcome. */
  lemma RunsAreDetermined(vty: bool, prompt: string, keys: string, c: Config, c1: Config, c2: Config)
    requires Reached(vty, prompt, keys, c, c1) && Reached(vty, prompt, keys, c, c2)
    ensures c1 == c2
  {
    var a :| Follow(vty, prompt, keys, a) && a[0] == c && a[|keys|] == c1;
    var b :| Follow(vty, prompt, keys, b) && b[0] == c && b[|keys|] == c2;
    TracesAgree(vty, prompt, keys, a, b, |keys|);
  }

  lemma {:induction false} TracesAgree(vty: bool, prompt: string, keys: string, a: seq<Config>, b: seq<Config>, n: nat)
    requires Follow(vty, prompt, keys, a) && Follow(vty, prompt, keys, b) && a[0] == b[0] && n <= |keys|
    ensures a[n] == b[n]
  {
    if n > 0 {
      TracesAgree(vty, prompt, keys, a, b, n - 1);
      FollowsAgree(vty, prompt, keys[n - 1], a[n - 1], a[n], b[n]);
    }
  }

  lemma FollowsAgree(vty: bool, prompt: string, key: char, c: Config, c1: Config, c2: Config)
    requires Follows(vty, prompt, key, c, c1) && Follows(vty, prompt, key, c, c2)
    ensures c1 == c2
  {
  }

  lemma StepShows(s: Screen, prompt: string, l: Line, vty: bool, key: char)
    requires l.Valid() && Clean(prompt) && InSync(s, prompt, l)
    ensures InSync(Replay(s, StepWrites(l, vty, prompt, key)), prompt, Step(l, vty, key))
  {
    KeyIsClean(l.keymap, vty, key);
    ActShows(s, prompt, l, KeyAction(l.keymap, vty, key).0);
  }

  // ---------------------------------------------------------------- what edits undo

  /** Whatever a cut takes out, ^Y puts back. */
  lemma YankUndoesCut(l: Line, start: nat, end: nat)
    requires l.Valid() && start < end <= |l.text|
    ensures CutOut(l, start, end).Valid()
    ensures Act(CutOut(l, start, end), Yank) == l.(cursor := end, cut := l.text[start..end])
  {
    assert l.text[..start] + l.text[start..end] + l.text[end..] == l.text;
  }

  lemma DeleteUndoesInsert(l: Line, s: string)
    requires l.Valid() && Clean(s)
    ensures Deleted(Inserted(l, s), l.cursor, l.cursor + |s|) == l
  {
    var t := Inserted(l, s).text;
    assert t[..l.cursor] == l.text[..l.cursor] && t[l.cursor + |s|..] == l.text[l.cursor..];
  }

  lemma BackspaceUndoesKey(l: Line, vty: bool, key: char)
    requires l.Valid() && Printable(key) && l.keymap == Normal && !l.escape
    ensures Step(Step(l, vty, key), vty, Control('H')) == l
  {
    DeleteUndoesInsert(l, [key]);
    assert Step(l, vty, key) == Inserted(l, [key]);
  }

  /** Typing a text enters it at the cursor, in order. */
  lemma TypingEnters(vty: bool, prompt: string, keys: string, c: Config, c': Config)
    requires c.line.Valid() && Clean(keys) && c.line.keymap == Normal && !c.line.escape
    requires Reached(vty, prompt, keys, c, c')
    ensures c'.line == Inserted(c.line, keys)
  {
    var cs :| Follow(vty, prompt, keys, cs) && cs[0] == c && cs[|keys|] == c';
    TypedTrace(vty, prompt, keys, cs, |keys|);
    assert keys[..|keys|] == keys;
  }

  lemma {:induction false} TypedTrace(vty: bool, prompt: string, keys: string, cs: seq<Config>, n: nat)
    requires Follow(vty, prompt, keys, cs) && n <= |keys| && Clean(keys)
    requires cs[0].line.keymap == Normal && !cs[0].line.escape
    ensures cs[n].line == Inserted(cs[0].line, keys[..n])
  {
    var l := cs[0].line;
    if n == 0 {
      assert l.text[..l.cursor] + "" + l.text[l.cursor..] == l.text;
    } else {
      TypedTrace(vty, prompt, keys, cs, n - 1);
      TypedOne(vty, prompt, keys[n - 1], cs[n - 1], cs[n]);
      InsertedTwice(l, keys[..n - 1], [keys[n - 1]]);
      assert keys[..n - 1] + [keys[n - 1]] == keys[..n];
    }
  }

  lemma TypedOne(vty: bool, prompt: string, key: char, c: Config, c': Config)
    requires Follows(vty, prompt, key, c, c') && Printable(key) && c.line.keymap == Normal && !c.line.escape
    ensures c'.line == Inserted(c.line, [key])
  {
  }

  lemma InsertedTwice(l: Line, a: string, b: string)
    requires l.Valid() && Clean(a)
    ensures Inserted(l, a).Valid() && Inserted(Inserted(l, a), b) == Inserted(l, a + b)
  {
    var t := Inserted(l, a).text;
    assert t[..l.cursor + |a|] == l.text[..l.cursor] + a && t[l.cursor + |a|..] == l.text[l.cursor..];
  }

  /** A word motion backward makes way unless the cursor is at the beginning, one forward unless at the end. */
  lemma WordMotionsProgress(l: Line)
    requires l.Valid()
    ensures WordBack(l) < l.cursor <==> l.cursor > 0
    ensures NextHead(l.text, l.cursor, SPACE) > l.cursor <==> l.cursor < |l.text|
  {
    var h := Head(l.text, l.cursor, SPACE_SLASH);
    HeadStarts(l.text, l.cursor, SPACE_SLASH);
    if h == l.cursor > 0 {
      assert Gap(l.text, h, SPACE_SLASH) < h;
    }
  }

  lemma HeadStarts(s: string, p: nat, delims: string)
    requires p <= |s|
    ensures var h := Head(s, p, delims); h == 0 || s[h - 1] in delims
  {
  }

  /** ^W takes out one whole subword and the delimiters between it and the cursor. */
  lemma DeletedWordIsWhole(l: Line)
    requires l.Valid()
    ensures var h := WordBack(l);
      && (h == 0 || l.text[h - 1] in SPACE_SLASH)
      && exists e: nat :: h <= e <= l.cursor && FreeOf(l.text, h, e, SPACE_SLASH)
           && OnlyEnds(l.text, e, l.cursor, SPACE_SLASH)
  {
    var h := Head(l.text, l.cursor, SPACE_SLASH);
    var e := if h == l.cursor then Gap(l.text, h, SPACE_SLASH) else l.cursor;
    GapIsGap(l.text, l.cursor, SPACE_SLASH);
    HeadStarts(l.text, e, SPACE_SLASH);
    HeadIsLeast(l.text, e, WordBack(l), SPACE_SLASH);
  }

  lemma GapIsGap(s: string, p: nat, delims: string)
    requires p <= |s|
    ensures OnlyEnds(s, Gap(s, p, delims), p, delims)
  {
  }

  // ---------------------------------------------------------------- what each key does

  /** Between keys: no escape pending, the normal keymap. */
  predicate Plain(l: Line) {
    l.Valid() && l.keymap == Normal && !l.escape
  }

  /** ^A, ^B, ^E and ^F move the cursor and change nothing else. */
  lemma MotionKeys(l: Line, vty: bool)
    requires Plain(l)
    ensures Step(l, vty, 1 as char) == l.(cursor := 0)
    ensures Step(l, vty, 2 as char) == l.(cursor := if l.cursor > 0 then l.cursor - 1 else 0)
    ensures Step(l, vty, 5 as char) == l.(cursor := |l.text|)
    ensures Step(l, vty, 6 as char) == l.(cursor := if l.cursor < |l.text| then l.cursor + 1 else l.cursor)
  {
  }

  /** ^D, DEL and ^H delete one character: at the cursor, there or the last one, and before the cursor. */
  lemma DeletionKeys(l: Line, vty: bool)
    requires Plain(l)
    ensures Step(l, vty, 4 as char) == if l.cursor < |l.text| then Without(l, l.cursor) else l
    ensures Step(l, vty, 127 as char) ==
      if l.cursor < |l.text| then Without(l, l.cursor) else if |l.text| > 0 then Without(l, |l.text| - 1) else l
    ensures Step(l, vty, 8 as char) == if l.cursor > 0 then Without(l, l.cursor - 1) else l
  {
  }

  /** The line without the character at i, the cursor where it was. */
  function Without(l: Line, i: nat): Line
    requires i < |l.text|
  {
    l.(text := l.text[..i] + l.text[i + 1..], cursor := i)
  }

  /** ^K and ^U take out text into the cut buffer, or empty that if there is nothing to take. */
  lemma KillKeys(l: Line, vty: bool)
    requires Plain(l)
    ensures Step(l, vty, 11 as char) == l.(text := l.text[..l.cursor], cut := l.text[l.cursor..])
    ensures Step(l, vty, 21 as char) == l.(text := "", cursor := 0, cut := l.text)
  {
    assert l.cursor == |l.text| ==> l.text[..l.cursor] == l.text;
    assert l.text[..l.cursor] + l.text[|l.text|..] == l.text[..l.cursor];
    assert l.text[..0] + l.text[|l.text|..] == "" && l.text[0..|l.text|] == l.text;
    assert l.text[l.cursor..|l.text|] == l.text[l.cursor..];
  }

  /** ^W takes out what is between its place and the cursor, ^Y puts in what was cut. */
  lemma WordAndYankKeys(l: Line, vty: bool)
    requires Plain(l)
    ensures var h := WordBack(l);
      Step(l, vty, 23 as char)
        == l.(text := l.text[..h] + l.text[l.cursor..], cursor := h, cut := l.text[h..l.cursor])
    ensures Step(l, vty, 25 as char)
         == l.(text := l.text[..l.cursor] + l.cut + l.text[l.cursor..], cursor := l.cursor + |l.cut|)
  {
    var h := WordBack(l);
    assert h == l.cursor ==> l.text[..h] + l.text[l.cursor..] == l.text;
    assert l.text[..l.cursor] + "" + l.text[l.cursor..] == l.text;
  }

  /** Printable keys and tabs enter text at the cursor; enter starts an empty line and keeps what was cut. */
  lemma TextKeys(l: Line, vty: bool, key: char)
    requires Plain(l)
    ensures ' ' <= key <= '~' ==> Step(l, vty, key) == Entered(l, [key])
    ensures Step(l, vty, 9 as char) == Entered(l, "<tab>")
    ensures key in [10 as char, 13 as char] ==> Step(l, vty, key) == l.(text := "", cursor := 0)
  {
  }

  function Entered(l: Line, s: string): Line
    requires l.Valid()
  {
    l.(text := l.text[..l.cursor] + s + l.text[l.cursor..], cursor := l.cursor + |s|)
  }

  /** ^R squeezes the line, and what is before the cursor with it; the words stay on their sides of it. */
  lemma RefreshKey(l: Line, vty: bool)
    requires Plain(l)
    ensures var r := Step(l, vty, 18 as char);
      && r == l.(text := r.text, cursor := r.cursor)
      && WordsOf(r.text) == WordsOf(l.text) && Tidy(r.text)
      && r.text[..r.cursor] == Formatted(l.text[..l.cursor])
      && WordsOf(r.text[..r.cursor]) == WordsOf(l.text[..l.cursor])
  {
    RefreshTidies(l, vty);
    var t := TidiedIs(l);
  }

  lemma RefreshTidies(l: Line, vty: bool)
    requires Plain(l)
    ensures Step(l, vty, 18 as char) == Tidied(l)
  {
  }

  lemma TidiedIs(l: Line) returns (t: Line)
    requires l.Valid()
    ensures t == Tidied(l) == l.(text := t.text, cursor := t.cursor) && t.cursor <= |t.text|
    ensures WordsOf(t.text) == WordsOf(l.text) && Tidy(t.text)
    ensures t.text[..t.cursor] == Formatted(l.text[..l.cursor])
    ensures WordsOf(t.text[..t.cursor]) == WordsOf(l.text[..l.cursor])
  {
    t := Tidied(l);
    FormatKeepsWords(l.text);
    FormatKeepsWords(l.text[..l.cursor]);
    CursorMaps(l.text, l.cursor, |l.text|);
    SqueezedOfPrefix(l.text, l.cursor, l.cursor);
  }

  lemma {:induction false} SqueezedOfPrefix(text: string, m: nat, n: nat)
    requires n <= m <= |text|
    ensures Squeezed(text[..m], n) == Squeezed(text, n)
  {
    if n > 0 {
      SqueezedOfPrefix(text, m, n - 1);
    }
  }

  /** All other control keys but escape do nothing. */
  lemma IdleKeys(l: Line, vty: bool, key: char)
    requires Plain(l) && (key < ' ' || key > '~')
    requires key as int !in {1, 2, 4, 5, 6, 8, 9, 10, 11, 13, 18, 21, 23, 25, 27, 127}
    ensures Step(l, vty, key) == l
  {
  }

  /** Without the escape keymaps: escape makes the next ^H delete a word, and lasts for one key whatever that is. */
  lemma EscapeKey(l: Line, key: char)
    requires Plain(l)
    ensures Step(l, false, 27 as char) == l.(escape := true)
    ensures key != 8 as char && key != 27 as char ==> Step(l.(escape := true), false, key) == Step(l, false, key)
  {
    if key != 8 as char && key != 27 as char {
      OtherKeyActs(key);
      EscapeMattersNot(l, DefaultAction(key));
    }
  }

  lemma OtherKeyActs(key: char)
    requires key != 8 as char && key != 27 as char
    ensures !DefaultAction(key).Backspace? && !DefaultAction(key).SetEscape?
  {
  }

  lemma EscapeMattersNot(l: Line, a: Action)
    requires l.Valid() && !l.escape && !a.Backspace? && !a.SetEscape?
    ensures Act(l.(escape := true), a) == Act(l, a).(escape := true) && !Act(l, a).escape
  {
    WordBackOf(l);
  }

  lemma WordBackOf(l: Line)
    requires l.Valid()
    ensures WordBack(l.(escape := true)) == WordBack(l)
  {
  }

  /** Whatever the key after an escape, the editor is as plain as before. */
  lemma EscapeLasts(l: Line, key: char)
    requires Plain(l)
    ensures Plain(Step(l.(escape := true), false, key))
  {
  }

  lemma EscapedBackspace(l: Line)
    requires Plain(l)
    ensures Step(l.(escape := true), false, 8 as char) == if l.cursor > 0 then Step(l, false, 23 as char) else l
    ensures Step(l.(escape := true), false, 27 as char) == l
  {
  }

  /** With them: escape and b or f move by a word, escape and ^H or DEL delete one, escape [ swallows one more key. */
  lemma EscapeKeymaps(l: Line, key: char, key': char)
    requires Plain(l)
    ensures var e := Step(l, true, 27 as char);
      && e == l.(keymap := Escape1)
      && Step(e, true, 'b') == l.(cursor := WordBack(l))
      && Step(e, true, 'f') == l.(cursor := NextHead(l.text, l.cursor, SPACE))
      && (key in [8 as char, 127 as char] ==> Step(e, true, key) == Step(l, true, 23 as char))
      && Step(e, true, '[') == l.(keymap := Escape2)
      && Step(Step(e, true, '['), true, key') == l
      && (key !in ['b', 'f', '[', 8 as char, 127 as char] ==> Step(e, true, key) == l)
  {
  }

  /** Where ^W goes: the subword's head if the cursor is in or behind one, else the head of the one before. */
  lemma WordBackIs(l: Line, h: nat)
    requires l.Valid() && h <= l.cursor && FreeOf(l.text, h, l.cursor, " /")
    requires h == 0 || l.text[h - 1] in " /"
    ensures h < l.cursor ==> WordBack(l) == h
    ensures h == l.cursor ==> forall r, e :: WordBefore(l.text, r, e, h, " /") ==> WordBack(l) == r
    ensures h == l.cursor && (forall k :: 0 <= k < h ==> l.text[k] in " /") ==> WordBack(l) == 0
  {
    HeadIs(l.text, l.cursor, h, SPACE_SLASH);
    PrevHeadIs(l.text, l.cursor, h, SPACE_SLASH);
  }
}
