/** The shell: the command line in a growable, terminated buffer, and the bytes written to the terminal. */
module Shell {
  import opened Terminal
  import opened Words
  import opened LineFormat
  import opened LineEditor

  const INITIAL_COMMAND_LINE_SIZE: nat := 32

  class Shell {
    var commandLine: array<char>
    var cursor: nat
    var end: nat
    var cutBuffer: string
    var escape: bool
    var keymap: Keymap
    var output: string
    const vty: bool
    const prompt: string

    ghost predicate Valid()
      reads this, commandLine
    {
      && cursor <= end < commandLine.Length && commandLine[end] == NUL
      && Clean(commandLine[..end]) && Clean(cutBuffer) && Clean(prompt)
    }

    ghost function State(): (l: Line)
      reads this, commandLine
      requires Valid()
      ensures l.Valid()
    {
      Line(commandLine[..end], cursor, cutBuffer, escape, keymap)
    }

    /** The new line, and what was written on the way; the buffer is the old one or a new one. */
    twostate predicate Becomes(l: Line, written: string)
      reads this, commandLine
    {
      && Valid() && State() == l && output == old(output) + written
      && (commandLine == old(commandLine) || fresh(commandLine))
    }

    constructor (prompt: string, vty: bool)
      requires Clean(prompt)
      ensures Valid() && fresh(commandLine) && this.vty == vty && this.prompt == prompt
      ensures State() == Line("", 0, "", false, Normal)
      ensures output == [RETURN] + prompt
    {
      commandLine := new char[INITIAL_COMMAND_LINE_SIZE](_ => NUL);
      cursor, end, cutBuffer, escape, keymap := 0, 0, "", false, Normal;
      this.vty, this.prompt := vty, prompt;
      output := [RETURN] + prompt;
    }

    /** The loops that write ^H. */
    method WriteBacks(from: nat, to: nat)
      modifies this`output
      ensures output == old(output) + Backs(if to < from then from - to else 0)
    {
      var i := from;
      while to < i
        invariant i <= from && (if to < from then to <= i else i == from)
        invariant output == old(output) + Backs(from - i)
      {
        output := output + [BACKSPACE];
        i := i - 1;
      }
    }

    method WriteBlanks(from: nat, to: nat)
      requires from <= to
      modifies this`output
      ensures output == old(output) + Blanks(to - from)
    {
      for i := from to to
        invariant output == old(output) + Blanks(i - from)
      {
        output := output + [' '];
      }
    }

    /** Write the buffer from `from` up to its terminator. */
    method WriteFrom(from: nat)
      requires from <= end < commandLine.Length && commandLine[end] == NUL && NUL !in commandLine[from..end]
      modifies this`output
      ensures output == old(output) + commandLine[from..end]
    {
      var n := Strlen(commandLine, from, end);
      assert commandLine[from + n] == NUL;
      assert forall k :: from <= k < end ==> commandLine[k] in commandLine[from..end];
      output := output + commandLine[from..from + n];
    }

    /** shell_expand */
    method Expand()
      requires Valid()
      modifies this`commandLine
      ensures Valid() && State() == old(State()) && fresh(commandLine)
      ensures commandLine.Length == 2 * old(commandLine.Length)
    {
      var was := commandLine;
      commandLine := new char[2 * was.Length](i reads was => if 0 <= i < was.Length then was[i] else NUL);
      assert commandLine[..end] == was[..end];
    }

    /** The buffer part of shell_insert: room, the tail moved behind, the text copied in, terminated. */
    method Splice(s: string)
      requires Valid() && Clean(s)
      modifies this`commandLine, this`end, commandLine
      ensures (commandLine == old(commandLine) || fresh(commandLine)) && end == old(end) + |s| < commandLine.Length
      ensures commandLine[..end] == old(commandLine[..end][..cursor]) + s + old(commandLine[..end][cursor..])
      ensures commandLine[end] == NUL
    {
      while end + |s| + 1 > commandLine.Length
        invariant Valid() && State() == old(State()) && end == old(end)
        invariant commandLine == old(commandLine) || fresh(commandLine)
        decreases end + |s| + 1 - commandLine.Length
      {
        Expand();
      }
      Put(s);
    }

    method Put(s: string)
      requires Valid() && end + |s| < commandLine.Length
      modifies this`end, commandLine
      ensures end == old(end) + |s| && commandLine[end] == NUL
      ensures commandLine[..end] == old(commandLine[..end][..cursor]) + s + old(commandLine[..end][cursor..])
    {
      ghost var was := commandLine[..];
      forall k | cursor + |s| <= k < end + |s| {
        commandLine[k] := commandLine[k - |s|];
      }
      forall k | cursor <= k < cursor + |s| {
        commandLine[k] := s[k - cursor];
      }
      end := end + |s|;
      commandLine[end] := NUL;
      Spliced(was, commandLine[..], cursor, end - |s|, s);
    }

    lemma Spliced(was: string, now: string, at: nat, end: nat, s: string)
      requires at <= end <= |was| == |now| && end + |s| < |now|
      requires forall k :: 0 <= k < at ==> now[k] == was[k]
      requires forall k :: at <= k < at + |s| ==> now[k] == s[k - at]
      requires forall k :: at + |s| <= k < end + |s| ==> now[k] == was[k - |s|]
      ensures now[..end + |s|] == was[..end][..at] + s + was[..end][at..]
    {
      var tail := was[..end][at..];
      forall k | 0 <= k < end + |s| ensures now[..end + |s|][k] == (was[..end][..at] + s + tail)[k] {
        if k >= at + |s| {
          assert tail[k - at - |s|] == was[k - |s|];
        }
      }
    }

    /** shell_insert */
    method Insert(s: string)
      requires Valid() && Clean(s)
      modifies this, commandLine
      ensures Becomes(Inserted(old(State()), s), InsertWrites(old(State()), s))
    {
      ghost var was := State();
      Splice(s);
      SplicedParts(was.text, commandLine[..end], cursor, s);
      assert commandLine[cursor..end] == commandLine[..end][cursor..];
      CleanHasNoNul(commandLine[cursor..end]);
      RedrawTail(|s|);
    }

    lemma SplicedParts(text: string, now: string, at: nat, s: string)
      requires at <= |text| && Clean(text) && Clean(s) && now == text[..at] + s + text[at..]
      ensures now[at..] == s + text[at..] && Clean(now) && Clean(now[at..])
    {
    }

    /** The output part of shell_insert: the line from the cursor on, and back behind what was inserted. */
    method RedrawTail(size: nat)
      requires cursor + size <= end < commandLine.Length && commandLine[end] == NUL && NUL !in commandLine[cursor..end]
      modifies this`output, this`cursor
      ensures cursor == old(cursor) + size
      ensures output == old(output) + (commandLine[old(cursor)..end] + Backs(end - cursor))
    {
      WriteFrom(cursor);
      cursor := cursor + size;
      WriteBacks(end, cursor);
    }

    /** The buffer part of shell_delete_string: the tail moved up, blanks behind it, up to the old end. */
    method CloseUp(start: nat, to: nat)
      requires Valid() && start <= to <= end
      modifies commandLine
      ensures commandLine[..end]
        == old(commandLine[..end][..start]) + (old(commandLine[..end][to..]) + Blanks(to - start))
      ensures commandLine[end] == NUL
    {
      ghost var was := commandLine[..];
      var moveSize := end - to;
      forall k | 0 <= k < moveSize {
        commandLine[start + k] := commandLine[to + k];
      }
      forall k | start + moveSize <= k < end {
        commandLine[k] := ' ';
      }
      commandLine[end] := NUL;
      ClosedUp(was, commandLine[..], start, to, end);
    }

    lemma ClosedUp(was: string, now: string, start: nat, to: nat, end: nat)
      requires start <= to <= end < |was| == |now|
      requires forall k :: 0 <= k < start ==> now[k] == was[k]
      requires forall k :: start <= k < start + (end - to) ==> now[k] == was[k + (to - start)]
      requires forall k :: start + end - to <= k < end ==> now[k] == ' '
      ensures now[..end] == was[..end][..start] + (was[..end][to..] + Blanks(to - start))
    {
      var tail := was[..end][to..];
      forall k | 0 <= k < end ensures now[..end][k] == (was[..end][..start] + (tail + Blanks(to - start)))[k] {
        if start <= k < start + (end - to) {
          assert tail[k - start] == was[k + (to - start)];
        }
      }
    }

    lemma ClosedUpParts(text: string, now: string, start: nat, to: nat)
      requires start <= to <= |text| && Clean(text)
      requires now == text[..start] + (text[to..] + Blanks(to - start))
      ensures now[start..] == text[to..] + Blanks(to - start) && Clean(now[start..])
      ensures now[..|text| - (to - start)] == text[..start] + text[to..]
    {
    }

    /** The output part of shell_delete_string: back to the start, the rest of the line, back again. */
    method Redraw(start: nat)
      requires start <= end < commandLine.Length && commandLine[end] == NUL && NUL !in commandLine[start..end]
      modifies this`output, this`cursor
      ensures cursor == start
      ensures output == old(output)
        + (Backs(if start <= old(cursor) then old(cursor) - start else 0) + commandLine[start..end]
          + Backs(end - start))
    {
      WriteBacks(cursor, start);
      WriteFrom(start);
      cursor := start;
      WriteBacks(end, cursor);
    }

    method Shrink(size: nat)
      requires size <= end < commandLine.Length
      modifies this`end, commandLine
      ensures end == old(end) - size && commandLine[end] == NUL
      ensures commandLine[..end] == old(commandLine[..end - size])
    {
      end := end - size;
      commandLine[end] := NUL;
    }

    /** shell_delete_string */
    method DeleteString(start: nat, to: nat)
      requires Valid() && start <= to <= end
      modifies this, commandLine
      ensures Becomes(Deleted(old(State()), start, to), DeleteWrites(old(State()), start, to))
    {
      ghost var text := commandLine[..end];
      CloseUp(start, to);
      ClosedUpParts(text, commandLine[..end], start, to);
      assert commandLine[start..end] == commandLine[..end][start..];
      CleanHasNoNul(commandLine[start..end]);
      Redraw(start);
      Shrink(to - start);
    }

    /** shell_cut */
    method Cut(start: nat, to: nat)
      requires Valid() && start <= to <= end
      modifies this, commandLine
      ensures Becomes(CutOut(old(State()), start, to), CutWrites(old(State()), start, to))
    {
      cutBuffer := "";
      if start == to {
        return;
      }
      cutBuffer := commandLine[start..to];
      assert cutBuffer == commandLine[..end][start..to];
      DeleteString(start, to);
    }

    /** shell_forward: nothing where there are not that many characters ahead. */
    method ForwardBy(num: nat)
      requires Valid()
      modifies this
      ensures var l := old(State()); l.cursor + num <= |l.text| ==>
        Becomes(MovedTo(l, l.cursor + num), MoveWrites(l, l.cursor + num))
      ensures var l := old(State()); l.cursor + num > |l.text| ==> Becomes(l, "")
    {
      if cursor + num > end {
        return;
      }
      for i := cursor to cursor + num
        invariant Valid() && State() == old(State()) && commandLine == old(commandLine)
        invariant output == old(output) + commandLine[..end][cursor..i]
      {
        output := output + [commandLine[i]];
      }
      cursor := cursor + num;
    }

    /** shell_backward */
    method BackwardBy(num: nat)
      requires Valid()
      modifies this
      ensures var l := old(State()); num <= l.cursor ==>
        Becomes(MovedTo(l, l.cursor - num), MoveWrites(l, l.cursor - num))
      ensures var l := old(State()); num > l.cursor ==> Becomes(l, "")
    {
      if num > cursor {
        return;
      }
      cursor := cursor - num;
      WriteBacks(num, 0);
    }

    /** shell_moveto */
    method MoveTo(index: nat)
      requires Valid() && index <= end
      modifies this
      ensures Becomes(MovedTo(old(State()), index), MoveWrites(old(State()), index))
    {
      if cursor < index {
        ForwardBy(index - cursor);
      } else if index < cursor {
        BackwardBy(cursor - index);
      }
    }

    /** The output part of shell_format: the line rewritten, the rest blanked, back to the new cursor. */
    method Rewrite(line: array<char>, newEnd: nat, newCursor: nat)
      requires newCursor <= newEnd <= end && newEnd < line.Length && line[newEnd] == NUL && NUL !in line[..newEnd]
      modifies this`output
      ensures output == old(output)
        + (Backs(cursor) + (line[..newEnd] + Blanks(end - newEnd)) + Backs(end - newCursor))
    {
      WriteBacks(cursor, 0);
      var n := Strlen(line, 0, newEnd);
      assert forall k :: 0 <= k < newEnd ==> line[k] in line[..newEnd];
      output := output + line[..n];
      WriteBlanks(newEnd, end);
      WriteBacks(end, newCursor);
    }

    /** shell_format */
    method Format()
      requires Valid()
      modifies this
      ensures Becomes(Tidied(old(State())), TidyWrites(old(State())))
    {
      var line, newEnd, newCursor := Squeeze(commandLine, end, cursor, commandLine[..end]);
      ghost var tidy := Tidied(State());
      assert line[..newEnd] == tidy.text && newCursor == tidy.cursor;
      CleanHasNoNul(line[..newEnd]);
      Rewrite(line, newEnd, newCursor);
      commandLine, cursor, end := line, newCursor, newEnd;
    }

    lemma CleanHasNoNul(s: string)
      requires Clean(s)
      ensures NUL !in s
    {
    }

    /** Where shell_delete_word_backward and shell_move_word_backward go. */
    method FindWordBack() returns (start: nat)
      requires Valid()
      ensures start == WordBack(State())
    {
      var line := commandLine[..end];
      CleanHasNoNul(line);
      start := WordHead(line, cursor, SPACE_SLASH);
      if start == cursor {
        start := WordPrevHead(line, cursor, SPACE_SLASH);
      }
    }

    method DeleteWordBackward()
      requires Valid()
      modifies this, commandLine
      ensures Becomes(Act(old(State()), DeleteWord), ActWrites(old(State()), prompt, DeleteWord))
    {
      var start := FindWordBack();
      Cut(start, cursor);
    }

    method MoveWordBackward()
      requires Valid()
      modifies this
      ensures Becomes(Act(old(State()), MoveWordBack), ActWrites(old(State()), prompt, MoveWordBack))
    {
      var start := FindWordBack();
      MoveTo(start);
    }

    method MoveWordForwards()
      requires Valid()
      modifies this
      ensures Becomes(Act(old(State()), MoveWordForward), ActWrites(old(State()), prompt, MoveWordForward))
    {
      CleanHasNoNul(commandLine[..end]);
      var start := WordNextHead(commandLine[..end], cursor, SPACE);
      MoveTo(start);
    }

    // -------------------------------------------------------------- key handlers

    /** shell_keyfunc_backspace */
    method HandleBackspace()
      requires Valid()
      modifies this, commandLine
      ensures Becomes(Act(old(State()), Backspace), ActWrites(old(State()), prompt, Backspace))
    {
      if cursor == 0 {
        return;
      }
      if escape {
        DeleteWordBackward();
        return;
      }
      DeleteBack();
    }

    method DeleteBack()
      requires Valid() && cursor > 0
      modifies this, commandLine
      ensures var l := old(State());
        Becomes(Deleted(l, l.cursor - 1, l.cursor),
                MoveWrites(l, l.cursor - 1) + DeleteWrites(MovedTo(l, l.cursor - 1), l.cursor - 1, l.cursor))
    {
      ghost var l := State();
      BackwardBy(1);
      ghost var m := MovedTo(l, l.cursor - 1);
      assert State() == m;
      DeleteString(cursor, cursor + 1);
      assert State() == Deleted(m, l.cursor - 1, l.cursor);
    }

    /** shell_keyfunc_delete_char */
    method HandleDelete()
      requires Valid()
      modifies this, commandLine
      ensures Becomes(Act(old(State()), DeleteChar), ActWrites(old(State()), prompt, DeleteChar))
    {
      if cursor < end {
        DeleteString(cursor, cursor + 1);
      }
    }

    /** shell_keyfunc_delete_char_advanced */
    method HandleDeleteAdvanced()
      requires Valid()
      modifies this, commandLine
      ensures Becomes(Act(old(State()), DeleteAdvanced), ActWrites(old(State()), prompt, DeleteAdvanced))
    {
      if cursor < end {
        DeleteString(cursor, cursor + 1);
      } else if end > 0 {
        DeleteString(end - 1, end);
      }
    }

    /** shell_keyfunc_kill_all */
    method HandleKillAll()
      requires Valid()
      modifies this, commandLine
      ensures Becomes(Act(old(State()), KillAll), ActWrites(old(State()), prompt, KillAll))
    {
      BackwardBy(cursor);
      Cut(0, end);
    }

    /** shell_keyfunc_yank */
    method HandleYank()
      requires Valid()
      modifies this, commandLine
      ensures Becomes(Act(old(State()), Yank), ActWrites(old(State()), prompt, Yank))
    {
      if cutBuffer != "" {
        Insert(cutBuffer);
      }
    }

    /** shell_prompt, behind a line feed */
    method NewRow()
      modifies this`output
      ensures output == old(output) + ([LINE_FEED, RETURN] + prompt)
    {
      output := output + [LINE_FEED];
      output := output + [RETURN];
      output := output + prompt;
    }

    /** shell_refresh, behind a line feed */
    method WriteRow()
      requires Valid()
      modifies this`output
      ensures output == old(output) + RowWrites(prompt, State())
    {
      NewRow();
      CleanHasNoNul(commandLine[..end]);
      assert commandLine[0..end] == commandLine[..end];
      WriteFrom(0);
      WriteBacks(end, cursor);
    }

    /** shell_keyfunc_refresh */
    method HandleRefresh()
      requires Valid()
      modifies this
      ensures Becomes(Act(old(State()), Refresh), ActWrites(old(State()), prompt, Refresh))
    {
      Format();
      WriteRow();
    }

    /** shell_keyfunc_empty_enter */
    method HandleEnter()
      requires Valid()
      modifies this, commandLine
      ensures Becomes(Act(old(State()), Enter), ActWrites(old(State()), prompt, Enter))
    {
      cursor := 0;
      Shrink(end);
      NewRow();
    }

    /** The handler a keymap entry stands for. */
    method Handle(a: Action)
      requires Valid() && CleanAction(a)
      modifies this, commandLine
      ensures Becomes(Act(old(State()), a), ActWrites(old(State()), prompt, a))
    {
      match a {
        case Nothing =>
        case Type(s) => Insert(s);
        case Forward => ForwardBy(1);
        case Backward => BackwardBy(1);
        case ToBegin => BackwardBy(cursor);
        case ToEnd => ForwardBy(end - cursor);
        case DeleteChar => HandleDelete();
        case DeleteAdvanced => HandleDeleteAdvanced();
        case Backspace => HandleBackspace();
        case KillLine => Cut(cursor, end);
        case KillAll => HandleKillAll();
        case Yank => HandleYank();
        case DeleteWord => DeleteWordBackward();
        case MoveWordBack => MoveWordBackward();
        case MoveWordForward => MoveWordForwards();
        case Refresh => HandleRefresh();
        case Enter => HandleEnter();
        case SetEscape => escape := true;
      }
    }

    /** shell_input */
    method Input(key: char)
      requires Valid()
      modifies this, commandLine
      ensures Becomes(Step(old(State()), vty, key), StepWrites(old(State()), vty, prompt, key))
    {
      var escaped := escape;
      var (action, next) := KeyAction(keymap, vty, key);
      KeyIsClean(keymap, vty, key);
      Handle(action);
      keymap := next;
      if escaped {
        escape := false;
      }
    }

    /** shell_read: every byte that was read. */
    method Read(keys: string)
      requires Valid()
      modifies this, commandLine
      ensures Valid() && Reached(vty, prompt, keys, old(Now()), Now())
      ensures commandLine == old(commandLine) || fresh(commandLine)
    {
      ReachedNone(vty, prompt, keys, Now());
      for i := 0 to |keys|
        invariant Valid() && Reached(vty, prompt, keys[..i], old(Now()), Now())
        invariant commandLine == old(commandLine) || fresh(commandLine)
      {
        ghost var before := Now();
        ReadOne(keys[i]);
        ReachedNext(vty, prompt, keys, i, old(Now()), before, Now());
      }
      assert keys[..|keys|] == keys;
    }

    ghost function Now(): Config
      reads this, commandLine
      requires Valid()
    {
      Config(State(), output)
    }

    method ReadOne(key: char)
      requires Valid()
      modifies this, commandLine
      ensures Valid() && (commandLine == old(commandLine) || fresh(commandLine))
      ensures Reached(vty, prompt, [key], old(Now()), Now())
    {
      ghost var before := Now();
      Input(key);
      ReachedOne(vty, prompt, key, before, Now());
    }

    /** A terminal that starts a row is shown the prompt; after any keys it shows the buffer and the cursor. */
    method Session(s: Screen, keys: string)
      requires Valid() && State() == Line("", 0, "", false, Normal) && output == [RETURN] + prompt && s.row == ""
      modifies this, commandLine
      ensures Valid() && InSync(Replay(s, output), prompt, State())
    {
      PromptShows(s, prompt, State());
      Read(keys);
      EveryRunIsInSync(s, vty, prompt, keys, old(Now()), Now());
    }
  }
}
