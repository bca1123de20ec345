/** A one-row terminal: what a stream of written characters leaves on the screen. */
module Terminal {
  const NUL: char := 0 as char
  const BACKSPACE: char := 8 as char
  const LINE_FEED: char := 10 as char
  const RETURN: char := 13 as char

  predicate Printable(c: char) {
    ' ' <= c <= '~'
  }

  predicate Clean(s: string) {
    forall i :: 0 <= i < |s| ==> Printable(s[i])
  }

  /** The cells of the current row, blank from |row| on, and the column the next character goes to. */
  datatype Screen = Screen(row: string, col: nat)

  function Cell(row: string, i: nat): char {
    if i < |row| then row[i] else ' '
  }

  function Fill(c: char, n: nat): (r: string)
    ensures |r| == n
  {
    seq(n, _ => c)
  }

  function Blanks(n: nat): (r: string)
    ensures |r| == n && Clean(r)
  {
    Fill(' ', n)
  }

  function Backs(n: nat): string {
    Fill(BACKSPACE, n)
  }

  /** A printed character moves the column right, ^H left; a line feed opens a blank row. */
  function Put(s: Screen, c: char): Screen {
    if c == BACKSPACE then Screen(s.row, if s.col == 0 then 0 else s.col - 1)
    else if c == RETURN then Screen(s.row, 0)
    else if c == LINE_FEED then Screen("", s.col)
    else Screen(if s.col < |s.row| then s.row[s.col := c] else s.row + Blanks(s.col - |s.row|) + [c], s.col + 1)
  }

  function Replay(s: Screen, out: string): Screen {
    if out == "" then s else Put(Replay(s, out[..|out| - 1]), out[|out| - 1])
  }

  lemma {:induction false} ReplayAppend(s: Screen, a: string, b: string)
    ensures Replay(s, a + b) == Replay(Replay(s, a), b)
  {
    if b == "" {
      assert a + b == a;
    } else {
      var init := b[..|b| - 1];
      ReplayAppend(s, a, init);
      assert (a + b)[..|a + b| - 1] == a + init;
    }
  }

  lemma PutPrintable(s: Screen, c: char, i: nat)
    requires Printable(c)
    ensures Put(s, c).col == s.col + 1
    ensures Cell(Put(s, c).row, i) == if i == s.col then c else Cell(s.row, i)
  {
  }

  lemma {:induction false} Printed(s: Screen, t: string, i: nat)
    requires Clean(t)
    ensures Replay(s, t).col == s.col + |t|
    ensures Cell(Replay(s, t).row, i) == if s.col <= i < s.col + |t| then t[i - s.col] else Cell(s.row, i)
  {
    if t != "" {
      var init := t[..|t| - 1];
      Printed(s, init, i);
      PutPrintable(Replay(s, init), t[|t| - 1], i);
    }
  }

  lemma {:induction false} MovedBack(s: Screen, n: nat)
    requires n <= s.col
    ensures Replay(s, Backs(n)) == Screen(s.row, s.col - n)
  {
    if n > 0 {
      MovedBack(s, n - 1);
      assert Backs(n)[..n - 1] == Backs(n - 1);
    }
  }

  /** The row holds the line and nothing behind it, and the column is `at`. */
  ghost predicate Shows(s: Screen, line: string, at: nat) {
    s.col == at && forall i: nat :: Cell(s.row, i) == Cell(line, i)
  }

  /** What `over` written at column `at` of a line makes of cell i. */
  function Overwritten(line: string, at: nat, over: string, i: nat): char {
    if at <= i < at + |over| then over[i - at] else Cell(line, i)
  }

  /** What writing over the row from column `at` leaves. */
  lemma WrittenOver(row: string, at: nat, over: string) returns (r: Screen)
    requires Clean(over)
    ensures r == Replay(Screen(row, at), over) && r.col == at + |over|
    ensures forall i: nat :: Cell(r.row, i) == Overwritten(row, at, over, i)
  {
    r := Replay(Screen(row, at), over);
    Printed(Screen(row, at), over, 0);
    forall i: nat ensures Cell(r.row, i) == Overwritten(row, at, over, i) {
      Printed(Screen(row, at), over, i);
    }
  }

  /** Every edit is emitted as: back to column `at`, overwrite, back to the new column. */
  lemma Redrawn(s: Screen, back: nat, over: string, back2: nat) returns (row: string)
    requires back <= s.col && Clean(over) && back2 <= s.col - back + |over|
    ensures Replay(s, Backs(back) + over + Backs(back2)) == Screen(row, s.col - back + |over| - back2)
    ensures forall i: nat :: Cell(row, i) == Overwritten(s.row, s.col - back, over, i)
  {
    MovedBack(s, back);
    ReplayAppend(s, Backs(back), over);
    var r := WrittenOver(s.row, s.col - back, over);
    MovedBack(r, back2);
    ReplayAppend(s, Backs(back) + over, Backs(back2));
    row := r.row;
  }

  lemma RedrawnShows(s: Screen, was: string, col: nat, back: nat, over: string, back2: nat, now: string)
    requires Shows(s, was, col) && back <= col && Clean(over) && back2 <= col - back + |over|
    requires forall i: nat :: Overwritten(was, col - back, over, i) == Cell(now, i)
    ensures Shows(Replay(s, Backs(back) + over + Backs(back2)), now, col - back + |over| - back2)
  {
    var row := Redrawn(s, back, over, back2);
    forall i: nat ensures Cell(row, i) == Cell(now, i) {
      assert Overwritten(s.row, col - back, over, i) == Overwritten(was, col - back, over, i);
    }
  }

  /** A line written on a row of its own, the column then moved back. */
  lemma RowStarted(s: Screen, line: string, back: nat)
    requires Clean(line) && back <= |line|
    ensures Shows(Replay(s, [LINE_FEED, RETURN] + line + Backs(back)), line, |line| - back)
  {
    var m := Screen("", 0);
    assert Replay(s, [LINE_FEED, RETURN]) == m by {
      assert [LINE_FEED, RETURN][..1] == [LINE_FEED];
      assert [LINE_FEED][..0] == [];
      assert Replay(s, [LINE_FEED]) == Screen("", s.col);
    }
    ReplayAppend(s, [LINE_FEED, RETURN], line);
    forall i: nat ensures Cell(Replay(m, line).row, i) == Cell(line, i) {
      Printed(m, line, i);
    }
    Printed(m, line, 0);
    MovedBack(Replay(m, line), back);
    ReplayAppend(s, [LINE_FEED, RETURN] + line, Backs(back));
  }
}
