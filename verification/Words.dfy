/** The word scanners of the line editor: strsep loops over a copy of the line. */
module Words {
  import opened Terminal

  /** A line as the shell holds it: no terminator inside. */
  predicate NoNul(s: string) {
    NUL !in s
  }

  /** The two delimiter sets: words end at a space, subwords also at a slash. */
  const SPACE: string := " "
  const SPACE_SLASH: string := " /"

  /** The least h with no delimiter in [h, p). */
  function Head(s: string, p: nat, delims: string): (h: nat)
    requires p <= |s|
    ensures h <= p
  {
    if p == 0 || s[p - 1] in delims then p else Head(s, p - 1, delims)
  }

  /** The greatest e with no delimiter in [p, e). */
  function Tail(s: string, p: nat, delims: string): (e: nat)
    requires p <= |s|
    ensures p <= e <= |s|
    decreases |s| - p
  {
    if p == |s| || s[p] in delims then p else Tail(s, p + 1, delims)
  }

  predicate FreeOf(s: string, i: nat, j: nat, delims: string)
    requires j <= |s|
  {
    forall k :: i <= k < j ==> s[k] !in delims
  }

  lemma {:induction false} HeadIsLeast(s: string, p: nat, h: nat, delims: string)
    requires h <= p <= |s|
    ensures h >= Head(s, p, delims) <==> FreeOf(s, h, p, delims)
  {
    if p > 0 && s[p - 1] !in delims && h < p {
      HeadIsLeast(s, p - 1, h, delims);
    }
  }

  lemma {:induction false} TailIsGreatest(s: string, p: nat, e: nat, delims: string)
    requires p <= e <= |s|
    ensures e <= Tail(s, p, delims) <==> FreeOf(s, p, e, delims)
    decreases |s| - p
  {
    if p < e && s[p] !in delims {
      TailIsGreatest(s, p + 1, e, delims);
    }
  }

  /** The least k with only delimiters in [k, p). */
  function Gap(s: string, p: nat, delims: string): (k: nat)
    requires p <= |s|
    ensures k <= p
  {
    if p == 0 || s[p - 1] !in delims then p else Gap(s, p - 1, delims)
  }

  /** The head of the word before the one at p, or the beginning of the line. */
  function PrevHead(s: string, p: nat, delims: string): (h: nat)
    requires p <= |s|
    ensures h <= p
  {
    Head(s, Gap(s, Head(s, p, delims), delims), delims)
  }

  /** The word right behind the delimiter that ends the word at p; the line's end if there is none there. */
  function NextHead(s: string, p: nat, delims: string): (h: nat)
    requires p <= |s|
    ensures p <= h <= |s|
  {
    var e := Tail(s, p, delims);
    if e + 1 < |s| && s[e + 1] !in delims then e + 1 else |s|
  }

  /**
   * Where the next word starts: if the word at p ends at e, right behind the delimiter there,
   * provided a word starts there; otherwise the line's end.
   */
  lemma NextHeadIs(s: string, p: nat, e: nat, delims: string)
    requires p <= e <= |s| && FreeOf(s, p, e, delims) && Ends(s, e, delims)
    ensures e + 1 < |s| && s[e + 1] !in delims ==> NextHead(s, p, delims) == e + 1
    ensures e + 1 >= |s| || s[e + 1] in delims ==> NextHead(s, p, delims) == |s|
  {
    TailIsGreatest(s, p, e, delims);
    if e < |s| {
      TailIsGreatest(s, p, e + 1, delims);
    }
  }

  /** The word s[r..e) and nothing but delimiters behind it, up to p. */
  ghost predicate WordBefore(s: string, r: nat, e: nat, p: nat, delims: string) {
    && r < e <= p <= |s| && FreeOf(s, r, e, delims) && (r == 0 || s[r - 1] in delims)
    && forall k :: e <= k < p ==> s[k] in delims
  }

  /**
   * The head of the previous word, where h is the head of the word at p: of the word before h, and the
   * beginning of the line if there is none.
   */
  lemma PrevHeadIs(s: string, p: nat, h: nat, delims: string)
    requires h <= p <= |s| && FreeOf(s, h, p, delims) && (h == 0 || s[h - 1] in delims)
    ensures forall r, e :: WordBefore(s, r, e, h, delims) ==> PrevHead(s, p, delims) == r
    ensures (forall k :: 0 <= k < h ==> s[k] in delims) ==> PrevHead(s, p, delims) == 0
    ensures (forall k :: 0 <= k < h ==> s[k] in delims) || exists r, e :: WordBefore(s, r, e, h, delims)
  {
    HeadIs(s, p, h, delims);
    forall r, e | WordBefore(s, r, e, h, delims) ensures PrevHead(s, p, delims) == r {
      GapIs(s, e, h, delims);
      HeadIs(s, e, r, delims);
    }
    var g := Gap(s, h, delims);
    GapHolds(s, h, delims);
    if g == 0 {
      HeadIsLeast(s, 0, 0, delims);
    } else {
      var r := Head(s, g, delims);
      HeadIsLeast(s, g, r, delims);
      HeadIsLeast(s, g, g - 1, delims);
      if r > 0 {
        HeadIsLeast(s, g, r - 1, delims);
      }
      assert WordBefore(s, r, g, h, delims);
    }
  }

  lemma HeadIs(s: string, p: nat, h: nat, delims: string)
    requires h <= p <= |s| && FreeOf(s, h, p, delims) && (h == 0 || s[h - 1] in delims)
    ensures Head(s, p, delims) == h
  {
    HeadIsLeast(s, p, h, delims);
    if h > 0 {
      HeadIsLeast(s, p, h - 1, delims);
    }
  }

  lemma {:induction false} GapIs(s: string, k: nat, p: nat, delims: string)
    requires k <= p <= |s| && (k == 0 || s[k - 1] !in delims) && forall i :: k <= i < p ==> s[i] in delims
    ensures Gap(s, p, delims) == k
  {
    if k < p {
      GapIs(s, k, p - 1, delims);
    }
  }

  lemma {:induction false} GapHolds(s: string, p: nat, delims: string)
    requires p <= |s|
    ensures var k := Gap(s, p, delims);
      (k == 0 || s[k - 1] !in delims) && forall i :: k <= i < p ==> s[i] in delims
  {
    if p > 0 && s[p - 1] in delims {
      GapHolds(s, p - 1, delims);
    }
  }

  /** Where p lies in or right behind a word, the word's head and tail are those of p. */
  lemma {:induction false} SameWord(s: string, h: nat, p: nat, delims: string)
    requires h <= |s| && h <= p <= Tail(s, h, delims)
    ensures p <= |s| && Head(s, p, delims) == Head(s, h, delims) && Tail(s, p, delims) == Tail(s, h, delims)
    decreases p - h
  {
    if h < p {
      SameWord(s, h + 1, p, delims);
    }
  }

  // ---------------------------------------------------------------- strsep

  predicate Ends(s: string, i: nat, delims: string) {
    i >= |s| || s[i] in delims
  }

  /** The copy after strsep has consumed the line up to `pos`: its delimiters are overwritten. */
  ghost predicate Cut(copy: seq<char>, s: string, pos: nat, delims: string) {
    && |copy| == |s| + 1 && NoNul(s)
    && forall i :: 0 <= i < |copy| ==>
         copy[i] == if i == |s| || (i < pos && s[i] in delims) then NUL else s[i]
  }

  /** strsep: the token at pos, and the position behind its delimiter; |s| + 1 stands for NULL. */
  method Strsep(copy: array<char>, pos: nat, delims: string, ghost s: string) returns (next: nat)
    requires Cut(copy[..], s, pos, delims) && pos <= |s| && NUL !in delims
    modifies copy
    ensures pos < next <= |s| + 1
    ensures next - 1 == Tail(s, pos, delims)
    ensures Cut(copy[..], s, next, delims)
  {
    var i := pos;
    while copy[i] != NUL && copy[i] !in delims
      invariant pos <= i <= |s| && FreeOf(s, pos, i, delims)
      decreases |s| - i
    {
      i := i + 1;
    }
    TailIsGreatest(s, pos, i, delims);
    if i < |s| {
      TailIsGreatest(s, pos, i + 1, delims);
    }
    copy[i] := NUL;
    next := i + 1;
  }

  /** strlen of what starts at `at`; z is some terminator behind it. */
  method Strlen(copy: array<char>, at: nat, ghost z: nat) returns (n: nat)
    requires at <= z < copy.Length && copy[z] == NUL
    ensures at + n <= z && copy[at + n] == NUL
    ensures forall k :: at <= k < at + n ==> copy[k] != NUL
  {
    n := 0;
    while copy[at + n] != NUL
      invariant at + n <= z && forall k :: at <= k < at + n ==> copy[k] != NUL
      decreases z - n
    {
      n := n + 1;
    }
  }

  /** A consumed token's length reaches to its tail. */
  lemma TokenLength(copy: seq<char>, s: string, pos: nat, delims: string, word: nat, n: nat)
    requires Cut(copy, s, pos, delims) && word <= |s| && word + n < |copy| && copy[word + n] == NUL
    requires Tail(s, word, delims) < pos && forall k :: word <= k < word + n ==> copy[k] != NUL
    ensures word + n == Tail(s, word, delims)
  {
    var e := Tail(s, word, delims);
    TailIsGreatest(s, word, e, delims);
    if e < |s| {
      TailIsGreatest(s, word, e + 1, delims);
    }
    assert copy[e] == NUL;
  }

  /** `word` heads the last nonempty token consumed before pos, or is the beginning of the line. */
  ghost predicate LastToken(s: string, word: nat, pos: nat, delims: string) {
    && word <= |s| && pos <= |s| + 1 && Head(s, word, delims) == word
    && (pos == 0 ==> word == 0)
    && (pos > 0 ==> Tail(s, word, delims) < pos && OnlyEnds(s, Tail(s, word, delims), pos, delims))
  }

  predicate OnlyEnds(s: string, i: nat, j: nat, delims: string) {
    forall k :: i <= k < j ==> Ends(s, k, delims)
  }

  lemma TokenConsumed(s: string, word: nat, pos: nat, next: nat, delims: string)
    requires LastToken(s, word, pos, delims) && pos <= |s| && next - 1 == Tail(s, pos, delims)
    requires pos > 0 ==> Ends(s, pos - 1, delims)
    ensures LastToken(s, if next > pos + 1 then pos else word, next, delims)
    ensures Ends(s, next - 1, delims)
  {
    if next - 1 < |s| {
      TailIsGreatest(s, pos, next - 1, delims);
      TailIsGreatest(s, pos, next, delims);
    }
  }

  /** The loop that head and end share: the last token that starts at or before the point. */
  method FindToken(copy: array<char>, point: nat, delims: string, ghost s: string) returns (word: nat, len: nat)
    requires Cut(copy[..], s, 0, delims) && point <= |s| && NUL !in delims
    modifies copy
    ensures word <= point && word + len == Tail(s, word, delims) && Head(s, word, delims) == word
    ensures word + len < point ==> Ends(s, point - 1, delims) && Ends(s, point, delims)
  {
    word := 0;
    var pos, limit := 0, copy.Length;
    while pos < limit
      invariant pos <= limit == copy.Length == |s| + 1 && Cut(copy[..], s, pos, delims)
      invariant LastToken(s, word, pos, delims) && word <= point
      invariant pos > 0 ==> Ends(s, pos - 1, delims)
      decreases limit - pos
    {
      var token := pos;
      pos := Strsep(copy, token, delims, s);
      TokenConsumed(s, word, token, pos, delims);
      if word <= point && point < token {
        TokenBefore(s, word, token, point, delims);
        len := Strlen(copy, word, |s|);
        TokenLength(copy[..], s, pos, delims, word, len);
        return;
      }
      if copy[token] != NUL {
        word := token;
      }
    }
    TokenBefore(s, word, pos, point, delims);
    len := Strlen(copy, word, |s|);
    TokenLength(copy[..], s, pos, delims, word, len);
  }

  lemma TokenBefore(s: string, word: nat, pos: nat, point: nat, delims: string)
    requires LastToken(s, word, pos, delims) && word <= point < pos && point <= |s|
    ensures Tail(s, word, delims) < pos
    ensures Tail(s, word, delims) < point ==> Ends(s, point - 1, delims) && Ends(s, point, delims)
  {
  }

  /** strdup of the line. */
  method Strdup(line: string) returns (copy: array<char>)
    requires NoNul(line)
    ensures fresh(copy) && copy[..] == line + [NUL]
  {
    copy := new char[|line| + 1](i requires 0 <= i <= |line| => if i < |line| then line[i] else NUL);
  }

  lemma Uncut(line: string, delims: string)
    requires NoNul(line)
    ensures Cut(line + [NUL], line, 0, delims) && LastToken(line, 0, 0, delims)
  {
  }

  lemma PointsWord(s: string, word: nat, point: nat, delims: string)
    requires word <= point <= |s| && Head(s, word, delims) == word
    requires Tail(s, word, delims) < point ==> Ends(s, point - 1, delims) && Ends(s, point, delims)
    ensures Head(s, point, delims) == if Tail(s, word, delims) < point then point else word
    ensures Tail(s, point, delims) == if Tail(s, word, delims) < point then point else Tail(s, word, delims)
  {
    if point <= Tail(s, word, delims) {
      SameWord(s, word, point, delims);
    }
  }

  /** shell_word_head, shell_subword_head */
  method WordHead(line: string, point: nat, delims: string) returns (head: nat)
    requires NoNul(line) && point <= |line| && NUL !in delims
    ensures head == Head(line, point, delims)
  {
    var copy := Strdup(line);
    Uncut(line, delims);
    var word, len := FindToken(copy, point, delims, line);
    PointsWord(line, word, point, delims);
    head := if word + len < point then point else word;
  }

  /** shell_word_end */
  method WordEnd(line: string, point: nat, delims: string) returns (end: nat)
    requires NoNul(line) && point <= |line| && NUL !in delims
    ensures end == Tail(line, point, delims)
  {
    var copy := Strdup(line);
    Uncut(line, delims);
    var word, len := FindToken(copy, point, delims, line);
    PointsWord(line, word, point, delims);
    end := if word + len < point then point else word + len;
  }

  /** The token at pos is the word of the point. */
  lemma TokenHolds(s: string, pos: nat, point: nat, delims: string)
    requires pos <= |s| && point <= |s| && (pos > 0 ==> Ends(s, pos - 1, delims)) && pos <= point
    ensures Head(s, pos, delims) == pos
    ensures point <= Tail(s, pos, delims)
      ==> Head(s, point, delims) == pos && Tail(s, point, delims) == Tail(s, pos, delims)
  {
    if point <= Tail(s, pos, delims) {
      SameWord(s, pos, point, delims);
    }
  }

  lemma PrevOf(s: string, prev: nat, pos: nat, delims: string)
    requires LastToken(s, prev, pos, delims) && pos <= |s|
    requires prev == Tail(s, prev, delims) ==> prev == 0
    ensures Head(s, Gap(s, pos, delims), delims) == prev
  {
    if pos > 0 {
      var e := Tail(s, prev, delims);
      TailIsGreatest(s, prev, e, delims);
      forall i | e <= i < pos ensures s[i] in delims {
        assert Ends(s, i, delims);
      }
      GapIs(s, e, pos, delims);
      SameWord(s, prev, e, delims);
    }
  }

  /** shell_word_prev_head, shell_subword_prev_head */
  method WordPrevHead(line: string, point: nat, delims: string) returns (head: nat)
    requires NoNul(line) && point <= |line| && NUL !in delims
    ensures head == PrevHead(line, point, delims)
  {
    var copy := Strdup(line);
    Uncut(line, delims);
    var prev, pos, limit := 0, 0, copy.Length;
    while pos < limit
      invariant pos <= limit == copy.Length == |line| + 1 && Cut(copy[..], line, pos, delims)
      invariant LastToken(line, prev, pos, delims) && prev <= point && pos <= point
      invariant prev == Tail(line, prev, delims) ==> prev == 0
      invariant pos > 0 ==> Ends(line, pos - 1, delims)
      decreases limit - pos
    {
      var word := pos;
      pos := Strsep(copy, word, delims, line);
      TokenHolds(line, word, point, delims);
      if point <= pos - 1 {
        PrevOf(line, prev, word, delims);
        return prev;
      }
      TokenConsumed(line, prev, word, pos, delims);
      if copy[word] != NUL {
        prev := word;
      }
    }
    assert false;
  }

  /** shell_word_next_head */
  method WordNextHead(line: string, point: nat, delims: string) returns (head: nat)
    requires NoNul(line) && point <= |line| && NUL !in delims
    ensures head == NextHead(line, point, delims)
  {
    var copy := Strdup(line);
    Uncut(line, delims);
    var pos, limit, passed := 0, copy.Length, false;
    while pos < limit
      invariant pos <= limit == copy.Length == |line| + 1 && Cut(copy[..], line, pos, delims)
      invariant pos > 0 ==> Ends(line, pos - 1, delims)
      invariant if passed then pos == Tail(line, point, delims) + 1 else pos <= point
      decreases limit - pos
    {
      var word := pos;
      pos := Strsep(copy, word, delims, line);
      if passed {
        TailIsGreatest(line, word, word, delims);
        return if copy[word] != NUL then word else |line|;
      }
      TokenHolds(line, word, point, delims);
      TailIsGreatest(line, word, pos - 1, delims);
      TailEnds(line, word, delims);
      passed := point <= pos - 1;
    }
    head := |line|;
  }

  lemma TailEnds(s: string, p: nat, delims: string)
    requires p <= |s|
    ensures Ends(s, Tail(s, p, delims), delims)
  {
    var e := Tail(s, p, delims);
    if e < |s| {
      TailIsGreatest(s, p, e, delims);
      TailIsGreatest(s, p, e + 1, delims);
    }
  }
}
