/** Command patterns: words with alternatives and optional words, and the word sequences they stand for. */
module CommandPattern {
  import opened Option
  import opened Sequences

  // ---------------------------------------------------------------- splitting

  /** The first d in s, or |s|. */
  function Index(s: string, d: char): (i: nat)
    ensures i <= |s| && (i < |s| ==> s[i] == d) && d !in s[..i]
  {
    if s == "" || s[0] == d then 0
    else
      var j := Index(s[1..], d);
      assert s[..1 + j] == [s[0]] + s[1..][..j];
      1 + j
  }

  /** All tokens strsep yields until it returns NULL. */
  function Split(s: string, d: char): (ts: seq<string>)
    ensures |ts| > 0
    decreases |s|
  {
    var i := Index(s, d);
    if i == |s| then [s] else [s[..i]] + Split(s[i + 1..], d)
  }

  function Join(ts: seq<string>, d: char): string
    requires ts != []
  {
    if |ts| == 1 then ts[0] else ts[0] + [d] + Join(ts[1..], d)
  }

  lemma JoinCons(t: string, ts: seq<string>, d: char)
    requires ts != []
    ensures Join([t] + ts, d) == t + [d] + Join(ts, d)
  {
    assert ([t] + ts)[1..] == ts;
  }

  lemma SplitCons(s: string, d: char) returns (t: string, rest: string)
    requires Index(s, d) < |s|
    ensures |rest| < |s| && s == t + [d] + rest && Split(s, d) == [t] + Split(rest, d)
  {
    var i := Index(s, d);
    t, rest := s[..i], s[i + 1..];
  }

  lemma {:induction false} JoinOfSplit(s: string, d: char)
    ensures Join(Split(s, d), d) == s
    decreases |s|
  {
    if Index(s, d) < |s| {
      var t, rest := SplitCons(s, d);
      JoinOfSplit(rest, d);
      JoinCons(t, Split(rest, d), d);
    }
  }

  lemma IndexIs(s: string, d: char, i: nat)
    requires i <= |s| && d !in s[..i] && (i < |s| ==> s[i] == d)
    ensures Index(s, d) == i
  {
    assert forall k :: 0 <= k < i ==> s[k] in s[..i];
    assert forall k :: 0 <= k < Index(s, d) ==> s[k] in s[..Index(s, d)];
  }

  lemma IndexOfAppend(a: string, d: char, b: string)
    requires d !in a
    ensures Index(a + [d] + b, d) == |a|
  {
    assert (a + [d] + b)[..|a|] == a;
    IndexIs(a + [d] + b, d, |a|);
  }

  lemma IndexOfNone(a: string, d: char)
    requires d !in a
    ensures Index(a, d) == |a|
  {
  }

  predicate Free(ts: seq<string>, d: char) {
    forall k :: 0 <= k < |ts| ==> d !in ts[k]
  }

  lemma {:induction false} SplitOfJoin(ts: seq<string>, d: char)
    requires ts != [] && Free(ts, d)
    ensures Split(Join(ts, d), d) == ts
  {
    if |ts| == 1 {
      IndexOfNone(ts[0], d);
    } else {
      var rest := Join(ts[1..], d);
      SplitOfJoin(ts[1..], d);
      IndexOfAppend(ts[0], d, rest);
      var s := ts[0] + [d] + rest;
      assert s[..|ts[0]|] == ts[0] && s[|ts[0]| + 1..] == rest;
    }
  }

  lemma {:induction false} SplitIsFree(s: string, d: char)
    ensures Free(Split(s, d), d)
    decreases |s|
  {
    var i := Index(s, d);
    if i < |s| {
      SplitIsFree(s[i + 1..], d);
    }
  }

  lemma {:induction false} SplitKeepsFree(s: string, d: char, x: char)
    requires x !in s
    ensures Free(Split(s, d), x)
    decreases |s|
  {
    var i := Index(s, d);
    if i < |s| {
      SplitKeepsFree(s[i + 1..], d, x);
    }
  }

  /** strsep: one token and what is left; None stands for NULL. */
  method Strsep(s: string, d: char) returns (token: string, rest: Option<string>)
    ensures Split(s, d) == [token] + Tokens(rest, d)
    ensures rest.Some? ==> |rest.value| < |s|
  {
    var i := 0;
    while i < |s| && s[i] != d
      invariant i <= |s| && d !in s[..i]
    {
      i := i + 1;
    }
    IndexIs(s, d, i);
    assert s[..|s|] == s;
    token := s[..i];
    rest := if i < |s| then Some(s[i + 1..]) else None;
  }

  /** The tokens still to come. */
  function Tokens(rest: Option<string>, d: char): seq<string> {
    if rest.None? then [] else Split(rest.value, d)
  }

  // ---------------------------------------------------------------- patterns

  /** The alternatives of one pattern word; an empty one makes the word optional. */
  type Alternatives = seq<string>
  type Path = seq<string>

  /** Everything up to the first '(' and from the first ')' on is ignored. */
  function Inner(word: string): string {
    var i := Index(word, '(');
    var body := if i < |word| then word[i + 1..] else word;
    body[..Index(body, ')')]
  }

  /** A word without brackets is taken as it is. */
  lemma InnerOfBare(word: string)
    requires '(' !in word && ')' !in word
    ensures Inner(word) == word
  {
    IndexOfNone(word, '(');
    IndexOfNone(word, ')');
    assert word[..|word|] == word;
  }

  /** Of a bracketed word only what stands between the brackets counts. */
  lemma InnerOfBrackets(before: string, body: string, behind: string)
    requires '(' !in before && ')' !in body
    ensures Inner(before + "(" + (body + ")" + behind)) == body
  {
    InnerFrom(before, body + ")" + behind);
    IndexOfAppend(body, ')', behind);
    assert (body + [')'] + behind)[..|body|] == body;
  }

  /** An opening bracket alone starts the word. */
  lemma InnerOfOpened(before: string, body: string)
    requires '(' !in before && ')' !in body
    ensures Inner(before + "(" + body) == body
  {
    InnerFrom(before, body);
    IndexOfNone(body, ')');
    assert body[..|body|] == body;
  }

  lemma InnerFrom(before: string, rest: string)
    requires '(' !in before
    ensures Inner(before + "(" + rest) == rest[..Index(rest, ')')]
  {
    IndexOfAppend(before, '(', rest);
    assert (before + ['('] + rest)[|before| + 1..] == rest;
  }

  /** A closing bracket alone ends the word. */
  lemma InnerOfClosed(body: string, behind: string)
    requires '(' !in body && '(' !in behind && ')' !in body
    ensures Inner(body + ")" + behind) == body
  {
    var word := body + ")" + behind;
    IndexOfNone(word, '(');
    IndexOfAppend(body, ')', behind);
    assert (body + [')'] + behind)[..|body|] == body;
  }

  function AlternativesOf(word: string): (alts: Alternatives)
    ensures alts != []
  {
    Split(Inner(word), '|')
  }

  function ParseWords(words: seq<string>): (p: seq<Alternatives>)
    ensures |p| == |words| && forall k :: 0 <= k < |p| ==> p[k] == AlternativesOf(words[k])
  {
    seq(|words|, k requires 0 <= k < |words| => AlternativesOf(words[k]))
  }

  function Parse(pattern: string): (p: seq<Alternatives>)
    ensures |p| > 0
  {
    ParseWords(Split(pattern, ' '))
  }

  function Bracketed(alts: Alternatives): string
    requires alts != []
  {
    "(" + Join(alts, '|') + ")"
  }

  predicate Plain(alts: Alternatives) {
    alts != [] && Free(alts, ' ') && Free(alts, '(') && Free(alts, ')') && Free(alts, '|')
  }

  predicate AllPlain(p: seq<Alternatives>) {
    forall k :: 0 <= k < |p| ==> Plain(p[k])
  }

  lemma {:induction false} JoinIsFree(ts: seq<string>, d: char, x: char)
    requires ts != [] && Free(ts, x) && x != d
    ensures x !in Join(ts, d)
  {
    if |ts| > 1 {
      JoinIsFree(ts[1..], d, x);
    }
  }

  /** The word spells the alternatives: in brackets or without. */
  predicate SpellsAlternatives(word: string, alts: Alternatives)
    requires alts != []
  {
    word == Join(alts, '|') || word == Bracketed(alts)
  }

  lemma WordParses(word: string, alts: Alternatives)
    requires Plain(alts) && SpellsAlternatives(word, alts)
    ensures AlternativesOf(word) == alts && ' ' !in word
  {
    var j := Join(alts, '|');
    JoinIsFree(alts, '|', '(');
    JoinIsFree(alts, '|', ')');
    JoinIsFree(alts, '|', ' ');
    SplitOfJoin(alts, '|');
    if word == j {
      InnerOfBare(word);
    } else {
      InnerOfBrackets("", j, "");
      assert "" + "(" + (j + ")" + "") == word;
    }
  }

  /** A bare word stands for itself. */
  lemma BareWordParses(word: string)
    requires '(' !in word && ')' !in word && '|' !in word
    ensures AlternativesOf(word) == [word]
  {
    InnerOfBare(word);
    IndexOfNone(word, '|');
  }

  /** Words that spell their alternatives, bracketed and bare mixed, parse to them. */
  lemma ParsePrint(words: seq<string>, p: seq<Alternatives>)
    requires p != [] && AllPlain(p) && |words| == |p|
    requires forall k :: 0 <= k < |p| ==> p[k] != [] && SpellsAlternatives(words[k], p[k])
    ensures Parse(Join(words, ' ')) == p
  {
    forall k | 0 <= k < |p| ensures AlternativesOf(words[k]) == p[k] && ' ' !in words[k] {
      assert Plain(p[k]);
      WordParses(words[k], p[k]);
    }
    SplitOfJoin(words, ' ');
  }

  // ---------------------------------------------------------------- expansions

  function Extended(e: Path, alt: string): Path {
    if alt == "" then e else e + [alt]
  }

  function ExtendAll(es: seq<Path>, alt: string): (r: seq<Path>)
    ensures |r| == |es| && forall j :: 0 <= j < |es| ==> r[j] == Extended(es[j], alt)
  {
    seq(|es|, j requires 0 <= j < |es| => Extended(es[j], alt))
  }

  /** Every path continued by every alternative, alternatives outermost. */
  function Level(es: seq<Path>, alts: Alternatives): seq<Path> {
    if alts == [] then [] else Level(es, alts[..|alts| - 1]) + ExtendAll(es, alts[|alts| - 1])
  }

  /** The word sequences a pattern stands for: the cross product of its words' alternatives. */
  function Expansions(p: seq<Alternatives>): seq<Path> {
    if p == [] then [[]] else Level(Expansions(p[..|p| - 1]), p[|p| - 1])
  }

  predicate BareWord(word: string) {
    word != "" && '(' !in word && ')' !in word && '|' !in word && ' ' !in word
  }

  /** Every word its own only alternative. */
  function Singles(ws: seq<string>): (p: seq<Alternatives>)
    ensures |p| == |ws| && forall k :: 0 <= k < |ws| ==> p[k] == [ws[k]]
  {
    seq(|ws|, k requires 0 <= k < |ws| => [ws[k]])
  }

  predicate BareWords(ws: seq<string>) {
    forall k :: 0 <= k < |ws| ==> BareWord(ws[k])
  }

  lemma BareParses(ws: seq<string>)
    requires ws != [] && BareWords(ws)
    ensures Parse(Join(ws, ' ')) == Singles(ws)
  {
    SplitOfJoin(ws, ' ');
    forall k | 0 <= k < |ws| ensures AlternativesOf(ws[k]) == Singles(ws)[k] {
      BareWordParses(ws[k]);
    }
  }

  lemma SinglesExpand(ws: seq<string>)
    requires BareWords(ws)
    ensures Expansions(Singles(ws)) == [ws]
  {
    var p := Singles(ws);
    BareExpansions(ws, p, |ws|);
    assert p[..|ws|] == p && ws[..|ws|] == ws;
  }

  /** A pattern of bare words stands for exactly these words. */
  lemma BarePattern(ws: seq<string>) returns (p: seq<Alternatives>)
    requires ws != [] && BareWords(ws)
    ensures p == Parse(Join(ws, ' ')) && Expansions(p) == [ws]
  {
    BareParses(ws);
    SinglesExpand(ws);
    p := Singles(ws);
  }

  lemma {:induction false} BareExpansions(ws: seq<string>, p: seq<Alternatives>, n: nat)
    requires |p| == |ws| && n <= |ws| && forall k :: 0 <= k < |ws| ==> ws[k] != "" && p[k] == [ws[k]]
    ensures Expansions(p[..n]) == [ws[..n]]
  {
    if n > 0 {
      BareExpansions(ws, p, n - 1);
      assert p[..n][..n - 1] == p[..n - 1];
      assert Level([ws[..n - 1]], [ws[n - 1]]) == ExtendAll([ws[..n - 1]], ws[n - 1]) by {
        assert [ws[n - 1]][..0] == [];
      }
      assert ws[..n] == ws[..n - 1] + [ws[n - 1]];
    }
  }

  /** Some choice of one alternative a word, the empty ones left out. */
  ghost predicate Matches(p: seq<Alternatives>, e: Path)
    decreases |p|
  {
    if p == [] then e == []
    else exists alt :: alt in p[|p| - 1] && MatchesLast(p, alt, e)
  }

  ghost predicate MatchesLast(p: seq<Alternatives>, alt: string, e: Path)
    requires p != []
    decreases |p|, 0
  {
    if alt == "" then Matches(p[..|p| - 1], e)
    else e != [] && e[|e| - 1] == alt && Matches(p[..|p| - 1], e[..|e| - 1])
  }

  lemma {:induction false} LevelHolds(es: seq<Path>, alts: Alternatives, e: Path)
    ensures e in Level(es, alts) <==> exists alt :: alt in alts && InExtended(es, alt, e)
  {
    if alts != [] {
      var init, last := alts[..|alts| - 1], alts[|alts| - 1];
      LevelHolds(es, init, e);
      ExtendHolds(es, last, e);
      assert forall alt :: alt in alts <==> alt in init || alt == last;
    }
  }

  ghost predicate InExtended(es: seq<Path>, alt: string, e: Path) {
    if alt == "" then e in es else e != [] && e[|e| - 1] == alt && e[..|e| - 1] in es
  }

  lemma ExtendHolds(es: seq<Path>, alt: string, e: Path)
    ensures e in ExtendAll(es, alt) <==> InExtended(es, alt, e)
  {
    var r := ExtendAll(es, alt);
    if e in r {
      var j :| 0 <= j < |r| && r[j] == e;
      assert es[j] in es;
    }
    if InExtended(es, alt, e) {
      var j :| 0 <= j < |es| && es[j] == if alt == "" then e else e[..|e| - 1];
      assert r[j] == e;
    }
  }

  /** The cross product holds exactly the choices. */
  lemma {:induction false} ExpansionsHold(p: seq<Alternatives>, e: Path)
    ensures e in Expansions(p) <==> Matches(p, e)
    decreases |p|
  {
    if p != [] {
      var init := p[..|p| - 1];
      LevelHolds(Expansions(init), p[|p| - 1], e);
      ExpansionsHold(init, e);
      if e != [] {
        ExpansionsHold(init, e[..|e| - 1]);
      }
      forall alt ensures InExtended(Expansions(init), alt, e) <==> MatchesLast(p, alt, e) {
      }
    }
  }

  lemma {:induction false} LevelFirst(es: seq<Path>, alts: Alternatives, j: nat)
    requires alts != [] && j < |es|
    ensures |Level(es, alts)| >= |es| && Level(es, alts)[j] == Extended(es[j], alts[0])
  {
    var init := alts[..|alts| - 1];
    if init == [] {
      assert Level(es, init) + ExtendAll(es, alts[0]) == ExtendAll(es, alts[0]);
    } else {
      LevelFirst(es, init, j);
    }
  }

  /** Distinct expansions were distinct before the last word. */
  lemma DistinctBefore(es: seq<Path>, alts: Alternatives)
    requires alts != [] && Distinct(Level(es, alts))
    ensures Distinct(es)
  {
    forall i, j | 0 <= i < j < |es| ensures es[i] != es[j] {
      LevelFirst(es, alts, i);
      LevelFirst(es, alts, j);
      assert Level(es, alts)[i] != Level(es, alts)[j];
    }
  }
}
