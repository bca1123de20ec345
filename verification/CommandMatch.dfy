/** Matching typed words against the command tree, and executing a command line. */
module CommandMatch {
  import opened Option
  import opened Sequences
  import opened CommandPattern
  import opened CommandTrie

  /** What library calls say of a word: inet_pton, strtod, strtoul, stat. */
  datatype Library = Library(
    isAddress: string -> bool, isPrefix: string -> bool, isRange: string -> bool,
    inRange: (string, string) -> bool, isDouble: string -> bool, isFile: string -> bool)

  // ---------------------------------------------------------------- words and specs

  predicate RangeSpec(lib: Library, spec: string) {
    spec != "" && spec[0] == '<' && lib.isRange(spec)
  }

  predicate DoubleSpec(spec: string) {
    spec == "<[-]ddd.ddd>" || spec == "<[-]d.ddde[+-]dd>"
  }

  predicate FileSpec(spec: string) {
    spec == "<FILENAME>" || spec == "<FILE>"
  }

  /** is_command_match_variable */
  predicate Variable(lib: Library, spec: string, word: string) {
    || (spec == "A.B.C.D" && lib.isAddress(word))
    || (spec == "A.B.C.D/M" && lib.isPrefix(word))
    || (RangeSpec(lib, spec) && lib.inRange(spec, word))
    || (DoubleSpec(spec) && lib.isDouble(word))
    || (FileSpec(spec) && lib.isFile(word))
    || spec == "<LINE>" || spec == "<WORD>" || spec == "<VAR>"
  }

  /** is_command_match_regular */
  predicate Regular(spec: string, word: string) {
    word <= spec
  }

  /** varmatch_pri */
  function Priority(lib: Library, spec: string): int {
    if spec == "A.B.C.D/M" then 6
    else if spec == "A.B.C.D" then 5
    else if RangeSpec(lib, spec) then 4
    else if DoubleSpec(spec) then 3
    else if FileSpec(spec) then 2
    else if spec == "<VAR>" then 1
    else if spec == "<LINE>" then 0
    else -1
  }

  /** A plain keyword, which no typed word matches as a variable. */
  predicate Keyword(spec: string) {
    spec != "" && spec[0] != '<' && spec != "A.B.C.D" && spec != "A.B.C.D/M"
  }

  lemma KeywordIsNoVariable(lib: Library, spec: string, word: string)
    requires Keyword(spec)
    ensures !Variable(lib, spec, word)
  {
    assert spec !in {"<[-]ddd.ddd>", "<[-]d.ddde[+-]dd>", "<FILENAME>", "<FILE>", "<LINE>", "<WORD>", "<VAR>"};
  }

  /** Which test each kind of variable puts to a word. */
  lemma VariableTests(lib: Library, spec: string, word: string)
    ensures Variable(lib, "A.B.C.D", word) <==> lib.isAddress(word)
    ensures Variable(lib, "A.B.C.D/M", word) <==> lib.isPrefix(word)
    ensures spec in {"<[-]ddd.ddd>", "<[-]d.ddde[+-]dd>"} && !lib.isRange(spec) ==>
      (Variable(lib, spec, word) <==> lib.isDouble(word))
    ensures spec in {"<FILENAME>", "<FILE>"} && !lib.isRange(spec) ==> (Variable(lib, spec, word) <==> lib.isFile(word))
    ensures spec in {"<LINE>", "<WORD>", "<VAR>"} ==> Variable(lib, spec, word)
    ensures spec != "" && spec[0] == '<' && lib.isRange(spec) && lib.inRange(spec, word) ==> Variable(lib, spec, word)
    ensures spec != "" && spec[0] == '<' && Variable(lib, spec, word) ==>
      || (lib.isRange(spec) && lib.inRange(spec, word))
      || spec in {"<[-]ddd.ddd>", "<[-]d.ddde[+-]dd>", "<FILENAME>", "<FILE>", "<LINE>", "<WORD>", "<VAR>"}
  {
  }

  /** Prefixes before addresses, then ranges, numbers, files, <VAR>, <LINE>, and anything else last. */
  lemma PrioritiesDescend(lib: Library, range: string, number: string, file: string, other: string)
    requires range != "" && range[0] == '<' && lib.isRange(range)
    requires number in {"<[-]ddd.ddd>", "<[-]d.ddde[+-]dd>"} && !lib.isRange(number)
    requires file in {"<FILENAME>", "<FILE>"} && !lib.isRange(file)
    requires !lib.isRange("<VAR>") && !lib.isRange("<LINE>")
    requires (other == "<WORD>" && !lib.isRange(other)) || Keyword(other)
    ensures Priority(lib, "A.B.C.D/M") > Priority(lib, "A.B.C.D") > Priority(lib, range) > Priority(lib, number)
    ensures Priority(lib, number) > Priority(lib, file) > Priority(lib, "<VAR>") > Priority(lib, "<LINE>")
    ensures Priority(lib, "<LINE>") > Priority(lib, other)
  {
  }

  // ---------------------------------------------------------------- one word

  predicate RegularAt(nodes: seq<Node>, cs: seq<nat>, word: string, k: nat)
    requires InArena(nodes, cs) && k < |cs|
  {
    Regular(nodes[cs[k]].name, word)
  }

  predicate VariableAt(lib: Library, nodes: seq<Node>, cs: seq<nat>, word: string, k: nat)
    requires InArena(nodes, cs) && k < |cs|
  {
    Variable(lib, nodes[cs[k]].name, word)
  }

  /** Only child k matches, and not as a variable. */
  predicate OnlyRegular(lib: Library, nodes: seq<Node>, cs: seq<nat>, word: string, k: nat)
    requires InArena(nodes, cs) && k < |cs|
  {
    && RegularAt(nodes, cs, word, k)
    && forall j :: 0 <= j < |cs| ==> !VariableAt(lib, nodes, cs, word, j) && (RegularAt(nodes, cs, word, j) ==> j == k)
  }

  /** Nothing matches as a keyword, and child k is the first of the variables of highest priority. */
  predicate BestVariable(lib: Library, nodes: seq<Node>, cs: seq<nat>, word: string, k: nat)
    requires InArena(nodes, cs) && k < |cs|
  {
    && VariableAt(lib, nodes, cs, word, k)
    && (forall j :: 0 <= j < |cs| ==> !RegularAt(nodes, cs, word, j))
    && forall j :: 0 <= j < |cs| && VariableAt(lib, nodes, cs, word, j) ==>
         var p, q := Priority(lib, nodes[cs[j]].name), Priority(lib, nodes[cs[k]].name); if j < k then p < q else p <= q
  }

  /** What command_match_unique chooses, in terms of the children alone. */
  ghost predicate UniqueMatch(lib: Library, nodes: seq<Node>, cs: seq<nat>, word: string, r: Option<nat>)
    requires InArena(nodes, cs)
  {
    match r
    case Some(c) => (exists k :: 0 <= k < |cs| && cs[k] == c && Chosen(lib, nodes, cs, word, k))
    case None => (forall k :: 0 <= k < |cs| ==> !Chosen(lib, nodes, cs, word, k))
  }

  predicate Chosen(lib: Library, nodes: seq<Node>, cs: seq<nat>, word: string, k: nat)
    requires InArena(nodes, cs) && k < |cs|
  {
    OnlyRegular(lib, nodes, cs, word, k) || BestVariable(lib, nodes, cs, word, k)
  }

  /** The loop of command_match_unique: counts, the last match, and the best variable. */
  method MatchUnique(lib: Library, nodes: seq<Node>, cs: seq<nat>, word: string) returns (r: Option<nat>)
    requires InArena(nodes, cs)
    ensures UniqueMatch(lib, nodes, cs, word, r)
  {
    var matched: Option<nat>, varMatch: Option<nat> := None, None;
    var matchCount, varCount := 0, 0;
    ghost var m: nat, v: nat := 0, 0;
    for k := 0 to |cs|
      invariant 0 <= varCount <= matchCount
      invariant varCount == 0 <==> forall j :: 0 <= j < k ==> !VariableAt(lib, nodes, cs, word, j)
      invariant matchCount == varCount <==> forall j :: 0 <= j < k ==> !RegularAt(nodes, cs, word, j)
      invariant matched.None? <==> matchCount == 0
      invariant varMatch.None? <==> varCount == 0
      invariant varCount > 0 ==> v < k && varMatch == Some(cs[v]) && VariableAt(lib, nodes, cs, word, v)
      invariant varCount > 0 ==> forall j :: 0 <= j < k && VariableAt(lib, nodes, cs, word, j) ==>
        var p, q := Priority(lib, nodes[cs[j]].name), Priority(lib, nodes[cs[v]].name); if j < v then p < q else p <= q
      invariant matchCount > varCount ==> m < k && RegularAt(nodes, cs, word, m)
      invariant matchCount > varCount == 0 ==> matched == Some(cs[m])
      invariant matchCount - varCount == 1 ==> forall j :: 0 <= j < k && RegularAt(nodes, cs, word, j) ==> j == m
      invariant matchCount - varCount > 1 ==>
        exists i, j :: 0 <= i < j < k && RegularAt(nodes, cs, word, i) && RegularAt(nodes, cs, word, j)
    {
      var spec := nodes[cs[k]].name;
      assert Variable(lib, spec, word) == VariableAt(lib, nodes, cs, word, k);
      assert Regular(spec, word) == RegularAt(nodes, cs, word, k);
      if Variable(lib, spec, word) {
        matched := Some(cs[k]);
        if varMatch.None? || Priority(lib, spec) > Priority(lib, nodes[varMatch.value].name) {
          varMatch := Some(cs[k]);
          v := k;
        }
        varCount := varCount + 1;
        matchCount := matchCount + 1;
      }
      if Regular(spec, word) {
        matched := Some(cs[k]);
        m := k;
        matchCount := matchCount + 1;
      }
    }
    if matched.None? {
      r := None;
    } else if varCount == matchCount {
      r := varMatch;
    } else if matchCount == 1 {
      r := matched;
    } else {
      r := None;
    }
  }

  lemma ChosenIsUnique(lib: Library, nodes: seq<Node>, cs: seq<nat>, word: string, i: nat, j: nat)
    requires InArena(nodes, cs) && i < |cs| && j < |cs|
    requires Chosen(lib, nodes, cs, word, i) && Chosen(lib, nodes, cs, word, j)
    ensures i == j
  {
  }

  /** command_match_unique_exact: the unique match, or else the child of exactly that name. */
  ghost function Selected(lib: Library, nodes: seq<Node>, cs: seq<nat>, word: string): (r: Option<nat>)
    requires InArena(nodes, cs)
    ensures r.Some? ==> r.value in cs && r.value < |nodes|
  {
    if k: nat :| k < |cs| && Chosen(lib, nodes, cs, word, k) then Some(cs[k]) else LastNamed(nodes, cs, word)
  }

  method MatchUniqueExact(lib: Library, nodes: seq<Node>, cs: seq<nat>, word: string) returns (r: Option<nat>)
    requires InArena(nodes, cs)
    ensures r == Selected(lib, nodes, cs, word)
  {
    r := MatchUnique(lib, nodes, cs, word);
    if r.Some? {
      ghost var k :| 0 <= k < |cs| && cs[k] == r.value && Chosen(lib, nodes, cs, word, k);
      ghost var j: nat :| j < |cs| && Chosen(lib, nodes, cs, word, j) && Selected(lib, nodes, cs, word) == Some(cs[j]);
      ChosenIsUnique(lib, nodes, cs, word, j, k);
      return;
    }
    r := MatchExact(nodes, cs, word);
  }

  // ---------------------------------------------------------------- what is selected

  lemma ChildAt(nodes: seq<Node>, paths: seq<Path>, view: View, i: nat, c: nat, word: string) returns (k: nat)
    requires Wf(nodes, paths, view) && i < |nodes| && c < |nodes| && paths[c] == paths[i] + [word]
    ensures InArena(nodes, nodes[i].children) && k < |nodes[i].children| && nodes[i].children[k] == c
    ensures nodes[c].name == word
    ensures Distinct(nodes[i].children)
  {
    NamedIsChild(nodes, paths, view, i, word);
    assert ChildrenOk(nodes, paths, i) && NameOk(nodes, paths, c);
    assert paths[c][..|paths[c]| - 1] == paths[i] && IsChild(paths, i, c);
    k :| 0 <= k < |nodes[i].children| && nodes[i].children[k] == c;
  }

  /** A word typed in full selects its node, whatever else it matches. */
  lemma FullWordSelects(lib: Library, nodes: seq<Node>, paths: seq<Path>, view: View, i: nat, c: nat, word: string)
    requires Wf(nodes, paths, view) && i < |nodes| && c < |nodes| && paths[c] == paths[i] + [word]
    ensures InArena(nodes, nodes[i].children) && Selected(lib, nodes, nodes[i].children, word) == Some(c)
  {
    var cs := nodes[i].children;
    var k := ChildAt(nodes, paths, view, i, c, word);
    NamedIsChild(nodes, paths, view, i, word);
    assert RegularAt(nodes, cs, word, k);
  }

  /** The word is an abbreviation of w, and nothing else known behind `p` matches it. */
  ghost predicate Unambiguous(lib: Library, view: View, p: Path, w: string, word: string) {
    word <= w && forall x: string :: p + [x] in view && x != w ==> !Regular(x, word) && !Variable(lib, x, word)
  }

  lemma KnownSibling(nodes: seq<Node>, paths: seq<Path>, view: View, i: nat, k: nat) returns (p: Path)
    requires Wf(nodes, paths, view) && i < |nodes| && k < |nodes[i].children|
    ensures InArena(nodes, nodes[i].children)
    ensures p == paths[i] + [nodes[nodes[i].children[k]].name] == paths[nodes[i].children[k]] && p in view
  {
    NamedIsChild(nodes, paths, view, i, "");
    var c := nodes[i].children[k];
    assert ChildrenOk(nodes, paths, i) && c in nodes[i].children && NameOk(nodes, paths, c);
    p := paths[c];
    assert p == p[..|p| - 1] + [p[|p| - 1]];
  }

  /** The word abbreviates w alone, and does not stand for it as a variable. */
  ghost predicate Abbreviates(lib: Library, view: View, p: Path, w: string, word: string) {
    Unambiguous(lib, view, p, w, word) && !Variable(lib, w, word)
  }

  /** The word stands for the variable w, abbreviates nothing, and w outranks every other variable it stands for. */
  ghost predicate Fills(lib: Library, view: View, p: Path, w: string, word: string) {
    && Variable(lib, w, word) && !Regular(w, word)
    && forall x: string :: p + [x] in view && x != w ==>
         !Regular(x, word) && (Variable(lib, x, word) ==> Priority(lib, x) < Priority(lib, w))
  }

  /** No other variable the word stands for ranks with w; between equals the order of siblings decides. */
  ghost predicate NoTie(lib: Library, view: View, p: Path, w: string, word: string) {
    Variable(lib, w, word) ==>
      forall x: string :: p + [x] in view && x != w && Variable(lib, x, word) ==> Priority(lib, x) != Priority(lib, w)
  }

  /** Child j, seen from child k: the same name means the same child. */
  lemma SiblingAt(lib: Library, nodes: seq<Node>, paths: seq<Path>, view: View, i: nat, k: nat, word: string, j: nat)
    requires Wf(nodes, paths, view) && i < |nodes| && InArena(nodes, nodes[i].children)
    requires j < |nodes[i].children| && k < |nodes[i].children|
    ensures var x := nodes[nodes[i].children[j]].name;
      && paths[i] + [x] in view && (x == nodes[nodes[i].children[k]].name <==> j == k)
      && (RegularAt(nodes, nodes[i].children, word, j) <==> Regular(x, word))
      && (VariableAt(lib, nodes, nodes[i].children, word, j) <==> Variable(lib, x, word))
  {
    var p := KnownSibling(nodes, paths, view, i, j);
    if nodes[nodes[i].children[j]].name == nodes[nodes[i].children[k]].name {
      SameNameSameChild(nodes, paths, view, i, j, k);
    }
  }

  /** A known sibling is some child. */
  lemma SiblingIsChild(nodes: seq<Node>, paths: seq<Path>, view: View, i: nat, x: string) returns (j: nat)
    requires Wf(nodes, paths, view) && i < |nodes| && paths[i] + [x] in view
    ensures InArena(nodes, nodes[i].children) && j < |nodes[i].children| && nodes[nodes[i].children[j]].name == x
  {
    var c :| 0 <= c < |paths| && paths[c] == paths[i] + [x];
    j := ChildAt(nodes, paths, view, i, c, x);
  }

  lemma AbbreviatesIsOnly(lib: Library, nodes: seq<Node>, paths: seq<Path>, view: View, i: nat, k: nat, word: string)
    requires Wf(nodes, paths, view) && i < |nodes| && k < |nodes[i].children| && InArena(nodes, nodes[i].children)
    ensures OnlyRegular(lib, nodes, nodes[i].children, word, k)
       <==> Abbreviates(lib, view, paths[i], nodes[nodes[i].children[k]].name, word)
  {
    var cs := nodes[i].children;
    var w := nodes[cs[k]].name;
    if Abbreviates(lib, view, paths[i], w, word) {
      forall j | 0 <= j < |cs|
        ensures !VariableAt(lib, nodes, cs, word, j) && (RegularAt(nodes, cs, word, j) ==> j == k)
      {
        SiblingAt(lib, nodes, paths, view, i, k, word, j);
      }
    }
    if OnlyRegular(lib, nodes, cs, word, k) {
      assert !VariableAt(lib, nodes, cs, word, k);
      forall x: string | paths[i] + [x] in view && x != w ensures !Regular(x, word) && !Variable(lib, x, word) {
        var j := SiblingIsChild(nodes, paths, view, i, x);
        SiblingAt(lib, nodes, paths, view, i, k, word, j);
      }
    }
  }

  lemma FillsIsBest(lib: Library, nodes: seq<Node>, paths: seq<Path>, view: View, i: nat, k: nat, word: string)
    requires Wf(nodes, paths, view) && i < |nodes| && k < |nodes[i].children| && InArena(nodes, nodes[i].children)
    requires Fills(lib, view, paths[i], nodes[nodes[i].children[k]].name, word)
    ensures BestVariable(lib, nodes, nodes[i].children, word, k)
  {
    var cs := nodes[i].children;
    assert VariableAt(lib, nodes, cs, word, k);
    forall j | 0 <= j < |cs|
      ensures !RegularAt(nodes, cs, word, j)
      ensures VariableAt(lib, nodes, cs, word, j) && j != k ==>
        Priority(lib, nodes[cs[j]].name) < Priority(lib, nodes[cs[k]].name)
    {
      SiblingAt(lib, nodes, paths, view, i, k, word, j);
    }
  }

  lemma BestFills(lib: Library, nodes: seq<Node>, paths: seq<Path>, view: View, i: nat, k: nat, word: string)
    requires Wf(nodes, paths, view) && i < |nodes| && k < |nodes[i].children| && InArena(nodes, nodes[i].children)
    requires BestVariable(lib, nodes, nodes[i].children, word, k)
    requires NoTie(lib, view, paths[i], nodes[nodes[i].children[k]].name, word)
    ensures Fills(lib, view, paths[i], nodes[nodes[i].children[k]].name, word)
  {
    var cs := nodes[i].children;
    var w := nodes[cs[k]].name;
    assert !RegularAt(nodes, cs, word, k);
    forall x: string | paths[i] + [x] in view && x != w
      ensures !Regular(x, word) && (Variable(lib, x, word) ==> Priority(lib, x) < Priority(lib, w))
    {
      var j := SiblingIsChild(nodes, paths, view, i, x);
      SiblingAt(lib, nodes, paths, view, i, k, word, j);
      assert !RegularAt(nodes, cs, word, j);
    }
  }

  lemma SameNameSameChild(nodes: seq<Node>, paths: seq<Path>, view: View, i: nat, j: nat, k: nat)
    requires Wf(nodes, paths, view) && i < |nodes| && j < |nodes[i].children| && k < |nodes[i].children|
    requires InArena(nodes, nodes[i].children)
    requires nodes[nodes[i].children[j]].name == nodes[nodes[i].children[k]].name
    ensures j == k
  {
    var pj := KnownSibling(nodes, paths, view, i, j);
    var pk := KnownSibling(nodes, paths, view, i, k);
    assert ChildrenOk(nodes, paths, i);
  }

  lemma ChosenSelects(lib: Library, nodes: seq<Node>, cs: seq<nat>, word: string, k: nat)
    requires InArena(nodes, cs) && k < |cs| && Chosen(lib, nodes, cs, word, k)
    ensures Selected(lib, nodes, cs, word) == Some(cs[k])
  {
    var j: nat :| j < |cs| && Chosen(lib, nodes, cs, word, j) && Selected(lib, nodes, cs, word) == Some(cs[j]);
    ChosenIsUnique(lib, nodes, cs, word, j, k);
  }

  /** A word in full, an abbreviation of one keyword, or a value for one variable selects that node. */
  lemma WordSelects(lib: Library, nodes: seq<Node>, paths: seq<Path>, view: View, i: nat, c: nat, w: string,
                    word: string)
    requires Wf(nodes, paths, view) && i < |nodes| && c < |nodes| && paths[c] == paths[i] + [w]
    requires word == w || Abbreviates(lib, view, paths[i], w, word) || Fills(lib, view, paths[i], w, word)
    ensures InArena(nodes, nodes[i].children) && Selected(lib, nodes, nodes[i].children, word) == Some(c)
  {
    var k := ChildAt(nodes, paths, view, i, c, w);
    if word == w {
      FullWordSelects(lib, nodes, paths, view, i, c, w);
    } else {
      AbbreviatesIsOnly(lib, nodes, paths, view, i, k, word);
      if Fills(lib, view, paths[i], w, word) {
        FillsIsBest(lib, nodes, paths, view, i, k, word);
      }
      ChosenSelects(lib, nodes, nodes[i].children, word, k);
    }
  }

  /**
   * Exactly when does a typed word select a node, keyword or variable: it is the node's word, it
   * abbreviates that word alone, or it is a value that the variable takes before all others.
   */
  lemma WordSelectedIff(lib: Library, nodes: seq<Node>, paths: seq<Path>, view: View, i: nat, c: nat, w: string,
                        word: string)
    requires Wf(nodes, paths, view) && i < |nodes| && c < |nodes| && paths[c] == paths[i] + [w]
    requires NoTie(lib, view, paths[i], w, word)
    ensures InArena(nodes, nodes[i].children)
    ensures Selected(lib, nodes, nodes[i].children, word) == Some(c)
       <==> word == w || Abbreviates(lib, view, paths[i], w, word) || Fills(lib, view, paths[i], w, word)
  {
    var cs := nodes[i].children;
    var k := ChildAt(nodes, paths, view, i, c, w);
    AbbreviatesIsOnly(lib, nodes, paths, view, i, k, word);
    if word == w || Abbreviates(lib, view, paths[i], w, word) || Fills(lib, view, paths[i], w, word) {
      WordSelects(lib, nodes, paths, view, i, c, w, word);
    } else if Selected(lib, nodes, cs, word) == Some(c) {
      var j: nat :| j < |cs| && Chosen(lib, nodes, cs, word, j) && Selected(lib, nodes, cs, word) == Some(cs[j]);
      if j == k && BestVariable(lib, nodes, cs, word, k) {
        BestFills(lib, nodes, paths, view, i, k, word);
      }
      assert false;
    }
  }

  /**
   * For a keyword: exactly the keyword itself, or an abbreviation that nothing else known in its
   * place matches.
   */
  lemma KeywordSelectedIff(lib: Library, nodes: seq<Node>, paths: seq<Path>, view: View, i: nat, c: nat, w: string,
                           word: string)
    requires Wf(nodes, paths, view) && i < |nodes| && c < |nodes| && paths[c] == paths[i] + [w] && Keyword(w)
    ensures InArena(nodes, nodes[i].children)
    ensures Selected(lib, nodes, nodes[i].children, word) == Some(c)
       <==> word == w || Unambiguous(lib, view, paths[i], w, word)
  {
    KeywordIsNoVariable(lib, w, word);
    WordSelectedIff(lib, nodes, paths, view, i, c, w, word);
  }

  /** Nothing known behind p is selected by the word: it is no known word, and matches none or several. */
  ghost predicate Unknown(lib: Library, view: View, p: Path, word: string) {
    && p + [word] !in view
    && (forall x: string :: p + [x] in view ==> !Abbreviates(lib, view, p, x, word))
    && ((forall x: string :: p + [x] in view ==> !Regular(x, word)) ==>
          forall x: string :: p + [x] in view ==> !Variable(lib, x, word))
  }

  /** Some child is first among the variables of highest priority. */
  lemma {:induction false} BestExists(lib: Library, nodes: seq<Node>, cs: seq<nat>, word: string, n: nat)
    returns (k: nat)
    requires InArena(nodes, cs) && n <= |cs|
    requires exists j :: 0 <= j < n && VariableAt(lib, nodes, cs, word, j)
    ensures k < n && VariableAt(lib, nodes, cs, word, k)
    ensures forall j :: 0 <= j < n && VariableAt(lib, nodes, cs, word, j) ==>
      var p, q := Priority(lib, nodes[cs[j]].name), Priority(lib, nodes[cs[k]].name); if j < k then p < q else p <= q
  {
    if exists j :: 0 <= j < n - 1 && VariableAt(lib, nodes, cs, word, j) {
      k := BestExists(lib, nodes, cs, word, n - 1);
      if VariableAt(lib, nodes, cs, word, n - 1)
         && Priority(lib, nodes[cs[n - 1]].name) > Priority(lib, nodes[cs[k]].name) {
        k := n - 1;
      }
    } else {
      k := n - 1;
    }
  }

  /** A word selects nothing exactly when it is unknown in its place. */
  lemma NothingSelectedIff(lib: Library, nodes: seq<Node>, paths: seq<Path>, view: View, i: nat, word: string)
    requires Wf(nodes, paths, view) && i < |nodes|
    ensures InArena(nodes, nodes[i].children)
    ensures Selected(lib, nodes, nodes[i].children, word) == None <==> Unknown(lib, view, paths[i], word)
  {
    NamedIsChild(nodes, paths, view, i, word);
    if Selected(lib, nodes, nodes[i].children, word) == None {
      NoneIsUnknown(lib, nodes, paths, view, i, word);
    }
    if Unknown(lib, view, paths[i], word) {
      UnknownIsNone(lib, nodes, paths, view, i, word);
    }
  }

  lemma NoneIsUnknown(lib: Library, nodes: seq<Node>, paths: seq<Path>, view: View, i: nat, word: string)
    requires Wf(nodes, paths, view) && i < |nodes| && InArena(nodes, nodes[i].children)
    requires Selected(lib, nodes, nodes[i].children, word) == None
    ensures Unknown(lib, view, paths[i], word)
  {
    var cs, p := nodes[i].children, paths[i];
    NamedIsChild(nodes, paths, view, i, word);
    forall x: string | p + [x] in view ensures !Abbreviates(lib, view, p, x, word) {
      var k := SiblingIsChild(nodes, paths, view, i, x);
      AbbreviatesIsOnly(lib, nodes, paths, view, i, k, word);
      assert !Chosen(lib, nodes, cs, word, k);
    }
    if forall x: string :: p + [x] in view ==> !Regular(x, word) {
      forall x: string | p + [x] in view ensures !Variable(lib, x, word) {
        var k := SiblingIsChild(nodes, paths, view, i, x);
        SiblingAt(lib, nodes, paths, view, i, k, word, k);
        if VariableAt(lib, nodes, cs, word, k) {
          var b := BestExists(lib, nodes, cs, word, |cs|);
          BestIsChosen(lib, nodes, paths, view, i, word, b);
        }
      }
    }
  }

  lemma BestIsChosen(lib: Library, nodes: seq<Node>, paths: seq<Path>, view: View, i: nat, word: string, b: nat)
    requires Wf(nodes, paths, view) && i < |nodes| && InArena(nodes, nodes[i].children) && b < |nodes[i].children|
    requires VariableAt(lib, nodes, nodes[i].children, word, b)
    requires forall j :: 0 <= j < |nodes[i].children| && VariableAt(lib, nodes, nodes[i].children, word, j) ==>
      var p, q := Priority(lib, nodes[nodes[i].children[j]].name), Priority(lib, nodes[nodes[i].children[b]].name);
      if j < b then p < q else p <= q
    requires forall x: string :: paths[i] + [x] in view ==> !Regular(x, word)
    ensures Chosen(lib, nodes, nodes[i].children, word, b)
  {
    forall j | 0 <= j < |nodes[i].children| ensures !RegularAt(nodes, nodes[i].children, word, j) {
      SiblingAt(lib, nodes, paths, view, i, b, word, j);
    }
  }

  lemma UnknownIsNone(lib: Library, nodes: seq<Node>, paths: seq<Path>, view: View, i: nat, word: string)
    requires Wf(nodes, paths, view) && i < |nodes| && InArena(nodes, nodes[i].children)
    requires Unknown(lib, view, paths[i], word)
    ensures Selected(lib, nodes, nodes[i].children, word) == None
  {
    var cs := nodes[i].children;
    NamedIsChild(nodes, paths, view, i, word);
    forall k | 0 <= k < |cs| ensures !Chosen(lib, nodes, cs, word, k) {
      SiblingAt(lib, nodes, paths, view, i, k, word, k);
      AbbreviatesIsOnly(lib, nodes, paths, view, i, k, word);
      if BestVariable(lib, nodes, cs, word, k) {
        forall x: string | paths[i] + [x] in view ensures !Regular(x, word) {
          var j := SiblingIsChild(nodes, paths, view, i, x);
          SiblingAt(lib, nodes, paths, view, i, k, word, j);
          assert !RegularAt(nodes, cs, word, j);
        }
      }
    }
  }

  // ---------------------------------------------------------------- a command line

  predicate EndsLine(spec: string) {
    spec == "<LINE>" || FileSpec(spec)
  }

  /** strstr */
  function Strstr(s: string, w: string): string {
    if w <= s || s == "" then s else Strstr(s[1..], w)
  }

  /** The node the line led to, if any, and the arguments collected on the way. */
  datatype Found = Found(match_: Option<nat>, argv: seq<string>)

  predicate Arena(nodes: seq<Node>) {
    |nodes| > 0 && forall i :: 0 <= i < |nodes| ==> InArena(nodes, nodes[i].children)
  }

  /** The loop of command_execute, from a node on. */
  ghost function Walk(lib: Library, nodes: seq<Node>, line: string, parent: nat, found: Found,
                      words: seq<string>): (r: Found)
    requires Arena(nodes) && parent < |nodes| && (found.match_.Some? ==> found.match_.value < |nodes|)
    ensures r.match_.Some? ==> r.match_.value < |nodes|
    decreases |words|
  {
    if words == [] || words[0] == "" then found
    else
      match Selected(lib, nodes, nodes[parent].children, words[0])
      case None => Found(None, found.argv)
      case Some(c) =>
        if EndsLine(nodes[c].name) then Found(Some(c), found.argv + [Strstr(line, words[0])])
        else Walk(lib, nodes, line, c, Found(Some(c), found.argv + [words[0]]), words[1..])
  }

  lemma WfArena(nodes: seq<Node>, paths: seq<Path>, view: View)
    requires Wf(nodes, paths, view)
    ensures Arena(nodes)
  {
    forall i | 0 <= i < |nodes| ensures InArena(nodes, nodes[i].children) {
      NamedIsChild(nodes, paths, view, i, "");
    }
  }

  ghost function Executed(lib: Library, nodes: seq<Node>, line: string): Found
    requires Arena(nodes)
  {
    Walk(lib, nodes, line, 0, Found(None, []), Split(line, ' '))
  }

  /** The function the line runs, if any, and its arguments. */
  ghost function Outcome(lib: Library, nodes: seq<Node>, line: string): (Option<Func>, seq<string>)
    requires Arena(nodes)
  {
    var r := Executed(lib, nodes, line);
    (if r.match_.None? then None else nodes[r.match_.value].func, r.argv)
  }

  /** command_execute: the function run and its arguments, or -1. */
  method Execute(lib: Library, set_: CommandSet, line: string) returns (func: Option<Func>, argv: seq<string>)
    requires set_.Valid()
    ensures Arena(set_.nodes)
    ensures (func, argv) == Outcome(lib, set_.nodes, line)
  {
    WfArena(set_.nodes, set_.paths, set_.view);
    var nodes := set_.nodes;
    var rest, parent: nat, matched: Option<nat> := Some(line), 0, None;
    argv := [];
    while rest.Some?
      invariant parent < |nodes| && (matched.Some? ==> matched.value < |nodes|)
      invariant Walk(lib, nodes, line, parent, Found(matched, argv), Tokens(rest, ' ')) == Executed(lib, nodes, line)
      decreases if rest.Some? then |rest.value| + 1 else 0
    {
      var word;
      word, rest := Strsep(rest.value, ' ');
      if word == "" {
        break;
      }
      matched := MatchUniqueExact(lib, nodes, nodes[parent].children, word);
      if matched.None? {
        break;
      }
      if EndsLine(nodes[matched.value].name) {
        argv := argv + [Strstr(line, word)];
        break;
      }
      argv := argv + [word];
      parent := matched.value;
    }
    func := if matched.None? then None else nodes[matched.value].func;
  }

  /** Each typed word is its word in full, an abbreviation of it alone, or a value of it as a variable. */
  ghost predicate Spells(lib: Library, view: View, path: Path, typed: seq<string>) {
    && |typed| == |path|
    && forall k :: 0 <= k < |path| ==> SpellsWord(lib, view, path[..k], path[k], typed[k])
  }

  ghost predicate SpellsWord(lib: Library, view: View, p: Path, w: string, word: string) {
    && word != "" && ' ' !in word && !EndsLine(w)
    && (word == w || Abbreviates(lib, view, p, w, word) || Fills(lib, view, p, w, word))
  }

  /** Every prefix of a known sequence has its node. */
  lemma {:induction false} NodeOf(nodes: seq<Node>, paths: seq<Path>, view: View, path: Path, k: nat) returns (c: nat)
    requires Wf(nodes, paths, view) && path in view && k <= |path|
    ensures c < |nodes| && paths[c] == path[..k]
    decreases |path| - k
  {
    if k == |path| {
      c :| 0 <= c < |paths| && paths[c] == path;
      assert path[..k] == path;
    } else {
      var d := NodeOf(nodes, paths, view, path, k + 1);
      assert NameOk(nodes, paths, d);
      assert path[..k + 1][..k] == path[..k];
      c :| 0 <= c < |paths| && paths[c] == path[..k];
    }
  }

  /** The typed word leads from node i to node c, and does not end the line. */
  ghost predicate StepsTo(lib: Library, nodes: seq<Node>, i: nat, word: string, c: nat) {
    && i < |nodes| && c < |nodes| && InArena(nodes, nodes[i].children)
    && word != "" && Selected(lib, nodes, nodes[i].children, word) == Some(c) && !EndsLine(nodes[c].name)
  }

  /** The first words lead along these nodes. */
  ghost predicate AllStep(lib: Library, nodes: seq<Node>, ids: seq<nat>, typed: seq<string>) {
    |ids| == |typed| + 1 && forall k :: 0 <= k < |typed| ==> StepsTo(lib, nodes, ids[k], typed[k], ids[k + 1])
  }

  /** What is found after so many steps. */
  function FoundAt(ids: seq<nat>, typed: seq<string>, n: nat): Found
    requires n < |ids| && n <= |typed|
  {
    Found(if n == 0 then None else Some(ids[n]), typed[..n])
  }

  lemma WalkStep(lib: Library, nodes: seq<Node>, line: string, words: seq<string>, k: nat, parent: nat, found: Found,
                 c: nat)
    requires Arena(nodes) && (found.match_.Some? ==> found.match_.value < |nodes|)
    requires k < |words| && StepsTo(lib, nodes, parent, words[k], c) && found.argv == words[..k]
    ensures Walk(lib, nodes, line, parent, found, words[k..])
         == Walk(lib, nodes, line, c, Found(Some(c), words[..k + 1]), words[k + 1..])
  {
    assert words[k..][0] == words[k] && words[k..][1..] == words[k + 1..];
    assert words[..k] + [words[k]] == words[..k + 1];
  }

  /** Steps that follow each other lead the walk to their last node, with the other words still to come. */
  lemma {:induction false} WalkAlong(lib: Library, nodes: seq<Node>, line: string, ids: seq<nat>, typed: seq<string>,
                                     words: seq<string>, n: nat)
    requires Arena(nodes) && AllStep(lib, nodes, ids, typed) && ids[0] == 0
    requires n <= |typed| && typed <= words
    ensures ids[n] < |nodes|
    ensures Walk(lib, nodes, line, 0, Found(None, []), words)
         == Walk(lib, nodes, line, ids[n], FoundAt(ids, words, n), words[n..])
  {
    if n == 0 {
      assert words[0..] == words && words[..0] == [];
    } else {
      WalkAlong(lib, nodes, line, ids, typed, words, n - 1);
      assert StepsTo(lib, nodes, ids[n - 1], typed[n - 1], ids[n - 1 + 1]);
      WalkStep(lib, nodes, line, words, n - 1, ids[n - 1], FoundAt(ids, words, n - 1), ids[n]);
    }
  }

  /** The nodes along a known sequence. */
  lemma {:induction false} NodesOf(nodes: seq<Node>, paths: seq<Path>, view: View, path: Path, n: nat)
    returns (ids: seq<nat>)
    requires Wf(nodes, paths, view) && path in view && n <= |path|
    ensures |ids| == n + 1 && forall k :: 0 <= k <= n ==> ids[k] < |nodes| && paths[ids[k]] == path[..k]
  {
    var c := NodeOf(nodes, paths, view, path, n);
    if n == 0 {
      ids := [c];
    } else {
      ids := NodesOf(nodes, paths, view, path, n - 1);
      ids := ids + [c];
    }
  }

  lemma StepSpelled(lib: Library, nodes: seq<Node>, paths: seq<Path>, view: View,
                    path: Path, typed: seq<string>, k: nat, parent: nat, c: nat)
    requires Wf(nodes, paths, view) && Spells(lib, view, path, typed) && k < |path|
    requires parent < |nodes| && paths[parent] == path[..k] && c < |nodes| && paths[c] == path[..k + 1]
    ensures InArena(nodes, nodes[parent].children)
    ensures Selected(lib, nodes, nodes[parent].children, typed[k]) == Some(c) && nodes[c].name == path[k]
    ensures typed[k] != "" && !EndsLine(path[k])
  {
    assert SpellsWord(lib, view, path[..k], path[k], typed[k]);
    assert path[..k + 1] == path[..k] + [path[k]];
    assert NameOk(nodes, paths, c);
    WordSelects(lib, nodes, paths, view, parent, c, path[k], typed[k]);
  }

  /** The typed words that spell a known sequence step along its nodes. */
  lemma SpelledSteps(lib: Library, nodes: seq<Node>, paths: seq<Path>, view: View, path: Path, typed: seq<string>)
    returns (ids: seq<nat>)
    requires Wf(nodes, paths, view) && path in view && Spells(lib, view, path, typed)
    ensures AllStep(lib, nodes, ids, typed) && ids[0] == 0
    ensures ids[|typed|] < |nodes| && paths[ids[|typed|]] == path
  {
    ids := NodesOf(nodes, paths, view, path, |path|);
    forall k | 0 <= k < |typed| ensures StepsTo(lib, nodes, ids[k], typed[k], ids[k + 1]) {
      StepSpelled(lib, nodes, paths, view, path, typed, k, ids[k], ids[k + 1]);
    }
    assert path[..|path|] == path;
  }

  /** Where the walk stands when the words typed so far spell a known sequence. */
  lemma SpelledSoFar(lib: Library, nodes: seq<Node>, paths: seq<Path>, view: View, line: string, path: Path,
                     typed: seq<string>, words: seq<string>) returns (c: nat, found: Found)
    requires Wf(nodes, paths, view) && path in view && Spells(lib, view, path, typed) && typed <= words
    ensures Arena(nodes) && c < |nodes| && paths[c] == path
    ensures found == Found(if path == [] then None else Some(c), typed)
    ensures Walk(lib, nodes, line, 0, Found(None, []), words) == Walk(lib, nodes, line, c, found, words[|typed|..])
  {
    WfArena(nodes, paths, view);
    var ids := SpelledSteps(lib, nodes, paths, view, path, typed);
    WalkAlong(lib, nodes, line, ids, typed, words, |typed|);
    c := ids[|typed|];
    found := FoundAt(ids, words, |typed|);
    assert words[..|typed|] == typed;
  }

  lemma SpelledIsFree(lib: Library, view: View, path: Path, typed: seq<string>)
    requires Spells(lib, view, path, typed)
    ensures Free(typed, ' ')
  {
    forall k | 0 <= k < |typed| ensures ' ' !in typed[k] {
      assert SpellsWord(lib, view, path[..k], path[k], typed[k]);
    }
  }

  /** The function of a known sequence, none for the empty one. */
  function FuncOf(view: View, path: Path): Option<Func>
    requires path in view
  {
    if path == [] then None else view[path]
  }

  /** A line of typed words that spell a known sequence runs that sequence's function on those words. */
  lemma SpelledLineRuns(lib: Library, nodes: seq<Node>, paths: seq<Path>, view: View, path: Path, typed: seq<string>)
    requires Wf(nodes, paths, view) && path in view && path != [] && Spells(lib, view, path, typed)
    ensures Arena(nodes) && Outcome(lib, nodes, Join(typed, ' ')) == (view[path], typed)
  {
    SpelledIsFree(lib, view, path, typed);
    SplitOfJoin(typed, ' ');
    var c, found := SpelledSoFar(lib, nodes, paths, view, Join(typed, ' '), path, typed, typed);
    assert typed[|typed|..] == [];
  }

  /** An empty word, from a second space or one at the end, ends the line: what was spelled before it runs. */
  lemma BlankEndsLine(lib: Library, nodes: seq<Node>, paths: seq<Path>, view: View, path: Path, typed: seq<string>,
                      rest: seq<string>)
    requires Wf(nodes, paths, view) && path in view && Spells(lib, view, path, typed) && Free(rest, ' ')
    ensures Arena(nodes) && Outcome(lib, nodes, Join(typed + [""] + rest, ' ')) == (FuncOf(view, path), typed)
  {
    var words := typed + [""] + rest;
    SpelledIsFree(lib, view, path, typed);
    SplitOfJoin(words, ' ');
    var c, found := SpelledSoFar(lib, nodes, paths, view, Join(words, ' '), path, typed, words);
    assert words[|typed|..][0] == "";
  }

  lemma EmptyLineRunsNothing(lib: Library, nodes: seq<Node>, paths: seq<Path>, view: View)
    requires Wf(nodes, paths, view)
    ensures Arena(nodes) && Outcome(lib, nodes, "") == (None, [])
  {
    assert paths[0] in view;
    BlankEndsLine(lib, nodes, paths, view, [], [], []);
    assert [] + [""] + [] == [""] && Join([""], ' ') == "";
  }

  /** A word unknown in its place stops everything: nothing runs, whatever was spelled before it or follows. */
  lemma UnknownWordRunsNothing(lib: Library, nodes: seq<Node>, paths: seq<Path>, view: View, path: Path,
                               typed: seq<string>, word: string, rest: seq<string>)
    requires Wf(nodes, paths, view) && path in view && Spells(lib, view, path, typed) && Free(rest, ' ')
    requires word != "" && ' ' !in word && Unknown(lib, view, path, word)
    ensures Arena(nodes) && Outcome(lib, nodes, Join(typed + [word] + rest, ' ')) == (None, typed)
  {
    var words := typed + [word] + rest;
    SpelledIsFree(lib, view, path, typed);
    SplitOfJoin(words, ' ');
    var c, found := SpelledSoFar(lib, nodes, paths, view, Join(words, ' '), path, typed, words);
    assert words[|typed|..][0] == word;
    NothingSelectedIff(lib, nodes, paths, view, c, word);
  }

  /** A word that takes the rest of the line ends it: its function runs, the last argument cut from the line. */
  lemma LineWordRuns(lib: Library, nodes: seq<Node>, paths: seq<Path>, view: View, path: Path, typed: seq<string>,
                     w: string, word: string, rest: seq<string>)
    requires Wf(nodes, paths, view) && path in view && Spells(lib, view, path, typed) && Free(rest, ' ')
    requires path + [w] in view && w in {"<LINE>", "<FILE>", "<FILENAME>"} && word != "" && ' ' !in word
    requires word == w || Abbreviates(lib, view, path, w, word) || Fills(lib, view, path, w, word)
    ensures Arena(nodes)
    ensures var line := Join(typed + [word] + rest, ' ');
      Outcome(lib, nodes, line) == (view[path + [w]], typed + [Strstr(line, word)])
  {
    var words := typed + [word] + rest;
    var line := Join(words, ' ');
    SpelledIsFree(lib, view, path, typed);
    SplitOfJoin(words, ' ');
    var c, found := SpelledSoFar(lib, nodes, paths, view, line, path, typed, words);
    assert words[|typed|..][0] == word;
    var d :| 0 <= d < |paths| && paths[d] == path + [w];
    WordSelects(lib, nodes, paths, view, c, d, w, word);
    assert NameOk(nodes, paths, d);
    LineEndsAt(lib, nodes, line, c, found, words[|typed|..], d);
  }

  lemma LineEndsAt(lib: Library, nodes: seq<Node>, line: string, parent: nat, found: Found, words: seq<string>, d: nat)
    requires Arena(nodes) && parent < |nodes| && (found.match_.Some? ==> found.match_.value < |nodes|)
    requires words != [] && words[0] != "" && d < |nodes| && EndsLine(nodes[d].name)
    requires Selected(lib, nodes, nodes[parent].children, words[0]) == Some(d)
    ensures Walk(lib, nodes, line, parent, found, words) == Found(Some(d), found.argv + [Strstr(line, words[0])])
  {
  }

  /** The text from the first occurrence of a word on. */
  lemma {:induction false} StrstrIs(s: string, w: string, i: nat)
    requires i <= |s| && w <= s[i..] && forall j :: 0 <= j < i ==> !(w <= s[j..])
    ensures Strstr(s, w) == s[i..]
  {
    assert s[0..] == s;
    if i > 0 {
      assert !(w <= s[0..]);
      forall j | 0 <= j < i - 1 ensures !(w <= s[1..][j..]) {
        assert s[1..][j..] == s[j + 1..];
      }
      assert s[1..][i - 1..] == s[i..];
      StrstrIs(s[1..], w, i - 1);
    }
  }

  // ---------------------------------------------------------------- runs of installs

  /** An installed command: its parsed pattern and its function. */
  datatype Command = Command(pattern: seq<Alternatives>, func: Func)

  ghost function ViewAfter(cmds: seq<Command>): View {
    if cmds == [] then map[[] := None]
    else Installed(ViewAfter(cmds[..|cmds| - 1]), cmds[|cmds| - 1].pattern, cmds[|cmds| - 1].func)
  }

  /** The function of the last command whose pattern expands to the path. */
  function LastFunc(cmds: seq<Command>, path: Path): Option<Func> {
    if cmds == [] then None
    else
      var last := cmds[|cmds| - 1];
      if path in Expansions(last.pattern) then Some(last.func) else LastFunc(cmds[..|cmds| - 1], path)
  }

  predicate NoneEmpty(cmds: seq<Command>) {
    forall k :: 0 <= k < |cmds| ==> cmds[k].pattern != []
  }

  lemma {:induction false} ViewIsLastFunc(cmds: seq<Command>, path: Path)
    requires NoneEmpty(cmds)
    ensures LastFunc(cmds, path).Some? ==> path in ViewAfter(cmds)
    ensures path in ViewAfter(cmds) ==> ViewAfter(cmds)[path] == LastFunc(cmds, path)
  {
    if cmds != [] {
      ViewIsLastFunc(cmds[..|cmds| - 1], path);
      ExpansionsArePassed(cmds[|cmds| - 1].pattern, path);
    }
  }

  lemma ExpansionsArePassed(p: seq<Alternatives>, path: Path)
    requires p != []
    ensures path in Expansions(p) ==> path in Passed(p)
  {
  }

  /** The pattern's expansions are pairwise distinct. */
  predicate Unrepeated(cmd: Command) {
    Distinct(Expansions(cmd.pattern))
  }

  predicate AllUnrepeated(cmds: seq<Command>) {
    forall k :: 0 <= k < |cmds| ==> Unrepeated(cmds[k])
  }

  lemma ViewAfterNext(cmds: seq<Command>, k: nat)
    requires k < |cmds|
    ensures ViewAfter(cmds[..k + 1]) == Installed(ViewAfter(cmds[..k]), cmds[k].pattern, cmds[k].func)
  {
    assert cmds[..k + 1][..k] == cmds[..k];
  }

  lemma UnrepeatedNext(cmds: seq<Command>, k: nat)
    requires k < |cmds| && AllUnrepeated(cmds[..k])
    ensures Unrepeated(cmds[k]) ==> AllUnrepeated(cmds[..k + 1])
    ensures !Unrepeated(cmds[k]) ==> !AllUnrepeated(cmds)
  {
    var next := cmds[..k + 1];
    if Unrepeated(cmds[k]) {
      forall j | 0 <= j < |next| ensures Unrepeated(next[j]) {
        assert j < k ==> Unrepeated(cmds[..k][j]);
      }
    }
  }

  /** The commands are those the texts spell. */
  predicate Parsed(texts: seq<string>, cmds: seq<Command>) {
    |texts| == |cmds| && forall k :: 0 <= k < |cmds| ==> ParsedAs(texts[k], cmds[k])
  }

  predicate ParsedAs(text: string, cmd: Command) {
    cmd.pattern == Parse(text)
  }

  method InstallNext(set_: CommandSet, text: string, cmds: seq<Command>, k: nat) returns (ok: bool)
    requires k < |cmds| && ParsedAs(text, cmds[k])
    requires set_.Valid() && set_.view == ViewAfter(cmds[..k]) && AllUnrepeated(cmds[..k])
    modifies set_
    ensures !ok ==> !AllUnrepeated(cmds)
    ensures ok ==> set_.Valid() && set_.view == ViewAfter(cmds[..k + 1]) && AllUnrepeated(cmds[..k + 1])
  {
    ViewAfterNext(cmds, k);
    UnrepeatedNext(cmds, k);
    ok := set_.Install(text, cmds[k].func);
  }

  /** Installing one command after the other aborts exactly when one of them repeats an expansion. */
  method InstallAll(set_: CommandSet, texts: seq<string>, cmds: seq<Command>) returns (ok: bool)
    requires set_.Valid() && set_.view == ViewAfter([]) && Parsed(texts, cmds)
    modifies set_
    ensures ok <==> AllUnrepeated(cmds)
    ensures ok ==> set_.Valid() && set_.view == ViewAfter(cmds)
  {
    assert cmds[..0] == [];
    for k := 0 to |cmds|
      invariant set_.Valid() && set_.view == ViewAfter(cmds[..k]) && AllUnrepeated(cmds[..k])
    {
      ok := InstallNext(set_, texts[k], cmds, k);
      if !ok {
        return;
      }
    }
    assert cmds[..|cmds|] == cmds;
    ok := true;
  }

  /** After any installs, a line that spells an expansion runs the last function installed for it. */
  lemma LastInstalledRuns(lib: Library, nodes: seq<Node>, paths: seq<Path>, cmds: seq<Command>, path: Path,
                          typed: seq<string>)
    requires NoneEmpty(cmds) && Wf(nodes, paths, ViewAfter(cmds))
    requires path != [] && Spells(lib, ViewAfter(cmds), path, typed) && LastFunc(cmds, path).Some?
    ensures Arena(nodes) && Outcome(lib, nodes, Join(typed, ' ')) == (LastFunc(cmds, path), typed)
  {
    ViewIsLastFunc(cmds, path);
    SpelledLineRuns(lib, nodes, paths, ViewAfter(cmds), path, typed);
  }

  lemma {:induction false} ExpansionWord(p: seq<Alternatives>, e: Path, k: nat) returns (j: nat)
    requires e in Expansions(p) && k < |e|
    ensures j < |p| && e[k] in p[j] && e[k] != ""
    decreases |p|
  {
    var init, last := p[..|p| - 1], p[|p| - 1];
    var alt, e' := LastChoice(Expansions(init), last, e);
    if alt != "" && k == |e| - 1 {
      j := |p| - 1;
    } else {
      j := ExpansionWord(init, e', k);
    }
  }

  /** The last word's choice in an expansion, and the expansion before it. */
  lemma LastChoice(es: seq<Path>, alts: Alternatives, e: Path) returns (alt: string, e': Path)
    requires e in Level(es, alts)
    ensures alt in alts && e' in es && e == Extended(e', alt)
  {
    LevelHolds(es, alts, e);
    alt :| alt in alts && InExtended(es, alt, e);
    e' := if alt == "" then e else e[..|e| - 1];
  }

  lemma AlternativesAreWords(text: string, j: nat, alt: string)
    requires j < |Parse(text)| && alt in Parse(text)[j]
    ensures ' ' !in alt
  {
    var word := Split(text, ' ')[j];
    SplitIsFree(text, ' ');
    SplitKeepsFree(Inner(word), '|', ' ');
  }

  lemma {:induction false} InstalledBy(cmds: seq<Command>, path: Path) returns (k: nat)
    requires LastFunc(cmds, path).Some?
    ensures k < |cmds| && path in Expansions(cmds[k].pattern) && LastFunc(cmds, path) == Some(cmds[k].func)
    ensures forall j :: k < j < |cmds| ==> path !in Expansions(cmds[j].pattern)
  {
    var last := |cmds| - 1;
    if path in Expansions(cmds[last].pattern) {
      k := last;
    } else {
      var init := cmds[..last];
      k := InstalledBy(init, path);
      assert forall j :: 0 <= j < last ==> init[j] == cmds[j];
    }
  }

  lemma FullWordSpells(lib: Library, view: View, text: string, cmd: Command, path: Path, k: nat)
    requires ParsedAs(text, cmd) && path in Expansions(cmd.pattern) && k < |path| && !EndsLine(path[k])
    ensures SpellsWord(lib, view, path[..k], path[k], path[k])
  {
    var j := ExpansionWord(cmd.pattern, path, k);
    AlternativesAreWords(text, j, path[k]);
  }

  /** So does any installed expansion typed in full, unless a word of it takes the rest of the line. */
  lemma TypedInFullRuns(lib: Library, nodes: seq<Node>, paths: seq<Path>, texts: seq<string>, cmds: seq<Command>,
                        path: Path)
    requires Parsed(texts, cmds) && Wf(nodes, paths, ViewAfter(cmds))
    requires path != [] && LastFunc(cmds, path).Some? && forall k :: 0 <= k < |path| ==> !EndsLine(path[k])
    ensures Arena(nodes) && Outcome(lib, nodes, Join(path, ' ')) == (LastFunc(cmds, path), path)
  {
    var i := InstalledBy(cmds, path);
    assert ParsedAs(texts[i], cmds[i]);
    forall k | 0 <= k < |path| ensures SpellsWord(lib, ViewAfter(cmds), path[..k], path[k], path[k]) {
      FullWordSpells(lib, ViewAfter(cmds), texts[i], cmds[i], path, k);
    }
    ParsedIsNonEmpty(texts, cmds);
    LastInstalledRuns(lib, nodes, paths, cmds, path, path);
  }

  lemma ParsedIsNonEmpty(texts: seq<string>, cmds: seq<Command>)
    requires Parsed(texts, cmds)
    ensures NoneEmpty(cmds)
  {
    forall k | 0 <= k < |cmds| ensures cmds[k].pattern != [] {
      assert ParsedAs(texts[k], cmds[k]);
    }
  }

  /** The path is on the way to one of the command's expansions. */
  ghost predicate Leads(cmd: Command, path: Path) {
    exists e :: e in Expansions(cmd.pattern) && IsPrefix(path, e)
  }

  predicate AllProper(cmds: seq<Command>) {
    forall k :: 0 <= k < |cmds| ==> AllNonEmpty(cmds[k].pattern)
  }

  lemma KnownNext(view: View, cmd: Command, path: Path)
    requires AllNonEmpty(cmd.pattern)
    ensures path in Installed(view, cmd.pattern, cmd.func) <==> path in view || Leads(cmd, path)
  {
    PassedArePrefixes(cmd.pattern, path);
  }

  /** After any installs the known sequences are the prefixes of the expansions of the commands. */
  lemma {:induction false} KnownIff(cmds: seq<Command>, path: Path)
    requires AllProper(cmds)
    ensures path in ViewAfter(cmds) <==> path == [] || exists k :: 0 <= k < |cmds| && Leads(cmds[k], path)
  {
    if cmds != [] {
      var n := |cmds| - 1;
      var init := cmds[..n];
      KnownIff(init, path);
      KnownNext(ViewAfter(init), cmds[n], path);
      if exists k :: 0 <= k < |cmds| && Leads(cmds[k], path) {
        var k :| 0 <= k < |cmds| && Leads(cmds[k], path);
        assert k < n ==> Leads(init[k], path);
      }
      if exists k :: 0 <= k < n && Leads(init[k], path) {
        var k :| 0 <= k < n && Leads(init[k], path);
        assert Leads(cmds[k], path);
      }
    }
  }

  /** A command of bare words runs the function it was last installed with. */
  lemma BareCommandRuns(cmds: seq<Command>, ws: seq<string>, f: Func) returns (cmd: Command)
    requires ws != [] && BareWords(ws)
    ensures ParsedAs(Join(ws, ' '), cmd) && cmd.func == f && Unrepeated(cmd)
    ensures LastFunc(cmds + [cmd], ws) == Some(f)
  {
    var p := BarePattern(ws);
    cmd := Command(p, f);
    assert (cmds + [cmd])[|cmds|] == cmd;
  }
}
