/** The command tree: nodes in an arena, and installing a pattern as a cross product of its words. */
module CommandTrie {
  import opened Option
  import opened Sequences
  import opened CommandPattern

  type Func = nat

  datatype Node = Node(name: string, func: Option<Func>, children: seq<nat>)

  /** What the tree stands for: the known word sequences and the function of each. */
  type View = map<Path, Option<Func>>

  predicate IsChild(paths: seq<Path>, i: nat, c: nat)
    requires i < |paths|
  {
    c < |paths| && paths[c] != [] && paths[c][..|paths[c]| - 1] == paths[i]
  }

  /** The children of node i are the nodes one word further, each once, in any order. */
  ghost predicate ChildrenOk(nodes: seq<Node>, paths: seq<Path>, i: nat)
    requires i < |nodes| == |paths|
  {
    Distinct(nodes[i].children) && forall c: nat :: c in nodes[i].children <==> IsChild(paths, i, c)
  }

  predicate NameOk(nodes: seq<Node>, paths: seq<Path>, i: nat)
    requires i < |nodes| == |paths|
  {
    paths[i] != [] ==> nodes[i].name == paths[i][|paths[i]| - 1] && paths[i][..|paths[i]| - 1] in paths
  }

  ghost predicate ViewOk(nodes: seq<Node>, paths: seq<Path>, view: View)
    requires |nodes| == |paths|
  {
    && (forall i :: 0 <= i < |paths| ==> paths[i] in view && view[paths[i]] == nodes[i].func)
    && (forall p :: p in view ==> p in paths)
  }

  /** `paths` gives the word sequence of each node. */
  ghost predicate Wf(nodes: seq<Node>, paths: seq<Path>, view: View) {
    && |nodes| == |paths| > 0 && paths[0] == [] && Distinct(paths) && ViewOk(nodes, paths, view)
    && forall i :: 0 <= i < |nodes| ==> ChildrenOk(nodes, paths, i) && NameOk(nodes, paths, i)
  }

  predicate InArena(nodes: seq<Node>, cs: seq<nat>) {
    forall k :: 0 <= k < |cs| ==> cs[k] < |nodes|
  }

  /** The last child of that name. */
  function LastNamed(nodes: seq<Node>, cs: seq<nat>, word: string): (r: Option<nat>)
    requires InArena(nodes, cs)
    ensures r.Some? ==> r.value in cs && r.value < |nodes| && nodes[r.value].name == word
    ensures r.None? ==> forall k :: 0 <= k < |cs| ==> nodes[cs[k]].name != word
  {
    if cs == [] then None
    else if nodes[cs[|cs| - 1]].name == word then Some(cs[|cs| - 1])
    else LastNamed(nodes, cs[..|cs| - 1], word)
  }

  /** The loop of command_match_exact. */
  method MatchExact(nodes: seq<Node>, cs: seq<nat>, word: string) returns (m: Option<nat>)
    requires InArena(nodes, cs)
    ensures m == LastNamed(nodes, cs, word)
  {
    m := None;
    for k := 0 to |cs|
      invariant InArena(nodes, cs[..k]) && m == LastNamed(nodes, cs[..k], word)
    {
      assert cs[..k + 1][..k] == cs[..k];
      if nodes[cs[k]].name == word {
        m := Some(cs[k]);
      }
    }
    assert cs[..|cs|] == cs;
  }

  /** The child of that name is the node one word further, whatever the order of the children. */
  lemma NamedIsChild(nodes: seq<Node>, paths: seq<Path>, view: View, i: nat, word: string)
    requires Wf(nodes, paths, view) && i < |nodes|
    ensures InArena(nodes, nodes[i].children)
    ensures var r := LastNamed(nodes, nodes[i].children, word);
      if r.Some? then r.value < |paths| && paths[r.value] == paths[i] + [word] else paths[i] + [word] !in paths
  {
    assert ChildrenOk(nodes, paths, i);
    forall k | 0 <= k < |nodes[i].children| ensures nodes[i].children[k] < |nodes| {
      assert nodes[i].children[k] in nodes[i].children;
    }
    var r := LastNamed(nodes, nodes[i].children, word);
    if r.Some? {
      var c := r.value;
      assert NameOk(nodes, paths, c);
      assert paths[c] == paths[c][..|paths[c]| - 1] + [paths[c][|paths[c]| - 1]];
    } else if paths[i] + [word] in paths {
      var c :| 0 <= c < |paths| && paths[c] == paths[i] + [word];
      assert NameOk(nodes, paths, c) && IsChild(paths, i, c);
      assert false;
    }
  }

  // ---------------------------------------------------------------- one more node

  /** The node appended, and its parent's children with it in some order. */
  function WithChild(nodes: seq<Node>, i: nat, name: string, children: seq<nat>): seq<Node>
    requires i < |nodes|
  {
    nodes[i := nodes[i].(children := children)] + [Node(name, None, [])]
  }

  /** The new node has no children. */
  lemma NewIsLeaf(nodes: seq<Node>, paths: seq<Path>, view: View, p: Path, c: nat)
    requires Wf(nodes, paths, view) && p !in paths && p != []
    ensures !IsChild(paths + [p], |paths|, c)
  {
    if c < |nodes| {
      assert NameOk(nodes, paths, c);
    }
  }

  /** An old node gets the new one as a child exactly when it is the parent. */
  lemma OldChildren(nodes: seq<Node>, paths: seq<Path>, view: View, i: nat, p: Path, k: nat, c: nat)
    requires Wf(nodes, paths, view) && i < |nodes| && k < |nodes| && p != [] && p[..|p| - 1] == paths[i]
    ensures IsChild(paths + [p], k, c) <==> IsChild(paths, k, c) || (c == |nodes| && k == i)
  {
    if c == |nodes| && k != i {
      assert paths[k] != paths[i];
    }
  }

  lemma AddKeepsChildren(nodes: seq<Node>, paths: seq<Path>, view: View, i: nat, name: string, children: seq<nat>,
                         k: nat)
    requires Wf(nodes, paths, view) && i < |nodes| && paths[i] + [name] !in paths && k <= |nodes|
    requires Distinct(children) && forall c :: c in children <==> c in nodes[i].children || c == |nodes|
    ensures var nodes', paths' := WithChild(nodes, i, name, children), paths + [paths[i] + [name]];
      ChildrenOk(nodes', paths', k) && NameOk(nodes', paths', k)
  {
    var p := paths[i] + [name];
    assert p[..|p| - 1] == paths[i];
    assert paths[i] in paths + [p];
    if k < |nodes| {
      assert ChildrenOk(nodes, paths, k) && NameOk(nodes, paths, k);
      forall c: nat ensures IsChild(paths + [p], k, c) <==> IsChild(paths, k, c) || (c == |nodes| && k == i) {
        OldChildren(nodes, paths, view, i, p, k, c);
      }
    } else {
      forall c: nat ensures !IsChild(paths + [p], k, c) {
        NewIsLeaf(nodes, paths, view, p, c);
      }
    }
  }

  lemma AddKeepsWf(nodes: seq<Node>, paths: seq<Path>, view: View, i: nat, name: string, children: seq<nat>)
    requires Wf(nodes, paths, view) && i < |nodes| && paths[i] + [name] !in paths
    requires Distinct(children) && forall c :: c in children <==> c in nodes[i].children || c == |nodes|
    ensures Wf(WithChild(nodes, i, name, children), paths + [paths[i] + [name]], view[paths[i] + [name] := None])
  {
    var nodes', paths' := WithChild(nodes, i, name, children), paths + [paths[i] + [name]];
    forall k | 0 <= k < |nodes'| ensures ChildrenOk(nodes', paths', k) && NameOk(nodes', paths', k) {
      AddKeepsChildren(nodes, paths, view, i, name, children, k);
    }
  }

  lemma SetKeepsWf(nodes: seq<Node>, paths: seq<Path>, view: View, i: nat, f: Func)
    requires Wf(nodes, paths, view) && i < |nodes|
    ensures Wf(nodes[i := nodes[i].(func := Some(f))], paths, view[paths[i] := Some(f)])
  {
    var nodes' := nodes[i := nodes[i].(func := Some(f))];
    forall k | 0 <= k < |nodes'| ensures ChildrenOk(nodes', paths, k) && NameOk(nodes', paths, k) {
      assert ChildrenOk(nodes, paths, k) && NameOk(nodes, paths, k);
    }
  }

  // ---------------------------------------------------------------- what an install does

  /** The sequences become known; a new one has no function yet. */
  ghost function Touched(view: View, s: set<Path>): View {
    map e | e in view.Keys + s :: if e in view then view[e] else None
  }

  ghost function Elements(es: seq<Path>): set<Path> {
    set e | e in es
  }

  /** The sequences an install passes on its way. */
  ghost function Passed(p: seq<Alternatives>): set<Path> {
    if p == [] then {[]} else Passed(p[..|p| - 1]) + Elements(Expansions(p))
  }

  /** Every expansion runs f; sequences passed on the way become known; the rest stays. */
  ghost function Installed(view: View, p: seq<Alternatives>, f: Func): View {
    map e | e in view.Keys + Passed(p) ::
      if e in Expansions(p) then Some(f) else if e in view then view[e] else None
  }

  predicate IsPrefix(a: Path, b: Path) {
    a <= b
  }

  predicate AllNonEmpty(p: seq<Alternatives>) {
    forall k :: 0 <= k < |p| ==> p[k] != []
  }

  /** What an install passes are exactly the prefixes of the expansions. */
  lemma {:induction false} PassedArePrefixes(p: seq<Alternatives>, a: Path)
    requires AllNonEmpty(p)
    ensures a in Passed(p) <==> exists e :: e in Expansions(p) && IsPrefix(a, e)
    decreases |p|
  {
    if p == [] {
      assert [] in Expansions(p);
      assert a == [] ==> IsPrefix(a, []);
    } else {
      var init, last := p[..|p| - 1], p[|p| - 1];
      PassedArePrefixes(init, a);
      if a in Passed(init) {
        var e :| e in Expansions(init) && IsPrefix(a, e);
        SomeExtension(Expansions(init), last, e);
      } else if a in Expansions(p) {
        assert IsPrefix(a, a);
      }
      forall e | e in Expansions(p) && IsPrefix(a, e) ensures a in Passed(p) {
        LevelHolds(Expansions(init), last, e);
        if a != e {
          PrefixOfInit(Expansions(init), last, e, a);
        }
      }
    }
  }

  lemma SomeExtension(es: seq<Path>, alts: Alternatives, e: Path)
    requires e in es && alts != []
    ensures Extended(e, alts[0]) in Level(es, alts) && IsPrefix(e, Extended(e, alts[0]))
  {
    var j :| 0 <= j < |es| && es[j] == e;
    LevelFirst(es, alts, j);
  }

  lemma PrefixOfInit(es: seq<Path>, alts: Alternatives, e: Path, a: Path)
    requires exists alt :: alt in alts && InExtended(es, alt, e)
    requires IsPrefix(a, e) && a != e
    ensures exists e' :: e' in es && IsPrefix(a, e')
  {
    var alt :| alt in alts && InExtended(es, alt, e);
    if alt == "" {
      assert IsPrefix(a, e);
    } else {
      assert a == e[..|e| - 1][..|a|];
      assert IsPrefix(a, e[..|e| - 1]);
    }
  }

  // ---------------------------------------------------------------- the command set

  ghost function PathsOf(paths: seq<Path>, ids: seq<nat>): (r: seq<Path>)
    requires forall k :: 0 <= k < |ids| ==> ids[k] < |paths|
    ensures |r| == |ids| && forall k :: 0 <= k < |ids| ==> r[k] == paths[ids[k]]
  {
    seq(|ids|, k requires 0 <= k < |ids| => paths[ids[k]])
  }

  /** Distinct nodes are those of distinct sequences. */
  lemma DistinctNodes(paths: seq<Path>, ids: seq<nat>, id: nat)
    requires Distinct(paths) && id < |paths| && (forall k :: 0 <= k < |ids| ==> ids[k] < |paths|)
    requires Distinct(PathsOf(paths, ids))
    ensures id in ids <==> paths[id] in PathsOf(paths, ids)
    ensures Distinct(PathsOf(paths, ids + [id])) <==> id !in ids
  {
    var ps := PathsOf(paths, ids);
    var qs := PathsOf(paths, ids + [id]);
    assert qs == ps + [paths[id]];
    if id in ids {
      var k :| 0 <= k < |ids| && ids[k] == id;
      assert ps[k] == paths[id];
      assert qs[k] == qs[|ids|];
    }
    if paths[id] in ps {
      var k :| 0 <= k < |ps| && ps[k] == paths[id];
      assert ids[k] == id;
    }
  }

  class CommandSet {
    var nodes: seq<Node>
    ghost var paths: seq<Path>
    ghost var view: View

    ghost predicate Valid()
      reads this
    {
      Wf(nodes, paths, view)
    }

    /** The nodes listed stand for the word sequences listed. */
    ghost predicate At(ids: seq<nat>, es: seq<Path>)
      reads this
    {
      (forall k :: 0 <= k < |ids| ==> ids[k] < |paths|) && PathsOf(paths, ids) == es
    }

    /** Only new nodes were added, for the given word sequences. */
    twostate predicate Grown(s: set<Path>)
      reads this
    {
      Valid() && old(paths) <= paths && view == Touched(old(view), s)
    }

    constructor ()
      ensures Valid() && view == map[[] := None]
    {
      nodes, paths, view := [Node("", None, [])], [[]], map[[] := None];
    }

    /** vector_sort: the comparison looks at the wrong pointer level, so any order may come out. */
    method Sort(cs: seq<nat>) returns (r: seq<nat>)
      ensures multiset(r) == multiset(cs)
    {
      r :| multiset(r) == multiset(cs);
    }

    /** A new node below the parent. */
    method AddChild(parent: nat, name: string) returns (node: nat)
      requires Valid() && parent < |nodes| && paths[parent] + [name] !in paths
      modifies this
      ensures Grown({old(paths[parent]) + [name]}) && node < |paths| && paths[node] == old(paths[parent]) + [name]
    {
      node := |nodes|;
      ghost var p := paths[parent] + [name];
      ChildrenAreOld(nodes, paths, view, parent);
      var children := Sort(nodes[parent].children + [node]);
      SortedChildren(nodes[parent].children, node, children);
      AddKeepsWf(nodes, paths, view, parent, name, children);
      assert p !in view;
      nodes := nodes[parent := nodes[parent].(children := children)] + [Node(name, None, [])];
      paths := paths + [p];
      view := view[p := None];
    }

    lemma ChildrenAreOld(nodes: seq<Node>, paths: seq<Path>, view: View, i: nat)
      requires Wf(nodes, paths, view) && i < |nodes|
      ensures Distinct(nodes[i].children) && |nodes| !in nodes[i].children
    {
      assert ChildrenOk(nodes, paths, i);
    }

    lemma SortedChildren(before: seq<nat>, node: nat, children: seq<nat>)
      requires Distinct(before) && node !in before && multiset(children) == multiset(before + [node])
      ensures Distinct(children) && forall c :: c in children <==> c in before || c == node
    {
      forall c ensures c in children <==> c in before || c == node {
        assert c in children <==> c in multiset(children);
        assert c in before + [node] <==> c in multiset(before + [node]);
      }
      DistinctIsSingle(before + [node]);
      SingleIsDistinct(children);
    }

    /** The node an alternative leads to: the parent itself for an empty one. */
    method Descend(parent: nat, sub: string) returns (node: nat)
      requires Valid() && parent < |nodes|
      modifies this
      ensures Grown({Extended(old(paths[parent]), sub)})
      ensures node < |paths| && paths[node] == Extended(old(paths[parent]), sub)
    {
      ghost var e := Extended(paths[parent], sub);
      if sub == "" {
        TouchedKnown(view, e);
        return parent;
      }
      NamedIsChild(nodes, paths, view, parent, sub);
      var m := MatchExact(nodes, nodes[parent].children, sub);
      if m.Some? {
        node := m.value;
        TouchedKnown(view, e);
      } else {
        node := AddChild(parent, sub);
      }
    }

    lemma TouchedKnown(view: View, e: Path)
      requires e in view
      ensures Touched(view, {e}) == view
    {
    }

    /** One alternative below one parent; false where vector_add meets a node it already holds. */
    method AddOne(parent: nat, sub: string, next0: seq<nat>, ghost fs: seq<Path>) returns (next: seq<nat>, ok: bool)
      requires Valid() && parent < |nodes| && At(next0, fs) && Distinct(fs)
      modifies this
      ensures Grown({Extended(old(paths[parent]), sub)})
      ensures ok <==> Distinct(fs + [Extended(old(paths[parent]), sub)])
      ensures ok ==> At(next, fs + [Extended(old(paths[parent]), sub)])
    {
      ghost var e := Extended(paths[parent], sub);
      var node := Descend(parent, sub);
      assert PathsOf(paths, next0) == fs;
      DistinctNodes(paths, next0, node);
      assert PathsOf(paths, next0 + [node]) == fs + [e];
      ok := node !in next0;
      next := next0 + [node];
    }

    /** One alternative below parent k. */
    method AddAt(parents: seq<nat>, sub: string, next0: seq<nat>, k: nat, ghost es: seq<Path>, ghost fs: seq<Path>)
      returns (next: seq<nat>, ok: bool)
      requires Valid() && At(parents, es) && k < |parents|
      requires var ext := ExtendAll(es, sub); At(next0, fs + ext[..k]) && Distinct(fs + ext[..k])
      modifies this
      ensures var ext := ExtendAll(es, sub);
        && Grown({ext[k]}) && At(parents, es) && (!ok ==> !Distinct(fs + ext))
        && (ok ==> At(next, fs + ext[..k + 1]) && Distinct(fs + ext[..k + 1]))
    {
      ghost var ext := ExtendAll(es, sub);
      assert es[k] == paths[parents[k]];
      PrefixNext(fs, ext, k);
      next, ok := AddOne(parents[k], sub, next0, fs + ext[..k]);
      assert PathsOf(paths, parents) == es;
    }

    /** One alternative below every parent. */
    method AddAlternative(parents: seq<nat>, sub: string, next0: seq<nat>, ghost es: seq<Path>, ghost fs: seq<Path>)
      returns (next: seq<nat>, ok: bool)
      requires Valid() && At(parents, es) && At(next0, fs) && Distinct(fs)
      modifies this
      ensures ok <==> Distinct(fs + ExtendAll(es, sub))
      ensures ok ==> Grown(Elements(ExtendAll(es, sub))) && At(next, fs + ExtendAll(es, sub))
    {
      next, ok := next0, true;
      ghost var ext := ExtendAll(es, sub);
      StartPrefix(view, fs, ext);
      for k := 0 to |parents|
        invariant Grown(Elements(ext[..k])) && At(parents, es) && At(next, fs + ext[..k]) && Distinct(fs + ext[..k])
      {
        next, ok := AddAt(parents, sub, next, k, es, fs);
        if !ok {
          return;
        }
        TouchedNext(old(view), ext, k);
      }
      assert ext[..|ext|] == ext;
    }

    lemma StartPrefix(view: View, fs: seq<Path>, ext: seq<Path>)
      ensures Touched(view, Elements(ext[..0])) == view && fs + ext[..0] == fs
    {
    }

    lemma PrefixNext(fs: seq<Path>, ext: seq<Path>, k: nat)
      requires k < |ext|
      ensures (fs + ext[..k]) + [ext[k]] == fs + ext[..k + 1]
      ensures Distinct(fs + ext) ==> Distinct(fs + ext[..k + 1])
    {
      DistinctPrefix(fs + ext, fs + ext[..k + 1]);
    }

    lemma TouchedNext(view: View, ext: seq<Path>, k: nat)
      requires k < |ext|
      ensures Touched(Touched(view, Elements(ext[..k])), {ext[k]}) == Touched(view, Elements(ext[..k + 1]))
    {
      assert Elements(ext[..k + 1]) == Elements(ext[..k]) + {ext[k]};
      TouchedTwice(view, Elements(ext[..k]), {ext[k]});
    }

    lemma TouchedTwice(view: View, s: set<Path>, t: set<Path>)
      ensures Touched(Touched(view, s), t) == Touched(view, s + t)
    {
    }

    lemma DistinctPrefix(s: seq<Path>, t: seq<Path>)
      requires t <= s
      ensures Distinct(s) ==> Distinct(t)
    {
    }

    /** Alternative k of a word below every parent. */
    method AddLevel(parents: seq<nat>, sub: string, next0: seq<nat>, ghost es: seq<Path>, ghost alts: Alternatives,
                    ghost k: nat)
      returns (next: seq<nat>, ok: bool)
      requires k < |alts| && sub == alts[k] && Valid() && At(parents, es)
      requires At(next0, Level(es, alts[..k])) && Distinct(Level(es, alts[..k]))
      modifies this
      ensures !ok ==> !Distinct(Level(es, alts))
      ensures ok ==>
        && Grown(Elements(ExtendAll(es, alts[k]))) && At(parents, es)
        && At(next, Level(es, alts[..k + 1])) && Distinct(Level(es, alts[..k + 1]))
    {
      LevelNext(es, alts, k);
      next, ok := AddAlternative(parents, sub, next0, es, Level(es, alts[..k]));
      assert ok ==> PathsOf(paths, parents) == es;
    }

    /** One word of a pattern: every alternative below every parent. */
    method AddWord(parents: seq<nat>, inner: string, ghost es: seq<Path>) returns (next: seq<nat>, ok: bool)
      requires Valid() && At(parents, es)
      modifies this
      ensures var alts := Split(inner, '|');
        && (ok <==> Distinct(Level(es, alts)))
        && (ok ==> Grown(Elements(Level(es, alts))) && At(next, Level(es, alts)))
    {
      next, ok := [], true;
      ghost var alts, k := Split(inner, '|'), 0;
      var bars := Some(inner);
      StartPrefix(view, [], []);
      while bars.Some?
        invariant k <= |alts| && Tokens(bars, '|') == alts[k..]
        invariant Grown(Elements(Level(es, alts[..k]))) && At(parents, es)
        invariant At(next, Level(es, alts[..k])) && Distinct(Level(es, alts[..k]))
        decreases if bars.Some? then |bars.value| + 1 else 0
      {
        var sub;
        sub, bars := Strsep(bars.value, '|');
        assert sub == alts[k..][0] && Tokens(bars, '|') == alts[k..][1..];
        next, ok := AddLevel(parents, sub, next, es, alts, k);
        if !ok {
          return;
        }
        TouchedLevel(old(view), es, alts, k);
        k := k + 1;
      }
      assert alts[..k] == alts;
    }

    lemma LevelNext(es: seq<Path>, alts: Alternatives, k: nat)
      requires k < |alts|
      ensures Level(es, alts[..k]) + ExtendAll(es, alts[k]) == Level(es, alts[..k + 1])
      ensures Distinct(Level(es, alts)) ==> Distinct(Level(es, alts[..k + 1]))
    {
      assert alts[..k + 1][..k] == alts[..k];
      LevelPrefix(es, alts, k + 1);
      DistinctPrefix(Level(es, alts), Level(es, alts[..k + 1]));
    }

    lemma TouchedLevel(view: View, es: seq<Path>, alts: Alternatives, k: nat)
      requires k < |alts|
      ensures Touched(Touched(view, Elements(Level(es, alts[..k]))), Elements(ExtendAll(es, alts[k])))
           == Touched(view, Elements(Level(es, alts[..k + 1])))
    {
      var a, b := Level(es, alts[..k]), ExtendAll(es, alts[k]);
      LevelNext(es, alts, k);
      ElementsOfSum(a, b);
      TouchedTwice(view, Elements(a), Elements(b));
    }

    lemma ElementsOfSum(a: seq<Path>, b: seq<Path>)
      ensures Elements(a + b) == Elements(a) + Elements(b)
    {
    }

    lemma LevelPrefix(es: seq<Path>, alts: Alternatives, k: nat)
      requires k <= |alts|
      ensures Level(es, alts[..k]) <= Level(es, alts)
      decreases |alts| - k
    {
      if k < |alts| {
        LevelPrefix(es, alts, k + 1);
        assert alts[..k + 1][..k] == alts[..k];
      } else {
        assert alts[..k] == alts;
      }
    }

    /** The loop over the words: the nodes that all expansions lead to. */
    method AddWords(pattern: string) returns (parents: seq<nat>, ok: bool)
      requires Valid()
      modifies this
      ensures ok <==> Distinct(Expansions(Parse(pattern)))
      ensures ok ==> Grown(Passed(Parse(pattern))) && At(parents, Expansions(Parse(pattern)))
    {
      ghost var p, k := Parse(pattern), 0;
      parents, ok := [0], true;
      var rest := Some(pattern);
      ghost var words := Split(pattern, ' ');
      assert PathsOf(paths, parents) == [[]];
      TouchedKnown(view, []);
      while rest.Some?
        invariant k <= |words| && Tokens(rest, ' ') == words[k..]
        invariant Grown(Passed(p[..k])) && At(parents, Expansions(p[..k])) && Distinct(Expansions(p[..k]))
        decreases if rest.Some? then |rest.value| + 1 else 0
      {
        var word;
        word, rest := Strsep(rest.value, ' ');
        assert word == words[k..][0] && Tokens(rest, ' ') == words[k..][1..];
        parents, ok := AddNext(parents, word, p, k);
        if !ok {
          return;
        }
        PassedNext(old(view), p, k);
        k := k + 1;
      }
      assert p[..k] == p;
    }

    /** command_install2; false where it aborts because a node is reached twice. */
    method Install(pattern: string, f: Func) returns (ok: bool)
      requires Valid()
      modifies this
      ensures ok <==> Distinct(Expansions(Parse(pattern)))
      ensures ok ==> Valid() && view == Installed(old(view), Parse(pattern), f)
    {
      var parents;
      parents, ok := AddWords(pattern);
      if ok {
        SetFuncs(parents, f, Expansions(Parse(pattern)));
        InstalledIsTouched(old(view), Parse(pattern), f);
      }
    }

    /** The next word of a pattern. */
    method AddNext(parents: seq<nat>, word: string, ghost p: seq<Alternatives>, ghost k: nat)
      returns (next: seq<nat>, ok: bool)
      requires k < |p| && AllNonEmpty(p) && p[k] == AlternativesOf(word)
      requires Valid() && At(parents, Expansions(p[..k]))
      modifies this
      ensures !ok ==> !Distinct(Expansions(p))
      ensures ok ==>
        && Grown(Elements(Expansions(p[..k + 1]))) && At(next, Expansions(p[..k + 1]))
        && Distinct(Expansions(p[..k + 1]))
    {
      assert p[..k + 1][..k] == p[..k];
      DistinctUpTo(p, k + 1);
      next, ok := AddWord(parents, Inner(word), Expansions(p[..k]));
    }

    lemma PassedNext(view: View, p: seq<Alternatives>, k: nat)
      requires k < |p|
      ensures Touched(Touched(view, Passed(p[..k])), Elements(Expansions(p[..k + 1])))
        == Touched(view, Passed(p[..k + 1]))
    {
      assert p[..k + 1][..k] == p[..k];
      TouchedTwice(view, Passed(p[..k]), Elements(Expansions(p[..k + 1])));
    }

    lemma {:induction false} DistinctUpTo(p: seq<Alternatives>, k: nat)
      requires k <= |p| && AllNonEmpty(p)
      ensures Distinct(Expansions(p)) ==> Distinct(Expansions(p[..k]))
      decreases |p| - k
    {
      if k < |p| {
        DistinctUpTo(p, k + 1);
        assert p[..k + 1][..k] == p[..k];
        if Distinct(Expansions(p[..k + 1])) {
          DistinctBefore(Expansions(p[..k]), p[k]);
        }
      } else {
        assert p[..k] == p;
      }
    }

    /** The loop over the last parents. */
    method SetFuncs(parents: seq<nat>, f: Func, ghost es: seq<Path>)
      requires Valid() && At(parents, es)
      modifies this
      ensures Valid() && view == WithFunc(old(view), es, f)
    {
      for k := 0 to |parents|
        invariant Valid() && At(parents, es) && view == WithFunc(old(view), es[..k], f)
      {
        assert es[k] == paths[parents[k]];
        SetKeepsWf(nodes, paths, view, parents[k], f);
        nodes := nodes[parents[k] := nodes[parents[k]].(func := Some(f))];
        view := view[es[k] := Some(f)];
        WithFuncNext(old(view), es, f, k);
      }
      assert es[..|parents|] == es;
    }

    ghost function WithFunc(view: View, es: seq<Path>, f: Func): View {
      map e | e in view :: if e in es then Some(f) else view[e]
    }

    lemma WithFuncNext(view: View, es: seq<Path>, f: Func, k: nat)
      requires k < |es| && es[k] in view
      ensures WithFunc(view, es[..k], f)[es[k] := Some(f)] == WithFunc(view, es[..k + 1], f)
    {
    }

    lemma InstalledIsTouched(view: View, p: seq<Alternatives>, f: Func)
      ensures WithFunc(Touched(view, Passed(p)), Expansions(p), f) == Installed(view, p, f)
    {
    }
  }
}
