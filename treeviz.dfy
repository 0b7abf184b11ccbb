/** The diagnostic renderer of treeviz.go.

    `Tree` prints one line per node, children below their parent in
    ascending order of segment, each child line led by one column per
    ancestor level and a connector.  It sorts every visited node's
    children in place on the way, so rendering changes the tree: the
    specification `Viz` therefore returns the text together with the arena
    it leaves behind. */
module TreeViz {
  import opened Wrappers
  import opened Routes
  import Text

  /** The column and connector pieces `ec`, `sc`, `mc` and `lc`. */
  const Blank := "   "
  const Bar := "│  "
  const Middle := "├──"
  const Corner := "└──"

  // ---------------------------------------------------------------------
  // siblingLevels and contains

  /** `siblingLevels(n)`: the levels of the non-root ancestors-or-self of
      `n` that are not the last child of their parent, from the top down. */
  function SiblingLevels(ns: seq<Node>, n: nat): (sl: seq<nat>)
    requires Valid(ns) && n < |ns|
    ensures forall i | 0 <= i < |sl| :: 1 <= sl[i] <= Level(ns, n)
    decreases n
  {
    if IsRoot(ns, n) then []
    else
      var above := SiblingLevels(ns, ns[n].parent.value);
      if !IsLastChild(ns, n) then above + [Level(ns, n)] else above
  }

  /** The levels come out strictly ascending. */
  lemma {:induction false} SiblingLevelsAscending(ns: seq<Node>, n: nat)
    requires Valid(ns) && n < |ns|
    ensures forall i, j | 0 <= i < j < |SiblingLevels(ns, n)| :: SiblingLevels(ns, n)[i] < SiblingLevels(ns, n)[j]
    decreases n
  {
    if !IsRoot(ns, n) {
      SiblingLevelsAscending(ns, ns[n].parent.value);
    }
  }

  /** A level is listed exactly when some non-root ancestor-or-self at that
      level is not its parent's last child. */
  lemma {:induction false} SiblingLevelsMeans(ns: seq<Node>, n: nat, l: nat)
    requires Valid(ns) && n < |ns|
    ensures l in SiblingLevels(ns, n) <==>
      exists a: nat | a < |ns| && IsAncestorOrSelf(ns, a, n) ::
        !IsRoot(ns, a) && Level(ns, a) == l && !IsLastChild(ns, a)
    decreases n
  {
    if !IsRoot(ns, n) {
      var p := ns[n].parent.value;
      SiblingLevelsMeans(ns, p, l);
      if l in SiblingLevels(ns, n) && l !in SiblingLevels(ns, p) {
        assert IsAncestorOrSelf(ns, n, n);
      }
      if l !in SiblingLevels(ns, n) {
        forall a: nat | a < |ns| && IsAncestorOrSelf(ns, a, n)
          ensures !(!IsRoot(ns, a) && Level(ns, a) == l && !IsLastChild(ns, a))
        {
          if a != n {
            assert IsAncestorOrSelf(ns, a, p);
          }
        }
      } else if l in SiblingLevels(ns, p) {
        var a: nat :| a < |ns| && IsAncestorOrSelf(ns, a, p) && !IsRoot(ns, a) && Level(ns, a) == l && !IsLastChild(ns, a);
        assert IsAncestorOrSelf(ns, a, n);
      }
    } else {
      forall a: nat | a < |ns| && IsAncestorOrSelf(ns, a, n) ensures IsRoot(ns, a) {
        assert a == n;
      }
    }
  }

  /** `contains(s, e)`: the search loop. */
  method Contains(s: seq<nat>, e: nat) returns (b: bool)
    ensures b <==> e in s
  {
    var i := 0;
    while i < |s|
      invariant 0 <= i <= |s|
      invariant e !in s[..i]
    {
      if s[i] == e {
        return true;
      }
      assert s[..i + 1] == s[..i] + [s[i]];
      i := i + 1;
    }
    assert s[..|s|] == s;
    return false;
  }

  // ---------------------------------------------------------------------
  // The pieces of a line

  /** The columns before a child at `level`: one per level `1 .. level-1`,
      a bar where the level is listed in `sl` and blanks elsewhere. */
  function Prefix(sl: seq<nat>, level: nat): (p: string)
    ensures |p| == 3 * (if level == 0 then 0 else level - 1)
    decreases level
  {
    if level <= 1 then "" else Prefix(sl, level - 1) + (if level - 1 in sl then Bar else Blank)
  }

  /** Column `l` of the prefix is a bar exactly when `l` is listed. */
  lemma {:induction false} PrefixColumn(sl: seq<nat>, level: nat, l: nat)
    requires 1 <= l < level
    ensures Prefix(sl, level)[3 * (l - 1) .. 3 * l] == if l in sl then Bar else Blank
    decreases level
  {
    var col := if level - 1 in sl then Bar else Blank;
    var pre := Prefix(sl, level - 1);
    assert Prefix(sl, level) == pre + col;
    if l < level - 1 {
      PrefixColumn(sl, level - 1, l);
      assert Prefix(sl, level)[3 * (l - 1) .. 3 * l] == pre[3 * (l - 1) .. 3 * l];
    } else {
      assert Prefix(sl, level)[3 * (l - 1) .. 3 * l] == col;
    }
  }

  /** The text of a node's own line: `segment [Kind]`, then ` (m1, m2, ...)`
      with the sorted methods when it has any, then a newline. */
  ghost function NodeLine(ns: seq<Node>, n: nat): (s: string)
    requires n < |ns|
    ensures ns[n].path <= s
    ensures |s| > 0 && s[|s| - 1] == '\n'
  {
    Label(ns[n]) + MethodsSuffix(MethodList(ns[n].handlers)) + "\n"
  }

  /** `fmt.Sprintf("%s [%s]", n.path, n.kind)`. */
  function Label(node: Node): string {
    node.path + " [" + KindName(node.kind) + "]"
  }

  /** ` (m1, m2, ...)`, or nothing without methods. */
  function MethodsSuffix(ms: seq<string>): string {
    if |ms| > 0 then " (" + Text.Join(ms, ", ") + ")" else ""
  }

  // ---------------------------------------------------------------------
  // What rendering does

  /** `ns'` differs from `ns` at most in the order of children lists. */
  ghost predicate Reordered(ns: seq<Node>, ns': seq<Node>) {
    |ns| == |ns'| &&
    forall i | 0 <= i < |ns| ::
      ns'[i] == ns[i].(children := ns'[i].children) &&
      multiset(ns'[i].children) == multiset(ns[i].children)
  }

  lemma ReorderedValid(ns: seq<Node>, ns': seq<Node>)
    requires Valid(ns) && Reordered(ns, ns')
    ensures Valid(ns')
  {
    forall i, j | 0 <= i < |ns'| && 0 <= j < |ns'[i].children|
      ensures i < ns'[i].children[j] < |ns'|
    {
      assert ns'[i].children[j] in multiset(ns[i].children);
    }
  }

  lemma ReorderedLinked(ns: seq<Node>, ns': seq<Node>)
    requires Linked(ns) && Reordered(ns, ns')
    ensures Linked(ns')
  {
    forall i, j | 0 <= i < |ns'| && 0 <= j < |ns'[i].children| && ns'[i].children[j] < |ns'|
      ensures ns'[ns'[i].children[j]].parent == Some(i)
    {
      assert ns'[i].children[j] in multiset(ns[i].children);
    }
  }

  /** A value listed twice in a sequence has count at least two ... */
  lemma {:induction false} CountTwice(s: seq<nat>, j: nat, k: nat)
    requires j < k < |s| && s[j] == s[k]
    ensures multiset(s)[s[j]] >= 2
  {
    assert s == s[..k] + [s[k]] + s[k + 1..];
    assert s[j] in multiset(s[..k]);
  }

  /** ... and a value with count at least two is listed twice. */
  lemma {:induction false} TwiceListed(s: seq<nat>, x: nat) returns (j: nat, k: nat)
    requires multiset(s)[x] >= 2
    ensures j < k < |s| && s[j] == x && s[k] == x
    decreases |s|
  {
    var init := s[..|s| - 1];
    assert s == init + [s[|s| - 1]];
    if s[|s| - 1] == x {
      assert x in multiset(init);
      j :| 0 <= j < |init| && init[j] == x;
      k := |s| - 1;
    } else {
      j, k := TwiceListed(init, x);
    }
  }

  /** Two positions of `s'` name two positions of `s` with the same values,
      distinct when the values differ or repeat. */
  lemma SamePair(s: seq<nat>, s': seq<nat>, j': nat, k': nat) returns (j: nat, k: nat)
    requires multiset(s') == multiset(s) && j' < k' < |s'|
    ensures j < k < |s|
    ensures {s[j], s[k]} == {s'[j'], s'[k']}
  {
    if s'[j'] == s'[k'] {
      CountTwice(s', j', k');
      j, k := TwiceListed(s, s'[j']);
    } else {
      assert s'[j'] in multiset(s) && s'[k'] in multiset(s);
      var a :| 0 <= a < |s| && s[a] == s'[j'];
      var b :| 0 <= b < |s| && s[b] == s'[k'];
      if a < b { j, k := a, b; } else { j, k := b, a; }
    }
  }

  lemma ReorderedWellFormed(ns: seq<Node>, ns': seq<Node>)
    requires WellFormed(ns) && Reordered(ns, ns')
    ensures WellFormed(ns')
  {
    ReorderedValid(ns, ns');
    ReorderedLinked(ns, ns');
    forall i, j', k' |
      0 <= i < |ns'| && 0 <= j' < k' < |ns'[i].children| &&
      ns'[i].children[j'] < |ns'| && ns'[i].children[k'] < |ns'|
      ensures !(IsComplex(ns'[ns'[i].children[j']].kind) && IsComplex(ns'[ns'[i].children[k']].kind))
      ensures ns'[ns'[i].children[j']].path != ns'[ns'[i].children[k']].path
    {
      var j, k := SamePair(ns[i].children, ns'[i].children, j', k');
      var a, b := ns[i].children[j], ns[i].children[k];
      assert a < |ns| && b < |ns|;
      assert ns'[a].kind == ns[a].kind && ns'[b].kind == ns[b].kind;
      assert ns'[a].path == ns[a].path && ns'[b].path == ns[b].path;
    }
    forall i | 0 <= i < |ns'| && ns'[i].kind == CatchAll ensures ns'[i].children == [] {
      assert |multiset(ns'[i].children)| == |multiset(ns[i].children)|;
    }
  }

  lemma ReorderedTransitive(a: seq<Node>, b: seq<Node>, c: seq<Node>)
    requires Reordered(a, b) && Reordered(b, c)
    ensures Reordered(a, c)
  {
  }

  /** The children of `n` sorted by segment, in the arena. */
  function SortChildren(ns: seq<Node>, n: nat): (ns': seq<Node>)
    requires n < |ns|
    ensures Reordered(ns, ns')
    ensures forall i | 0 <= i < |ns| && i != n :: ns'[i] == ns[i]
  {
    ns[n := ns[n].(children := Text.Sort(ns[n].children, SegmentOf(ns)))]
  }

  /** `Tree(n)` for a node: its text and the arena after it. */
  ghost function Viz(ns: seq<Node>, n: nat): (res: (string, seq<Node>))
    requires Valid(ns) && n < |ns|
    ensures Valid(res.1) && Reordered(ns, res.1)
    ensures forall i | 0 <= i < n :: res.1[i] == ns[i]
    ensures res.1[n].children == Text.Sort(ns[n].children, SegmentOf(ns))
    decreases |ns| - n, 1
  {
    var ns1 := SortChildren(ns, n);
    ReorderedValid(ns, ns1);
    var (s, ns2) := VizChildren(ns1, n, 0);
    ReorderedTransitive(ns, ns1, ns2);
    (NodeLine(ns, n) + s, ns2)
  }

  /** The lines of the children of `n` from the `i`-th on, each led by
      its columns and connector and followed by its own subtree. */
  ghost function VizChildren(ns: seq<Node>, n: nat, i: nat): (res: (string, seq<Node>))
    requires Valid(ns) && n < |ns| && i <= |ns[n].children|
    ensures Valid(res.1) && Reordered(ns, res.1)
    ensures forall k | 0 <= k <= n :: res.1[k] == ns[k]
    decreases |ns| - n, 0, |ns[n].children| - i
  {
    if i == |ns[n].children| then
      (ReorderedTransitive(ns, ns, ns);
      ("", ns))
    else
      var c := ns[n].children[i];
      var (cs, ns1) := Viz(ns, c);
      var line := Prefix(SiblingLevels(ns1, c), Level(ns1, c)) +
        (if i < |ns[n].children| - 1 then Middle else Corner) + cs;
      var (rest, ns2) := VizChildren(ns1, n, i + 1);
      ReorderedTransitive(ns, ns1, ns2);
      (line + rest, ns2)
  }

  /** Rendering leaves the visited node's children in ascending order of
      segment, as a permutation of what they were. */
  lemma VizSortsChildren(ns: seq<Node>, n: nat)
    requires Valid(ns) && n < |ns|
    ensures var ns' := Viz(ns, n).1;
      Text.SortedBy(ns'[n].children, SegmentOf(ns')) &&
      multiset(ns'[n].children) == multiset(ns[n].children)
  {
    var ns' := Viz(ns, n).1;
    Text.SortSorted(ns[n].children, SegmentOf(ns));
    var cs := ns'[n].children;
    forall i, j | 0 <= i < j < |cs| ensures Text.LessEq(SegmentOf(ns')(cs[i]), SegmentOf(ns')(cs[j])) {
      assert SegmentOf(ns')(cs[i]) == SegmentOf(ns)(cs[i]);
      assert SegmentOf(ns')(cs[j]) == SegmentOf(ns)(cs[j]);
    }
  }

  /** Rendering only reorders children: the tree keeps its links. */
  lemma VizKeepsLinks(ns: seq<Node>, n: nat)
    requires Valid(ns) && Linked(ns) && n < |ns|
    ensures Linked(Viz(ns, n).1)
  {
    ReorderedLinked(ns, Viz(ns, n).1);
  }

  /** Rendering keeps all the structural rules of a tree built by `Route`. */
  lemma VizKeepsWellFormed(ns: seq<Node>, n: nat)
    requires WellFormed(ns) && n < |ns|
    ensures WellFormed(Viz(ns, n).1)
    ensures |Viz(ns, n).1| == |ns|
    ensures forall i | 0 <= i < |ns| ::
      Viz(ns, n).1[i].path == ns[i].path && Viz(ns, n).1[i].parent == ns[i].parent
  {
    ReorderedWellFormed(ns, Viz(ns, n).1);
  }

  /** The output starts with the node's own line. */
  lemma VizStartsWithLine(ns: seq<Node>, n: nat)
    requires Valid(ns) && n < |ns|
    ensures NodeLine(ns, n) <= Viz(ns, n).0
  {
  }

  // ---------------------------------------------------------------------
  // The renderer

  /** The loop that writes the method list, `", "` between entries. */
  method JoinMethods(ms: seq<string>) returns (list: string)
    ensures list == Text.Join(ms, ", ")
  {
    list := "";
    var i := 0;
    while i < |ms|
      invariant 0 <= i <= |ms|
      invariant list == Text.Join(ms[..i], ", ")
    {
      if i > 0 {
        list := list + ", ";
      }
      list := list + ms[i];
      assert ms[..i + 1][..i] == ms[..i];
      i := i + 1;
    }
    assert ms[..|ms|] == ms;
  }

  /** The `fmt.Sprintf`/`WriteString` sequence that writes a node's line. */
  method Line(t: RouteTree, n: nat) returns (s: string)
    requires n < |t.nodes|
    ensures s == NodeLine(t.nodes, n)
  {
    s := Label(t.nodes[n]);
    var ms := t.Methods(n);
    if |ms| > 0 {
      var list := JoinMethods(ms);
      s := s + " (" + list + ")";
    }
    s := s + "\n";
  }

  /** The column loop of `Tree`. */
  method BuildPrefix(sl: seq<nat>, level: nat) returns (prefix: string)
    ensures prefix == Prefix(sl, level)
  {
    prefix := "";
    var l := 1;
    while l < level
      invariant 1 <= l && (l <= level || l == 1)
      invariant prefix == Prefix(sl, l)
    {
      var listed := Contains(sl, l);
      if listed {
        prefix := prefix + Bar;
      } else {
        prefix := prefix + Blank;
      }
      l := l + 1;
    }
  }

  /** `Viz` unfolded: the node's line, then its sorted children. */
  lemma VizUnfold(ns: seq<Node>, n: nat)
    requires Valid(ns) && n < |ns|
    ensures Valid(SortChildren(ns, n))
    ensures Viz(ns, n) ==
      (NodeLine(ns, n) + VizChildren(SortChildren(ns, n), n, 0).0, VizChildren(SortChildren(ns, n), n, 0).1)
  {
    ReorderedValid(ns, SortChildren(ns, n));
  }

  lemma VizChildrenEnd(ns: seq<Node>, n: nat)
    requires Valid(ns) && n < |ns|
    ensures VizChildren(ns, n, |ns[n].children|) == ("", ns)
  {
  }

  /** One round of the children loop, unfolded. */
  lemma VizChildrenStep(ns: seq<Node>, n: nat, i: nat)
    requires Valid(ns) && n < |ns| && i < |ns[n].children|
    ensures var c := ns[n].children[i];
      n < c < |ns| &&
      var (cs, ns1) := Viz(ns, c);
      ns1[n] == ns[n] &&
      VizChildren(ns, n, i) ==
        (Prefix(SiblingLevels(ns1, c), Level(ns1, c)) +
         (if i < |ns[n].children| - 1 then Middle else Corner) + cs +
         VizChildren(ns1, n, i + 1).0,
         VizChildren(ns1, n, i + 1).1)
  {
  }

  lemma LoopStep(before: string, now: string, piece: string, rest: string, total: string)
    requires before + (piece + rest) == total && now == before + piece
    ensures now + rest == total
  {
  }

  /** `Tree(n)` on a node. */
  method Render(t: RouteTree, n: nat) returns (s: string)
    requires Valid(t.nodes) && n < |t.nodes|
    modifies t
    ensures (s, t.nodes) == Viz(old(t.nodes), n)
    decreases |t.nodes| - n
  {
    ghost var ns := t.nodes;
    s := Line(t, n);
    var children := Text.Sort(t.nodes[n].children, SegmentOf(t.nodes));
    t.nodes := t.nodes[n := t.nodes[n].(children := children)];
    assert t.nodes == SortChildren(ns, n);
    VizUnfold(ns, n);
    ghost var ns1 := t.nodes;
    var i := 0;
    while i < |children|
      invariant 0 <= i <= |children| && Valid(t.nodes) && |t.nodes| == |ns|
      invariant t.nodes[n] == ns1[n]
      invariant s + VizChildren(t.nodes, n, i).0 == Viz(ns, n).0
      invariant VizChildren(t.nodes, n, i).1 == Viz(ns, n).1
    {
      var c := children[i];
      ghost var before := t.nodes;
      ghost var sBefore := s;
      VizChildrenStep(before, n, i);
      var cString := Render(t, c);
      ghost var after := t.nodes;
      assert (cString, after) == Viz(before, c);
      var sl := SiblingLevels(t.nodes, c);
      var prefix := BuildPrefix(sl, Level(t.nodes, c));
      var connector := if i < |t.nodes[n].children| - 1 then Middle else Corner;
      ghost var rest := VizChildren(after, n, i + 1);
      assert VizChildren(before, n, i) == (prefix + connector + cString + rest.0, rest.1);
      s := s + (prefix + connector + cString);
      LoopStep(sBefore, s, prefix + connector + cString, rest.0, Viz(ns, n).0);
      assert VizChildren(t.nodes, n, i + 1) == rest;
      i := i + 1;
    }
    assert t.nodes[n].children == children;
    VizChildrenEnd(t.nodes, n);
    assert s == Viz(ns, n).0 && t.nodes == Viz(ns, n).1;
  }

  /** `Tree(n)`: the empty string for nil. */
  method Tree(t: RouteTree, n: Option<nat>) returns (s: string)
    requires n.Some? ==> Valid(t.nodes) && n.value < |t.nodes|
    modifies t
    ensures n.None? ==> s == "" && t.nodes == old(t.nodes)
    ensures n.Some? ==> (s, t.nodes) == Viz(old(t.nodes), n.value)
  {
    if n.None? {
      return "";
    }
    s := Render(t, n.value);
  }
}
