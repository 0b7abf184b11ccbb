/** The route tree of route.go.

    The tree's nodes live in an arena: a sequence of `Node` records, where
    a node is named by its index and `parent`/`children` hold indices.  A
    node is always created after its parent (see `Valid`), which is what
    bounds the recursion of `Level` and `FullPath`.  The pure part of the
    file (splitting, classification, matching, navigation) is written as
    functions of the arena value; `RouteTree` holds the arena and performs
    the in-place updates of route.go (`Append`, `Route`, `Set`,
    `SetHandler`). */
module Routes {
  import opened Wrappers
  import opened Http
  import Text

  datatype Kind = Static | Parameter | CatchAll

  /** The errors route.go returns or panics with: "not possible" and
      "unable to replace route: incorrect path". */
  datatype Error = NotPossible | IncorrectPath

  /** The kind of a segment, from its first character. */
  function ClassifyKind(path: string): (k: Kind)
    requires |path| > 0
    ensures k == Parameter <==> path[0] == ':'
    ensures k == CatchAll <==> path[0] == '*'
  {
    match path[0]
    case ':' => Parameter
    case '*' => CatchAll
    case _ => Static
  }

  predicate IsComplex(k: Kind) {
    k == Parameter || k == CatchAll
  }

  // ---------------------------------------------------------------------
  // Splitting a path into its first segment and the rest

  /** The first index at or after `i` holding a `/`, or `|path|`. */
  function SlashAt(path: string, i: nat): (j: nat)
    requires i <= |path|
    ensures i <= j <= |path|
    ensures j < |path| ==> path[j] == '/'
    ensures forall k | i <= k < j :: path[k] != '/'
    decreases |path| - i
  {
    if i == |path| || path[i] == '/' then i else SlashAt(path, i + 1)
  }

  /** `split`: a leading `/` is a segment of its own; otherwise the head
      runs up to the next `/`, which starts the tail. */
  function Split(path: string): (r: (string, string))
    ensures r.0 + r.1 == path
    ensures r.0 == [] <==> path == []
    ensures r.0 == "/" || '/' !in r.0
    ensures r.0 != "/" && r.1 != [] ==> r.1[0] == '/'
  {
    if |path| == 0 then ("", "")
    else if path[0] == '/' then (path[..1], path[1..])
    else
      var i := SlashAt(path, 1);
      assert path[..i] + path[i..] == path;
      (path[..i], path[i..])
  }

  /** The four properties of `Split` determine it: any other way of cutting
      `path` that has them is `Split(path)`. */
  lemma SplitUnique(path: string, head: string, tail: string)
    requires head + tail == path
    requires head == [] <==> path == []
    requires head == "/" || '/' !in head
    requires head != "/" && tail != [] ==> tail[0] == '/'
    ensures (head, tail) == Split(path)
  {
    var (h, t) := Split(path);
    if |path| > 0 {
      assert head[0] == path[0] && h[0] == path[0];
      if path[0] != '/' {
        assert head != "/" && h != "/";
        assert forall k | 0 <= k < |head| :: path[k] == head[k];
        assert forall k | 0 <= k < |h| :: path[k] == h[k];
        assert |head| < |path| ==> path[|head|] == tail[0];
        assert |h| < |path| ==> path[|h|] == t[0];
        assert |head| == |h|;
      }
      assert head == path[..|head|] && h == path[..|h|];
    }
  }

  /** The scanning loop of `split`. */
  method ScanSplit(path: string) returns (head: string, tail: string)
    ensures (head, tail) == Split(path)
  {
    var i := 0;
    while i < |path|
      invariant 0 <= i <= |path|
      invariant forall k | 0 <= k < i :: path[k] != '/'
    {
      if path[i] == '/' {
        if i == 0 {
          head, tail := path[0..1], path[1..];
        } else {
          head, tail := path[..i], path[i..];
        }
        SplitUnique(path, head, tail);
        return;
      }
      i := i + 1;
    }
    head, tail := path, "";
    SplitUnique(path, head, tail);
  }

  // ---------------------------------------------------------------------
  // Nodes and the arena

  /** A `Route`: its segment, kind, parent, children and method table. */
  datatype Node = Node(
    path: string,
    kind: Kind,
    parent: Option<nat>,
    children: seq<nat>,
    handlers: map<string, Handler>)

  /** `NewRoute(path)` as a value: kind from the segment, no parent, no
      children, no handlers. */
  function NewNode(path: string): (n: Node)
    requires |path| > 0
    ensures n.path == path && n.children == [] && n.handlers == map[]
    ensures n.parent == None && n.kind == ClassifyKind(path)
  {
    Node(path, ClassifyKind(path), None, [], map[])
  }

  /** Every segment is non-empty and its kind is its classification. */
  ghost predicate Classified(ns: seq<Node>) {
    forall i | 0 <= i < |ns| :: |ns[i].path| > 0 && ns[i].kind == ClassifyKind(ns[i].path)
  }

  /** Parents are older than their children ... */
  ghost predicate ParentsOlder(ns: seq<Node>) {
    forall i | 0 <= i < |ns| :: ns[i].parent.Some? ==> ns[i].parent.value < i
  }

  /** ... and every listed child is newer than the node listing it. */
  ghost predicate ChildrenNewer(ns: seq<Node>) {
    forall i, j | 0 <= i < |ns| && 0 <= j < |ns[i].children| :: i < ns[i].children[j] < |ns|
  }

  /** The shape every arena keeps: it rules out cycles through parents and
      through children lists alike. */
  ghost predicate Valid(ns: seq<Node>) {
    Classified(ns) && ParentsOlder(ns) && ChildrenNewer(ns)
  }

  /** Every listed child points back at the node listing it. */
  ghost predicate Linked(ns: seq<Node>) {
    forall i, j | 0 <= i < |ns| && 0 <= j < |ns[i].children| && ns[i].children[j] < |ns| ::
      ns[ns[i].children[j]].parent == Some(i)
  }

  /** At most one child of each node is a Parameter or a CatchAll. */
  ghost predicate OneComplex(ns: seq<Node>) {
    forall i, j, k |
      0 <= i < |ns| && 0 <= j < k < |ns[i].children| &&
      ns[i].children[j] < |ns| && ns[i].children[k] < |ns| ::
      !(IsComplex(ns[ns[i].children[j]].kind) && IsComplex(ns[ns[i].children[k]].kind))
  }

  /** The children of each node have pairwise distinct segments. */
  ghost predicate DistinctSegments(ns: seq<Node>) {
    forall i, j, k |
      0 <= i < |ns| && 0 <= j < k < |ns[i].children| &&
      ns[i].children[j] < |ns| && ns[i].children[k] < |ns| ::
      ns[ns[i].children[j]].path != ns[ns[i].children[k]].path
  }

  /** Nothing hangs below a catch-all. */
  ghost predicate CatchAllLeaf(ns: seq<Node>) {
    forall i | 0 <= i < |ns| :: ns[i].kind == CatchAll ==> ns[i].children == []
  }

  /** The structural rules of a tree built by `Route`. */
  ghost predicate WellFormed(ns: seq<Node>) {
    Valid(ns) && Linked(ns) && OneComplex(ns) && DistinctSegments(ns) && CatchAllLeaf(ns)
  }

  /** `ns'` is `ns` grown by registration: possibly more nodes, and on the old
      ones the same segment, kind, parent and handlers, and a children list
      that has only been appended to. */
  ghost predicate Extends(ns: seq<Node>, ns': seq<Node>) {
    |ns| <= |ns'| &&
    forall i | 0 <= i < |ns| ::
      ns'[i].path == ns[i].path && ns'[i].kind == ns[i].kind &&
      ns'[i].parent == ns[i].parent && ns'[i].handlers == ns[i].handlers &&
      ns[i].children <= ns'[i].children
  }

  ghost predicate InArena(ns: seq<Node>, rs: seq<nat>) {
    forall i | 0 <= i < |rs| :: rs[i] < |ns|
  }

  // ---------------------------------------------------------------------
  // Selecting among routes: `ByKind`, `ByPath`, `FindOne`, `Filter`

  /** The predicates `ByKind(ks...)` and `ByPath(pcs...)` return. */
  datatype Selector = ByKind(kinds: seq<Kind>) | ByPath(paths: seq<string>)

  /** The closure's loop: some listed kind, or some listed segment, is
      the route's own. */
  predicate Selects(sel: Selector, n: Node): (b: bool)
    ensures sel.ByKind? ==> (b <==> exists i | 0 <= i < |sel.kinds| :: sel.kinds[i] == n.kind)
    ensures sel.ByPath? ==> (b <==> exists i | 0 <= i < |sel.paths| :: sel.paths[i] == n.path)
  {
    match sel
    case ByKind(ks) => n.kind in ks
    case ByPath(pcs) => n.path in pcs
  }

  const Complex := ByKind([Parameter, CatchAll])

  /** The position of the first route of `rs` that `sel` selects, or `|rs|`. */
  function FirstIndex(ns: seq<Node>, rs: seq<nat>, sel: Selector): (k: nat)
    requires InArena(ns, rs)
    ensures k <= |rs|
    ensures k < |rs| ==> Selects(sel, ns[rs[k]])
    ensures forall j | 0 <= j < k :: !Selects(sel, ns[rs[j]])
    decreases |rs|
  {
    if |rs| == 0 then 0
    else if Selects(sel, ns[rs[0]]) then 0
    else 1 + FirstIndex(ns, rs[1..], sel)
  }

  /** What `FindOne` returns: the first selected route, or nil. */
  function First(ns: seq<Node>, rs: seq<nat>, sel: Selector): (r: Option<nat>)
    requires InArena(ns, rs)
    ensures r.Some? ==> r.value in rs && r.value < |ns| && Selects(sel, ns[r.value])
    ensures r.None? <==> forall j | 0 <= j < |rs| :: !Selects(sel, ns[rs[j]])
  {
    var k := FirstIndex(ns, rs, sel);
    if k < |rs| then Some(rs[k]) else None
  }

  /** The three clauses of `FirstIndex` pin it down. */
  lemma {:induction false} FirstIndexUnique(ns: seq<Node>, rs: seq<nat>, sel: Selector, k: nat)
    requires InArena(ns, rs) && k <= |rs|
    requires k < |rs| ==> Selects(sel, ns[rs[k]])
    requires forall j | 0 <= j < k :: !Selects(sel, ns[rs[j]])
    ensures FirstIndex(ns, rs, sel) == k
    decreases |rs|
  {
    if |rs| > 0 && k > 0 {
      FirstIndexUnique(ns, rs[1..], sel, k - 1);
    }
  }

  /** `First` only looks at the segment and kind of the routes it is given. */
  lemma FirstStable(ns: seq<Node>, ns': seq<Node>, rs: seq<nat>, sel: Selector)
    requires Extends(ns, ns') && InArena(ns, rs)
    ensures InArena(ns', rs) && First(ns', rs, sel) == First(ns, rs, sel)
  {
    FirstIndexUnique(ns', rs, sel, FirstIndex(ns, rs, sel));
  }

  /** `First` only looks at the segment and kind of the routes it is given,
      and never past the first selected one. */
  lemma FirstExtended(ns: seq<Node>, ns': seq<Node>, rs: seq<nat>, more: seq<nat>, sel: Selector)
    requires Extends(ns, ns') && InArena(ns, rs) && InArena(ns', rs + more)
    requires First(ns, rs, sel).Some?
    ensures First(ns', rs + more, sel) == First(ns, rs, sel)
  {
    var k := FirstIndex(ns, rs, sel);
    FirstIndexUnique(ns', rs + more, sel, k);
  }

  /** Without a selected route among `rs`, the first one of `rs + more` is
      the first one of `more`; `ns'` may extend `ns`. */
  lemma FirstSkips(ns: seq<Node>, ns': seq<Node>, rs: seq<nat>, more: seq<nat>, sel: Selector)
    requires Extends(ns, ns') && InArena(ns, rs) && InArena(ns', more)
    requires First(ns, rs, sel).None?
    ensures InArena(ns', rs + more)
    ensures First(ns', rs + more, sel) == First(ns', more, sel)
  {
    var k := FirstIndex(ns', more, sel);
    assert forall j | 0 <= j < |rs| :: !Selects(sel, ns[rs[j]]);
    FirstIndexUnique(ns', rs + more, sel, |rs| + k);
  }

  /** The loop of `Routes.FindOne`. */
  method FindOne(ns: seq<Node>, rs: seq<nat>, sel: Selector) returns (r: Option<nat>)
    requires InArena(ns, rs)
    ensures r == First(ns, rs, sel)
    ensures r.Some? ==> r.value in rs && Selects(sel, ns[r.value])
    ensures r.None? <==> forall j | 0 <= j < |rs| :: !Selects(sel, ns[rs[j]])
  {
    var i := 0;
    while i < |rs|
      invariant 0 <= i <= |rs|
      invariant forall j | 0 <= j < i :: !Selects(sel, ns[rs[j]])
    {
      if Selects(sel, ns[rs[i]]) {
        FirstIndexUnique(ns, rs, sel, i);
        return Some(rs[i]);
      }
      i := i + 1;
    }
    FirstIndexUnique(ns, rs, sel, |rs|);
    return None;
  }

  /** What `Filter` returns: the selected routes, in their order. */
  function Selected(ns: seq<Node>, rs: seq<nat>, sel: Selector): (r: seq<nat>)
    requires InArena(ns, rs)
    ensures |r| <= |rs|
    ensures forall i | 0 <= i < |r| :: r[i] in rs && Selects(sel, ns[r[i]])
    ensures forall i | 0 <= i < |rs| :: Selects(sel, ns[rs[i]]) ==> rs[i] in r
    decreases |rs|
  {
    if |rs| == 0 then []
    else if Selects(sel, ns[rs[|rs| - 1]]) then
      Selected(ns, rs[..|rs| - 1], sel) + [rs[|rs| - 1]]
    else Selected(ns, rs[..|rs| - 1], sel)
  }

  /** `Filter` distributes over concatenation: together with
      `SelectedSingle` this fixes the order and the multiplicity of the
      selected routes, not just their set. */
  lemma {:induction false} SelectedConcat(ns: seq<Node>, a: seq<nat>, b: seq<nat>, sel: Selector)
    requires InArena(ns, a) && InArena(ns, b)
    ensures InArena(ns, a + b)
    ensures Selected(ns, a + b, sel) == Selected(ns, a, sel) + Selected(ns, b, sel)
    decreases |b|
  {
    assert forall i | 0 <= i < |a + b| :: (a + b)[i] == if i < |a| then a[i] else b[i - |a|];
    if |b| == 0 {
      assert a + b == a;
    } else {
      var b0 := b[..|b| - 1];
      assert (a + b)[..|a + b| - 1] == a + b0;
      SelectedConcat(ns, a, b0, sel);
    }
  }

  lemma SelectedSingle(ns: seq<Node>, x: nat, sel: Selector)
    requires x < |ns|
    ensures Selected(ns, [x], sel) == if Selects(sel, ns[x]) then [x] else []
  {
    assert [x][..0] == [];
  }

  /** The loop of `Routes.Filter`. */
  method Filter(ns: seq<Node>, rs: seq<nat>, sel: Selector) returns (fns: seq<nat>)
    requires InArena(ns, rs)
    ensures fns == Selected(ns, rs, sel)
  {
    fns := [];
    var i := 0;
    while i < |rs|
      invariant 0 <= i <= |rs|
      invariant fns == Selected(ns, rs[..i], sel)
    {
      assert rs[..i + 1][..i] == rs[..i];
      if Selects(sel, ns[rs[i]]) {
        fns := fns + [rs[i]];
      }
      i := i + 1;
    }
    assert rs[..|rs|] == rs;
  }

  /** The key of `Routes.Less`, by which `sort.Sort` orders children: the
      segment, compared with `Text.Less`. */
  function SegmentOf(ns: seq<Node>): nat -> string {
    (i: nat) => if i < |ns| then ns[i].path else ""
  }

  // ---------------------------------------------------------------------
  // Navigation

  predicate IsRoot(ns: seq<Node>, r: nat)
    requires r < |ns|
  {
    ns[r].parent.None?
  }

  predicate IsLeaf(ns: seq<Node>, r: nat)
    requires r < |ns|
  {
    |ns[r].children| == 0
  }

  function FirstChild(ns: seq<Node>, r: nat): (c: Option<nat>)
    requires r < |ns|
    ensures c.None? <==> IsLeaf(ns, r)
    ensures c.Some? ==> c.value == ns[r].children[0]
  {
    if |ns[r].children| > 0 then Some(ns[r].children[0]) else None
  }

  function LastChild(ns: seq<Node>, r: nat): (c: Option<nat>)
    requires r < |ns|
    ensures c.None? <==> IsLeaf(ns, r)
    ensures c.Some? ==> c.value == ns[r].children[|ns[r].children| - 1]
  {
    if |ns[r].children| > 0 then Some(ns[r].children[|ns[r].children| - 1]) else None
  }

  /** A root counts as its own first child. */
  predicate IsFirstChild(ns: seq<Node>, r: nat)
    requires Valid(ns) && r < |ns|
  {
    IsRoot(ns, r) || FirstChild(ns, ns[r].parent.value) == Some(r)
  }

  /** A root counts as its own last child. */
  predicate IsLastChild(ns: seq<Node>, r: nat)
    requires Valid(ns) && r < |ns|
  {
    IsRoot(ns, r) || LastChild(ns, ns[r].parent.value) == Some(r)
  }

  /** In a linked tree the first listed child is a first child and the
      last listed child a last child. */
  lemma ChildrenEnds(ns: seq<Node>, r: nat)
    requires Valid(ns) && Linked(ns) && r < |ns| && !IsLeaf(ns, r)
    ensures IsFirstChild(ns, ns[r].children[0])
    ensures IsLastChild(ns, ns[r].children[|ns[r].children| - 1])
  {
  }

  /** The number of ancestors of `r`. */
  function Level(ns: seq<Node>, r: nat): (l: nat)
    requires Valid(ns) && r < |ns|
    ensures l == 0 <==> IsRoot(ns, r)
    decreases r
  {
    if ns[r].parent.None? then 0 else Level(ns, ns[r].parent.value) + 1
  }

  /** The segments from the root of `r`'s tree down to `r`, concatenated. */
  function FullPath(ns: seq<Node>, r: nat): (p: string)
    requires Valid(ns) && r < |ns|
    decreases r
  {
    if ns[r].parent.None? then ns[r].path else FullPath(ns, ns[r].parent.value) + ns[r].path
  }

  /** `a` is `n` or one of its ancestors. */
  ghost predicate IsAncestorOrSelf(ns: seq<Node>, a: nat, n: nat)
    requires Valid(ns) && n < |ns|
    decreases n
  {
    a == n || (ns[n].parent.Some? && IsAncestorOrSelf(ns, a, ns[n].parent.value))
  }

  lemma {:induction false} AncestorTransitive(ns: seq<Node>, a: nat, b: nat, n: nat)
    requires Valid(ns) && b < |ns| && n < |ns|
    requires IsAncestorOrSelf(ns, a, b) && IsAncestorOrSelf(ns, b, n)
    ensures IsAncestorOrSelf(ns, a, n)
    decreases n
  {
    if b != n {
      AncestorTransitive(ns, a, b, ns[n].parent.value);
    }
  }

  /** An ancestor sits no deeper than `n`, and its full path is a prefix of
      `n`'s. */
  lemma {:induction false} AncestorPrefix(ns: seq<Node>, a: nat, n: nat)
    requires Valid(ns) && a < |ns| && n < |ns| && IsAncestorOrSelf(ns, a, n)
    ensures a <= n && Level(ns, a) <= Level(ns, n)
    ensures FullPath(ns, a) <= FullPath(ns, n)
    decreases n
  {
    if a != n {
      AncestorPrefix(ns, a, ns[n].parent.value);
    }
  }

  /** In a linked arena a listed child is one level below its parent and its
      full path extends the parent's by its own segment. */
  lemma ChildPath(ns: seq<Node>, r: nat, j: nat)
    requires Valid(ns) && Linked(ns) && r < |ns| && j < |ns[r].children|
    ensures IsAncestorOrSelf(ns, r, ns[r].children[j])
    ensures Level(ns, ns[r].children[j]) == Level(ns, r) + 1
    ensures FullPath(ns, ns[r].children[j]) == FullPath(ns, r) + ns[ns[r].children[j]].path
  {
  }

  /** Growing the arena changes neither the level nor the full path of an
      old node. */
  lemma {:induction false} ExtendsKeepsPaths(ns: seq<Node>, ns': seq<Node>, r: nat)
    requires Valid(ns) && Valid(ns') && Extends(ns, ns') && r < |ns|
    ensures Level(ns', r) == Level(ns, r)
    ensures FullPath(ns', r) == FullPath(ns, r)
    decreases r
  {
    if ns[r].parent.Some? {
      ExtendsKeepsPaths(ns, ns', ns[r].parent.value);
    }
  }

  /** `Siblings` as a value: `rs` without `r`, in order. */
  function Without(rs: seq<nat>, r: nat): (s: seq<nat>)
    ensures forall x :: x in s <==> x in rs && x != r
    ensures |s| <= |rs|
  {
    if |rs| == 0 then []
    else if rs[|rs| - 1] == r then Without(rs[..|rs| - 1], r)
    else Without(rs[..|rs| - 1], r) + [rs[|rs| - 1]]
  }

  /** `Siblings` keeps the order and the multiplicity of the other
      children: `Without` distributes over concatenation and keeps exactly
      the single lists that are not `[r]`. */
  lemma {:induction false} WithoutConcat(a: seq<nat>, b: seq<nat>, r: nat)
    ensures Without(a + b, r) == Without(a, r) + Without(b, r)
    decreases |b|
  {
    if |b| == 0 {
      assert a + b == a;
    } else {
      var b0 := b[..|b| - 1];
      assert (a + b)[..|a + b| - 1] == a + b0;
      assert (a + b)[|a + b| - 1] == b[|b| - 1];
      WithoutConcat(a, b0, r);
    }
  }

  lemma WithoutSingle(x: nat, r: nat)
    ensures Without([x], r) == if x == r then [] else [x]
  {
    assert [x][..0] == [];
  }

  /** `Handler(m)`: the handler stored for method `m`, if any. */
  function HandlerFor(ns: seq<Node>, r: nat, m: string): (h: Option<Handler>)
    requires r < |ns|
    ensures h.Some? <==> m in ns[r].handlers
    ensures h.Some? ==> h.value == ns[r].handlers[m]
  {
    if m in ns[r].handlers then Some(ns[r].handlers[m]) else None
  }

  /** The keys of a set in some order (which order does not matter: only
      its sorted form is used). */
  ghost function SetToSeq(s: set<string>): (r: seq<string>)
    ensures multiset(r) == multiset(s)
  {
    if s == {} then []
    else
      var x :| x in s;
      assert multiset(s) == multiset(s - {x}) + multiset{x};
      SetToSeq(s - {x}) + [x]
  }

  /** What `Methods` returns: the registered methods, sorted. */
  ghost function MethodList(handlers: map<string, Handler>): (ms: seq<string>)
    ensures Text.StrictlySorted(ms)
    ensures forall m :: m in ms <==> m in handlers
  {
    var ms := Text.Sort(SetToSeq(handlers.Keys), Text.Id);
    Text.SortSorted(SetToSeq(handlers.Keys), Text.Id);
    Text.SortedSetIsStrict(ms, handlers.Keys);
    ms
  }

  /** The name `Kind.String` gives a kind. */
  function KindName(k: Kind): (name: string)
    ensures name != "unknown"
  {
    match k
    case Static => "Static"
    case Parameter => "Parameter"
    case CatchAll => "CatchAll"
  }

  // ---------------------------------------------------------------------
  // Registration: the literal walk, its conflicts, and matching

  /** `hasComplexChild`. */
  predicate HasComplexChild(ns: seq<Node>, r: nat)
    requires Valid(ns) && r < |ns|
  {
    First(ns, ns[r].children, Complex).Some?
  }

  lemma HasComplexChildMeans(ns: seq<Node>, r: nat)
    requires Valid(ns) && r < |ns|
    ensures HasComplexChild(ns, r) <==>
      exists j | 0 <= j < |ns[r].children| :: IsComplex(ns[ns[r].children[j]].kind)
  {
    if HasComplexChild(ns, r) {
      var k := FirstIndex(ns, ns[r].children, Complex);
      assert IsComplex(ns[ns[r].children[k]].kind);
    }
  }

  /** The node reached from `r` by following, segment by segment, the child
      whose segment equals the head literally: the node `Route(path)` stops
      at when it has nothing to create. */
  function Lookup(ns: seq<Node>, r: nat, path: string): (n: Option<nat>)
    requires Valid(ns) && r < |ns|
    ensures n.Some? ==> n.value < |ns|
    decreases |path|
  {
    if |path| == 0 then Some(r)
    else
      var (head, tail) := Split(path);
      match First(ns, ns[r].children, ByPath([head]))
      case Some(c) => Lookup(ns, c, tail)
      case None => None
  }

  /** Registering `path` below `r` panics: the literal walk ends at a
      catch-all, or at a node whose complex child clashes with a complex
      head, or the chain of new nodes would have to grow below a new
      catch-all. */
  ghost function Blocked(ns: seq<Node>, r: nat, path: string): bool
    requires Valid(ns) && r < |ns|
    decreases |path|
  {
    if |path| == 0 then false
    else
      var (head, tail) := Split(path);
      match First(ns, ns[r].children, ByPath([head]))
      case Some(c) => Blocked(ns, c, tail)
      case None =>
        || ns[r].kind == CatchAll
        || (HasComplexChild(ns, r) && IsComplex(ClassifyKind(head)))
        || FreshBlocked(ClassifyKind(head), tail)
  }

  /** A new node of kind `k` cannot take the rest of the path `path`: some
      segment of it would sit below a catch-all. */
  ghost function FreshBlocked(k: Kind, path: string): bool
    decreases |path|
  {
    if |path| == 0 then false
    else k == CatchAll || FreshBlocked(ClassifyKind(Split(path).0), Split(path).1)
  }

  /** Below a childless node, registration conflicts only with itself. */
  lemma FreshNodeBlocked(ns: seq<Node>, n: nat, path: string)
    requires Valid(ns) && n < |ns| && ns[n].children == []
    ensures Blocked(ns, n, path) == FreshBlocked(ns[n].kind, path)
  {
    if |path| > 0 {
      assert First(ns, ns[n].children, Complex).None?;
    }
  }

  /** `Match`: the literal child first, else the one complex child; a
      parameter binds its segment to the head, a catch-all binds its
      segment to the whole remaining path and ends the walk. */
  function Match(ns: seq<Node>, r: nat, path: string): (res: (Option<nat>, map<string, string>))
    requires Valid(ns) && r < |ns|
    ensures res.0.Some? ==> res.0.value < |ns|
    decreases |path|
  {
    if |path| == 0 then (Some(r), map[])
    else
      var (head, tail) := Split(path);
      match First(ns, ns[r].children, ByPath([head]))
      case Some(c) => Match(ns, c, tail)
      case None =>
        match First(ns, ns[r].children, Complex)
        case Some(c) =>
          if ns[c].kind == Parameter then
            var (h, sub) := Match(ns, c, tail);
            (h, map[ns[c].path := head] + sub)
          else
            (Some(c), map[ns[c].path := path])
        case None => (None, map[])
  }

  /** Matching a path that the literal walk follows to its end finds the
      same node and binds nothing: in particular every registered pattern
      matches itself. */
  lemma {:induction false} MatchLookup(ns: seq<Node>, r: nat, path: string)
    requires Valid(ns) && r < |ns| && Lookup(ns, r, path).Some?
    ensures Match(ns, r, path) == (Lookup(ns, r, path), map[])
    decreases |path|
  {
    if |path| > 0 {
      var (head, tail) := Split(path);
      var c := First(ns, ns[r].children, ByPath([head])).value;
      MatchLookup(ns, c, tail);
    }
  }

  /** Every key `Match` binds is a whole parameter or catch-all segment,
      `:` or `*` included. */
  lemma {:induction false} MatchKeysAreSegments(ns: seq<Node>, r: nat, path: string)
    requires Valid(ns) && r < |ns|
    ensures forall k | k in Match(ns, r, path).1 :: |k| > 0 && (k[0] == ':' || k[0] == '*')
    decreases |path|
  {
    if |path| > 0 {
      var (head, tail) := Split(path);
      match First(ns, ns[r].children, ByPath([head]))
      case Some(c) => MatchKeysAreSegments(ns, c, tail);
      case None =>
        match First(ns, ns[r].children, Complex)
        case Some(c) =>
          if ns[c].kind == Parameter {
            MatchKeysAreSegments(ns, c, tail);
          }
        case None =>
    }
  }

  /** In a linked arena the matched node lies in the subtree of `r`. */
  lemma {:induction false} MatchDescends(ns: seq<Node>, r: nat, path: string)
    requires Valid(ns) && Linked(ns) && r < |ns| && Match(ns, r, path).0.Some?
    ensures IsAncestorOrSelf(ns, r, Match(ns, r, path).0.value)
    decreases |path|
  {
    if |path| > 0 {
      var (head, tail) := Split(path);
      match First(ns, ns[r].children, ByPath([head]))
      case Some(c) =>
        MatchDescends(ns, c, tail);
        AncestorTransitive(ns, r, c, Match(ns, c, tail).0.value);
      case None =>
        var c := First(ns, ns[r].children, Complex).value;
        if ns[c].kind == Parameter {
          MatchDescends(ns, c, tail);
          AncestorTransitive(ns, r, c, Match(ns, c, tail).0.value);
        }
    }
  }

  // ---------------------------------------------------------------------
  // What a match means: substituting its bindings into the matched
  // pattern gives back the request path

  /** `a` lies on the branch from `r` (excluded) down to `n` (included). */
  ghost predicate OnBranch(ns: seq<Node>, r: nat, a: nat, n: nat)
    requires Valid(ns) && n < |ns|
  {
    a < |ns| && a != r && IsAncestorOrSelf(ns, a, n) && IsAncestorOrSelf(ns, r, a)
  }

  /** No two parameter or catch-all segments on the branch share a name. */
  ghost predicate UniqueNames(ns: seq<Node>, r: nat, n: nat)
    requires Valid(ns) && n < |ns|
  {
    forall a: nat, b: nat | OnBranch(ns, r, a, n) && OnBranch(ns, r, b, n) && a != b ::
      IsComplex(ns[a].kind) && IsComplex(ns[b].kind) ==> ns[a].path != ns[b].path
  }

  /** Some parameter or catch-all node on the branch has segment `k`. */
  ghost predicate NamedOnBranch(ns: seq<Node>, r: nat, n: nat, k: string)
    requires Valid(ns) && n < |ns|
  {
    exists a: nat | OnBranch(ns, r, a, n) :: IsComplex(ns[a].kind) && ns[a].path == k
  }

  /** A segment with its binding substituted, when it has one. */
  function Bound(node: Node, vars: map<string, string>): string {
    if node.kind != Static && node.path in vars then vars[node.path] else node.path
  }

  /** The pattern from below `r` down to `n`, with `vars` substituted. */
  ghost function Instantiate(ns: seq<Node>, r: nat, n: nat, vars: map<string, string>): string
    requires Valid(ns) && n < |ns| && IsAncestorOrSelf(ns, r, n)
    decreases n
  {
    if n == r then "" else Instantiate(ns, r, ns[n].parent.value, vars) + Bound(ns[n], vars)
  }

  lemma {:induction false} InstantiateSplit(ns: seq<Node>, r: nat, c: nat, n: nat, vars: map<string, string>)
    requires Valid(ns) && r < |ns| && c < |ns| && n < |ns|
    requires IsAncestorOrSelf(ns, r, c) && IsAncestorOrSelf(ns, c, n)
    ensures IsAncestorOrSelf(ns, r, n)
    ensures Instantiate(ns, r, n, vars) == Instantiate(ns, r, c, vars) + Instantiate(ns, c, n, vars)
    decreases n
  {
    AncestorTransitive(ns, r, c, n);
    if n != c {
      var p := ns[n].parent.value;
      AncestorPrefix(ns, r, c);
      AncestorPrefix(ns, c, n);
      AncestorTransitive(ns, r, c, p);
      InstantiateSplit(ns, r, c, p, vars);
    }
  }

  /** Substitution only reads the bindings of the branch's own segments. */
  lemma {:induction false} InstantiateAgree(ns: seq<Node>, r: nat, n: nat, v1: map<string, string>, v2: map<string, string>)
    requires Valid(ns) && n < |ns| && IsAncestorOrSelf(ns, r, n)
    requires forall a: nat | OnBranch(ns, r, a, n) :: Bound(ns[a], v1) == Bound(ns[a], v2)
    ensures Instantiate(ns, r, n, v1) == Instantiate(ns, r, n, v2)
    decreases n
  {
    if n != r {
      var p := ns[n].parent.value;
      assert OnBranch(ns, r, n, n);
      forall a: nat | OnBranch(ns, r, a, p) ensures Bound(ns[a], v1) == Bound(ns[a], v2) {
        AncestorTransitive(ns, a, p, n);
        assert OnBranch(ns, r, a, n);
      }
      InstantiateAgree(ns, r, p, v1, v2);
    }
  }

  /** The branch below a child `c` of `r` is part of the branch below `r`. */
  lemma BranchOfChild(ns: seq<Node>, r: nat, c: nat, n: nat)
    requires Valid(ns) && c < |ns| && n < |ns| && ns[c].parent == Some(r)
    requires IsAncestorOrSelf(ns, c, n)
    ensures OnBranch(ns, r, c, n)
    ensures forall a: nat | OnBranch(ns, c, a, n) :: OnBranch(ns, r, a, n)
  {
    assert IsAncestorOrSelf(ns, r, c);
    forall a: nat | OnBranch(ns, c, a, n) ensures OnBranch(ns, r, a, n) {
      AncestorTransitive(ns, r, c, a);
      AncestorPrefix(ns, c, a);
    }
  }

  /** The keys `Match` binds on success are segments of parameter or
      catch-all nodes on the matched branch. */
  lemma {:induction false} MatchKeysOnBranch(ns: seq<Node>, r: nat, path: string)
    requires Valid(ns) && Linked(ns) && r < |ns| && Match(ns, r, path).0.Some?
    ensures IsAncestorOrSelf(ns, r, Match(ns, r, path).0.value)
    ensures forall k | k in Match(ns, r, path).1 :: NamedOnBranch(ns, r, Match(ns, r, path).0.value, k)
    decreases |path|
  {
    MatchDescends(ns, r, path);
    if |path| > 0 {
      var n := Match(ns, r, path).0.value;
      var vars := Match(ns, r, path).1;
      var head := Split(path).0;
      var tail := Split(path).1;
      var lit := First(ns, ns[r].children, ByPath([head]));
      if lit.Some? {
        var c := lit.value;
        MatchKeysOnBranch(ns, c, tail);
        BranchOfChild(ns, r, c, n);
        forall k | k in vars ensures NamedOnBranch(ns, r, n, k) {
          var a: nat :| OnBranch(ns, c, a, n) && IsComplex(ns[a].kind) && ns[a].path == k;
          assert OnBranch(ns, r, a, n);
        }
      } else {
        var c := First(ns, ns[r].children, Complex).value;
        if ns[c].kind == Parameter {
          var sub := Match(ns, c, tail).1;
          assert vars == map[ns[c].path := head] + sub;
          MatchKeysOnBranch(ns, c, tail);
          BranchOfChild(ns, r, c, n);
          forall k | k in vars ensures NamedOnBranch(ns, r, n, k) {
            if k in sub {
              var a: nat :| OnBranch(ns, c, a, n) && IsComplex(ns[a].kind) && ns[a].path == k;
              assert OnBranch(ns, r, a, n);
            } else {
              assert OnBranch(ns, r, c, n) && IsComplex(ns[c].kind) && ns[c].path == k;
            }
          }
        } else {
          assert n == c && vars == map[ns[c].path := path];
          assert OnBranch(ns, r, c, n);
        }
      }
    }
  }

  /** Below a child `c` of `r`, the pattern is `c`'s segment followed by
      the pattern below `c`. */
  lemma InstantiateChild(ns: seq<Node>, r: nat, c: nat, n: nat, vars: map<string, string>)
    requires Valid(ns) && c < |ns| && n < |ns| && ns[c].parent == Some(r)
    requires IsAncestorOrSelf(ns, c, n)
    ensures IsAncestorOrSelf(ns, r, n)
    ensures Instantiate(ns, r, n, vars) == Bound(ns[c], vars) + Instantiate(ns, c, n, vars)
  {
    assert IsAncestorOrSelf(ns, r, c);
    InstantiateSplit(ns, r, c, n, vars);
  }

  /** The branch below a child has unique names when the longer one has. */
  lemma UniqueNamesOfChild(ns: seq<Node>, r: nat, c: nat, n: nat)
    requires Valid(ns) && c < |ns| && n < |ns| && ns[c].parent == Some(r)
    requires IsAncestorOrSelf(ns, c, n) && UniqueNames(ns, r, n)
    ensures UniqueNames(ns, c, n)
  {
    BranchOfChild(ns, r, c, n);
  }

  /** With unique names, no binding found below `c` is keyed by `c`'s own
      segment. */
  lemma NameNotRebound(ns: seq<Node>, r: nat, c: nat, n: nat, vars: map<string, string>)
    requires Valid(ns) && c < |ns| && n < |ns| && ns[c].parent == Some(r)
    requires IsAncestorOrSelf(ns, c, n) && UniqueNames(ns, r, n)
    requires forall k | k in vars :: NamedOnBranch(ns, c, n, k)
    ensures IsComplex(ns[c].kind) ==> ns[c].path !in vars
  {
    BranchOfChild(ns, r, c, n);
    forall k | k in vars ensures !IsComplex(ns[c].kind) || k != ns[c].path {
      var a: nat :| OnBranch(ns, c, a, n) && IsComplex(ns[a].kind) && ns[a].path == k;
      assert OnBranch(ns, r, a, n) && a != c;
    }
  }

  /** One step of `MatchInstantiates`: from the pattern below a child `c`
      of `r`, matched against `tail`, to the pattern below `r`. `extra` is
      the binding `c` itself adds, if any. */
  lemma InstantiateStep(ns: seq<Node>, r: nat, c: nat, n: nat, sub: map<string, string>,
                        extra: map<string, string>, tail: string)
    requires Valid(ns) && c < |ns| && n < |ns| && ns[c].parent == Some(r)
    requires IsAncestorOrSelf(ns, c, n) && UniqueNames(ns, r, n)
    requires forall k | k in sub :: NamedOnBranch(ns, c, n, k)
    requires Instantiate(ns, c, n, sub) == tail
    requires extra == map[] || (IsComplex(ns[c].kind) && extra.Keys == {ns[c].path})
    ensures IsAncestorOrSelf(ns, r, n)
    ensures Instantiate(ns, r, n, extra + sub) == Bound(ns[c], extra) + tail
  {
    var vars := extra + sub;
    NameNotRebound(ns, r, c, n, sub);
    InstantiateChild(ns, r, c, n, vars);
    BranchOfChild(ns, r, c, n);
    forall a: nat | OnBranch(ns, c, a, n) ensures Bound(ns[a], vars) == Bound(ns[a], sub) {
      assert OnBranch(ns, r, a, n) && a != c;
    }
    InstantiateAgree(ns, c, n, vars, sub);
  }

  /** Soundness of matching: when `Match` finds a node and the branch down
      to it has no repeated parameter names, substituting the bindings into
      the branch's segments gives back exactly the path that was matched. */
  lemma {:induction false} MatchInstantiates(ns: seq<Node>, r: nat, path: string)
    requires Valid(ns) && Linked(ns) && r < |ns| && Match(ns, r, path).0.Some?
    requires UniqueNames(ns, r, Match(ns, r, path).0.value)
    ensures IsAncestorOrSelf(ns, r, Match(ns, r, path).0.value)
    ensures Instantiate(ns, r, Match(ns, r, path).0.value, Match(ns, r, path).1) == path
    decreases |path|, 2
  {
    if |path| > 0 {
      var head := Split(path).0;
      var tail := Split(path).1;
      var lit := First(ns, ns[r].children, ByPath([head]));
      if lit.Some? {
        LiteralInstantiates(ns, r, path, lit.value);
      } else {
        ComplexInstantiates(ns, r, path, First(ns, ns[r].children, Complex).value);
      }
    }
  }

  /** `MatchInstantiates` when the head is a literal child `c` of `r`. */
  lemma {:induction false} LiteralInstantiates(ns: seq<Node>, r: nat, path: string, c: nat)
    requires Valid(ns) && Linked(ns) && r < |ns| && |path| > 0
    requires First(ns, ns[r].children, ByPath([Split(path).0])) == Some(c)
    requires Match(ns, r, path).0.Some?
    requires UniqueNames(ns, r, Match(ns, r, path).0.value)
    ensures IsAncestorOrSelf(ns, r, Match(ns, r, path).0.value)
    ensures Instantiate(ns, r, Match(ns, r, path).0.value, Match(ns, r, path).1) == path
    decreases |path|, 1
  {
    var head := Split(path).0;
    var tail := Split(path).1;
    assert Match(ns, r, path) == Match(ns, c, tail);
    StepInstantiates(ns, r, c, tail, map[]);
    assert map[] + Match(ns, c, tail).1 == Match(ns, c, tail).1;
    assert Bound(ns[c], map[]) == head;
  }

  /** `MatchInstantiates` when the head falls to the complex child `c`. */
  lemma {:induction false} ComplexInstantiates(ns: seq<Node>, r: nat, path: string, c: nat)
    requires Valid(ns) && Linked(ns) && r < |ns| && |path| > 0
    requires First(ns, ns[r].children, ByPath([Split(path).0])).None?
    requires First(ns, ns[r].children, Complex) == Some(c)
    requires Match(ns, r, path).0.Some?
    requires UniqueNames(ns, r, Match(ns, r, path).0.value)
    ensures IsAncestorOrSelf(ns, r, Match(ns, r, path).0.value)
    ensures Instantiate(ns, r, Match(ns, r, path).0.value, Match(ns, r, path).1) == path
    decreases |path|, 1
  {
    var head := Split(path).0;
    var tail := Split(path).1;
    if ns[c].kind == Parameter {
      assert Match(ns, r, path) == (Match(ns, c, tail).0, map[ns[c].path := head] + Match(ns, c, tail).1);
      StepInstantiates(ns, r, c, tail, map[ns[c].path := head]);
      assert Bound(ns[c], map[ns[c].path := head]) == head;
    } else {
      assert Match(ns, r, path) == (Some(c), map[ns[c].path := path]);
      InstantiateChild(ns, r, c, c, map[ns[c].path := path]);
    }
  }

  /** The inductive step of `MatchInstantiates` through the child `c`. */
  lemma {:induction false} StepInstantiates(ns: seq<Node>, r: nat, c: nat, tail: string, extra: map<string, string>)
    requires Valid(ns) && Linked(ns) && c < |ns| && ns[c].parent == Some(r)
    requires Match(ns, c, tail).0.Some?
    requires extra == map[] || (IsComplex(ns[c].kind) && extra.Keys == {ns[c].path})
    requires UniqueNames(ns, r, Match(ns, c, tail).0.value)
    ensures IsAncestorOrSelf(ns, r, Match(ns, c, tail).0.value)
    ensures Instantiate(ns, r, Match(ns, c, tail).0.value, extra + Match(ns, c, tail).1)
         == Bound(ns[c], extra) + tail
    decreases |tail|, 3
  {
    var n := Match(ns, c, tail).0.value;
    var sub := Match(ns, c, tail).1;
    MatchKeysOnBranch(ns, c, tail);
    UniqueNamesOfChild(ns, r, c, n);
    MatchInstantiates(ns, c, tail);
    InstantiateStep(ns, r, c, n, sub, extra, tail);
  }

  /** On the empty path `Match` stays where it is and binds nothing. */
  lemma MatchEmpty(ns: seq<Node>, r: nat)
    requires Valid(ns) && r < |ns|
    ensures Match(ns, r, "") == (Some(r), map[])
  {
  }

  /** A literally equal child is taken before any complex child, and there
      is no backtracking: when its subtree has no match, neither has `r`,
      even if a complex sibling would have fit. */
  lemma LiteralFirst(ns: seq<Node>, r: nat, path: string, c: nat)
    requires Valid(ns) && r < |ns| && |path| > 0
    requires c in ns[r].children && ns[c].path == Split(path).0
    requires DistinctSegments(ns)
    ensures Match(ns, r, path) == Match(ns, c, Split(path).1)
  {
    var rs := ns[r].children;
    var sel := ByPath([Split(path).0]);
    var j :| 0 <= j < |rs| && rs[j] == c;
    var k := FirstIndex(ns, rs, sel);
    assert Selects(sel, ns[c]);
    assert k <= j;
    assert ns[rs[k]].path == ns[rs[j]].path;
    assert k == j;
  }

  /** A parameter binds its whole segment to the head even when nothing
      below it matches the tail. */
  lemma ParameterBindsOnFailure(ns: seq<Node>, r: nat, path: string)
    requires Valid(ns) && r < |ns| && |path| > 0
    requires First(ns, ns[r].children, ByPath([Split(path).0])).None?
    requires First(ns, ns[r].children, Complex).Some?
    requires ns[First(ns, ns[r].children, Complex).value].kind == Parameter
    ensures var c := First(ns, ns[r].children, Complex).value;
      Match(ns, r, path).0 == Match(ns, c, Split(path).1).0 &&
      ns[c].path in Match(ns, r, path).1 &&
      (ns[c].path !in Match(ns, c, Split(path).1).1 ==> Match(ns, r, path).1[ns[c].path] == Split(path).0)
  {
  }

  /** A catch-all takes the entire remaining path and ends the walk. */
  lemma CatchAllTakesRest(ns: seq<Node>, r: nat, path: string)
    requires Valid(ns) && r < |ns| && |path| > 0
    requires First(ns, ns[r].children, ByPath([Split(path).0])).None?
    requires First(ns, ns[r].children, Complex).Some?
    requires ns[First(ns, ns[r].children, Complex).value].kind == CatchAll
    ensures var c := First(ns, ns[r].children, Complex).value;
      Match(ns, r, path) == (Some(c), map[ns[c].path := path])
  {
  }

  /** With neither a literal nor a complex child, nothing matches. */
  lemma NoChildNoMatch(ns: seq<Node>, r: nat, path: string)
    requires Valid(ns) && r < |ns| && |path| > 0
    requires forall j | 0 <= j < |ns[r].children| ::
      ns[ns[r].children[j]].path != Split(path).0 && !IsComplex(ns[ns[r].children[j]].kind)
    ensures Match(ns, r, path) == (None, map[])
  {
    var rs := ns[r].children;
    assert forall j | 0 <= j < |rs| :: !Selects(ByPath([Split(path).0]), ns[rs[j]]);
    assert forall j | 0 <= j < |rs| :: !Selects(Complex, ns[rs[j]]);
  }

  // ---------------------------------------------------------------------
  // Growing the tree

  /** `Append` as a value: `c` gets `r` as its parent and goes to the end
      of `r`'s children. */
  function Adopted(ns: seq<Node>, r: nat, c: nat): (ns': seq<Node>)
    requires r < |ns| && c < |ns|
    ensures |ns'| == |ns|
    ensures r != c ==> ns'[r] == ns[r].(children := ns[r].children + [c])
    ensures r != c ==> ns'[c] == ns[c].(parent := Some(r))
    ensures forall i | 0 <= i < |ns| && i != r && i != c :: ns'[i] == ns[i]
  {
    var ns1 := ns[c := ns[c].(parent := Some(r))];
    ns1[r := ns1[r].(children := ns1[r].children + [c])]
  }

  lemma AdoptedValid(ns: seq<Node>, r: nat, c: nat)
    requires Valid(ns) && r < c < |ns|
    ensures Valid(Adopted(ns, r, c))
  {
  }

  /** Whatever node `Append` lets through, each node keeps at most one
      complex child. */
  lemma AdoptedOneComplex(ns: seq<Node>, r: nat, c: nat)
    requires Valid(ns) && OneComplex(ns) && r < c < |ns|
    requires !(HasComplexChild(ns, r) && IsComplex(ns[c].kind))
    ensures OneComplex(Adopted(ns, r, c))
  {
    var ns' := Adopted(ns, r, c);
    var rs := ns[r].children;
    HasComplexChildMeans(ns, r);
    forall i, j, k |
      0 <= i < |ns'| && 0 <= j < k < |ns'[i].children| &&
      ns'[i].children[j] < |ns'| && ns'[i].children[k] < |ns'|
      ensures !(IsComplex(ns'[ns'[i].children[j]].kind) && IsComplex(ns'[ns'[i].children[k]].kind))
    {
      assert ns'[ns'[i].children[j]].kind == ns[ns'[i].children[j]].kind;
      assert ns'[ns'[i].children[k]].kind == ns[ns'[i].children[k]].kind;
      if i == r {
        assert ns'[i].children[j] == rs[j];
        if k < |rs| {
          assert ns'[i].children[k] == rs[k];
        } else {
          assert ns'[i].children[k] == c;
        }
      } else {
        assert ns'[i].children == ns[i].children;
      }
    }
  }

  /** A new node appended to the arena and adopted by `r`: the arena grows
      by that node and keeps everything it had. */
  lemma AdoptFresh(ns: seq<Node>, r: nat, head: string)
    requires Valid(ns) && r < |ns| && |head| > 0
    ensures Valid(ns + [NewNode(head)])
    ensures Valid(Adopted(ns + [NewNode(head)], r, |ns|))
    ensures Extends(ns, Adopted(ns + [NewNode(head)], r, |ns|))
    ensures Adopted(ns + [NewNode(head)], r, |ns|)[|ns|] == NewNode(head).(parent := Some(r))
    ensures Adopted(ns + [NewNode(head)], r, |ns|)[r].children == ns[r].children + [|ns|]
    ensures forall i | 0 <= i < |ns| && i != r :: Adopted(ns + [NewNode(head)], r, |ns|)[i] == ns[i]
  {
    AdoptedValid(ns + [NewNode(head)], r, |ns|);
  }

  lemma ExtendsTransitive(a: seq<Node>, b: seq<Node>, c: seq<Node>)
    requires Extends(a, b) && Extends(b, c)
    ensures Extends(a, c)
  {
    forall i | 0 <= i < |a| ensures a[i].children <= c[i].children {
      assert a[i].children <= b[i].children <= c[i].children;
    }
  }

  lemma ExtendsReflexive(a: seq<Node>)
    ensures Extends(a, a)
  {
  }

  /** What `Route(path)` does to the arena, called on `r`: the arena
      afterwards (new nodes up to a panic stay in it) and the node reached,
      or `NotPossible` for a panic. */
  function Register(ns: seq<Node>, r: nat, path: string): (res: (seq<Node>, Result<nat, Error>))
    requires Valid(ns) && r < |ns|
    ensures Valid(res.0) && Extends(ns, res.0)
    ensures res.1.Success? ==> res.1.value < |res.0|
    decreases |path|
  {
    if |path| == 0 then
      ExtendsReflexive(ns);
      (ns, Success(r))
    else
      var (head, tail) := Split(path);
      match First(ns, ns[r].children, ByPath([head]))
      case Some(c) => Register(ns, c, tail)
      case None =>
        if ns[r].kind == CatchAll then
          ExtendsReflexive(ns);
          (ns, Failure(NotPossible))
        else
          var ns1 := ns + [NewNode(head)];
          AdoptFresh(ns, r, head);
          if HasComplexChild(ns1, r) && IsComplex(ns1[|ns|].kind) then
            (ns1, Failure(NotPossible))
          else
            var ns2 := Adopted(ns1, r, |ns|);
            var res := Register(ns2, |ns|, tail);
            ExtendsTransitive(ns, ns2, res.0);
            res
  }

  /** A children list that has only been appended to. */
  lemma PrefixSplit(rs: seq<nat>, rs': seq<nat>)
    requires rs <= rs'
    ensures rs' == rs + rs'[|rs|..]
  {
  }

  /** Registration panics exactly when the path is blocked:
      `Route` reuses a literally equal child before any check, and panics
      only on a new segment below a catch-all or on a second complex child. */
  lemma {:induction false} RegisterFailsIffBlocked(ns: seq<Node>, r: nat, path: string)
    requires Valid(ns) && r < |ns|
    ensures Register(ns, r, path).1.Failure? <==> Blocked(ns, r, path)
    decreases |path|
  {
    if |path| > 0 {
      var head := Split(path).0;
      var tail := Split(path).1;
      var lit := First(ns, ns[r].children, ByPath([head]));
      if lit.Some? {
        RegisterFailsIffBlocked(ns, lit.value, tail);
      } else if ns[r].kind != CatchAll {
        var ns1 := ns + [NewNode(head)];
        AdoptFresh(ns, r, head);
        FirstStable(ns, ns1, ns[r].children, Complex);
        assert HasComplexChild(ns1, r) == HasComplexChild(ns, r);
        var ns2 := Adopted(ns1, r, |ns|);
        RegisterFailsIffBlocked(ns2, |ns|, tail);
        FreshNodeBlocked(ns2, |ns|, tail);
      }
    }
  }

  /** A path the literal walk already follows to its end registers nothing
      new: `Route` is idempotent. */
  lemma {:induction false} RegisterExisting(ns: seq<Node>, r: nat, path: string)
    requires Valid(ns) && r < |ns| && Lookup(ns, r, path).Some?
    ensures Register(ns, r, path) == (ns, Success(Lookup(ns, r, path).value))
    decreases |path|
  {
    if |path| > 0 {
      var head := Split(path).0;
      RegisterExisting(ns, First(ns, ns[r].children, ByPath([head])).value, Split(path).1);
    }
  }

  /** After a successful registration the literal walk leads to the node
      returned. */
  lemma {:induction false} RegisterReaches(ns: seq<Node>, r: nat, path: string)
    requires Valid(ns) && r < |ns| && Register(ns, r, path).1.Success?
    ensures Lookup(Register(ns, r, path).0, r, path) == Some(Register(ns, r, path).1.value)
    decreases |path|
  {
    if |path| > 0 {
      var head := Split(path).0;
      var tail := Split(path).1;
      var sel := ByPath([head]);
      var ns' := Register(ns, r, path).0;
      var rs := ns[r].children;
      assert rs <= ns'[r].children;
      PrefixSplit(rs, ns'[r].children);
      var more := ns'[r].children[|rs|..];
      assert InArena(ns', rs + more);
      var lit := First(ns, rs, sel);
      if lit.Some? {
        RegisterReaches(ns, lit.value, tail);
        FirstExtended(ns, ns', rs, more, sel);
      } else {
        var ns1 := ns + [NewNode(head)];
        AdoptFresh(ns, r, head);
        var ns2 := Adopted(ns1, r, |ns|);
        RegisterReaches(ns2, |ns|, tail);
        assert ns2[r].children <= ns'[r].children;
        assert more[0] == |ns|;
        FirstSkips(ns, ns', rs, more, sel);
        FirstIndexUnique(ns', more, sel, 0);
      }
    }
  }

  /** In a linked arena the literal walk along `path` ends at a node whose
      full path is `r`'s followed by `path`. */
  lemma {:induction false} LookupFullPath(ns: seq<Node>, r: nat, path: string)
    requires Valid(ns) && Linked(ns) && r < |ns| && Lookup(ns, r, path).Some?
    ensures FullPath(ns, Lookup(ns, r, path).value) == FullPath(ns, r) + path
    decreases |path|
  {
    if |path| > 0 {
      var head := Split(path).0;
      var tail := Split(path).1;
      var c := First(ns, ns[r].children, ByPath([head])).value;
      ListedChildPath(ns, r, c);
      LookupFullPath(ns, c, tail);
      PathAssoc(FullPath(ns, r), head, tail, path);
    }
  }

  lemma ListedChildPath(ns: seq<Node>, r: nat, c: nat)
    requires Valid(ns) && Linked(ns) && r < |ns| && c in ns[r].children
    ensures c < |ns| && FullPath(ns, c) == FullPath(ns, r) + ns[c].path
  {
    var j :| 0 <= j < |ns[r].children| && ns[r].children[j] == c;
    ChildPath(ns, r, j);
  }

  lemma PathAssoc(a: string, b: string, c: string, p: string)
    requires p == b + c
    ensures (a + b) + c == a + p
  {
  }

  /** Adopting a fresh, childless node that no one lists keeps the arena
      linked. */
  lemma AdoptFreshLinked(ns: seq<Node>, r: nat, head: string)
    requires Valid(ns) && Linked(ns) && r < |ns| && |head| > 0
    ensures Linked(Adopted(ns + [NewNode(head)], r, |ns|))
  {
    AdoptFresh(ns, r, head);
  }

  /** Adopting a fresh node keeps at most one complex child per node when
      `Append` let it through. */
  lemma AdoptFreshOneComplex(ns: seq<Node>, r: nat, head: string)
    requires Valid(ns) && OneComplex(ns) && r < |ns| && |head| > 0
    requires !(HasComplexChild(ns, r) && IsComplex(ClassifyKind(head)))
    ensures OneComplex(Adopted(ns + [NewNode(head)], r, |ns|))
  {
    var ns2 := Adopted(ns + [NewNode(head)], r, |ns|);
    AdoptFresh(ns, r, head);
    HasComplexChildMeans(ns, r);
    var rs := ns[r].children;
    forall i, j, k |
      0 <= i < |ns2| && 0 <= j < k < |ns2[i].children| &&
      ns2[i].children[j] < |ns2| && ns2[i].children[k] < |ns2|
      ensures !(IsComplex(ns2[ns2[i].children[j]].kind) && IsComplex(ns2[ns2[i].children[k]].kind))
    {
      if i == r && k == |rs| {
        assert ns2[i].children[j] == rs[j];
        assert ns2[rs[j]].kind == ns[rs[j]].kind;
      }
    }
  }

  /** Adopting a fresh node whose segment no sibling has keeps the
      segments distinct. */
  lemma AdoptFreshDistinct(ns: seq<Node>, r: nat, head: string)
    requires Valid(ns) && DistinctSegments(ns) && r < |ns| && |head| > 0
    requires First(ns, ns[r].children, ByPath([head])).None?
    ensures DistinctSegments(Adopted(ns + [NewNode(head)], r, |ns|))
  {
    var ns2 := Adopted(ns + [NewNode(head)], r, |ns|);
    AdoptFresh(ns, r, head);
    var rs := ns[r].children;
    forall i, j, k |
      0 <= i < |ns2| && 0 <= j < k < |ns2[i].children| &&
      ns2[i].children[j] < |ns2| && ns2[i].children[k] < |ns2|
      ensures ns2[ns2[i].children[j]].path != ns2[ns2[i].children[k]].path
    {
      if i == r && k == |rs| {
        assert ns2[i].children[j] == rs[j];
        assert !Selects(ByPath([head]), ns[rs[j]]);
      }
    }
  }

  /** A new node on its own keeps every structural rule. */
  lemma FreshWellFormed(ns: seq<Node>, head: string)
    requires WellFormed(ns) && |head| > 0
    ensures WellFormed(ns + [NewNode(head)])
  {
  }

  /** `Append` of a new node, when `Route` lets it happen, keeps every
      structural rule. */
  lemma AdoptFreshWellFormed(ns: seq<Node>, r: nat, head: string)
    requires WellFormed(ns) && r < |ns| && |head| > 0 && ns[r].kind != CatchAll
    requires First(ns, ns[r].children, ByPath([head])).None?
    requires !(HasComplexChild(ns, r) && IsComplex(ClassifyKind(head)))
    ensures WellFormed(Adopted(ns + [NewNode(head)], r, |ns|))
  {
    AdoptFresh(ns, r, head);
    AdoptFreshLinked(ns, r, head);
    AdoptFreshOneComplex(ns, r, head);
    AdoptFreshDistinct(ns, r, head);
  }

  /** Registration keeps every structural rule of the tree. */
  lemma {:induction false} RegisterWellFormed(ns: seq<Node>, r: nat, path: string)
    requires WellFormed(ns) && r < |ns|
    ensures WellFormed(Register(ns, r, path).0)
    decreases |path|
  {
    if |path| > 0 {
      var head := Split(path).0;
      var tail := Split(path).1;
      var lit := First(ns, ns[r].children, ByPath([head]));
      if lit.Some? {
        RegisterWellFormed(ns, lit.value, tail);
      } else if ns[r].kind != CatchAll {
        var ns1 := ns + [NewNode(head)];
        AdoptFresh(ns, r, head);
        FirstStable(ns, ns1, ns[r].children, Complex);
        if !(HasComplexChild(ns1, r) && IsComplex(ns1[|ns|].kind)) {
          var ns2 := Adopted(ns1, r, |ns|);
          AdoptFreshWellFormed(ns, r, head);
          RegisterWellFormed(ns2, |ns|, tail);
          assert Register(ns, r, path) == Register(ns2, |ns|, tail);
        } else {
          FreshWellFormed(ns, head);
          assert Register(ns, r, path).0 == ns1;
        }
      }
    }
  }

  /** `r.Route(p)` returns a node whose full path is `r`'s followed by `p`. */
  lemma RegisterFullPath(ns: seq<Node>, r: nat, path: string)
    requires WellFormed(ns) && r < |ns| && Register(ns, r, path).1.Success?
    ensures FullPath(Register(ns, r, path).0, Register(ns, r, path).1.value) == FullPath(ns, r) + path
  {
    var ns' := Register(ns, r, path).0;
    RegisterWellFormed(ns, r, path);
    RegisterReaches(ns, r, path);
    LookupFullPath(ns', r, path);
    ExtendsKeepsPaths(ns, ns', r);
  }

  /** Registering the same path a second time returns the same node and
      leaves the arena as it is. */
  lemma RegisterTwice(ns: seq<Node>, r: nat, path: string)
    requires Valid(ns) && r < |ns| && Register(ns, r, path).1.Success?
    ensures var (ns', res) := Register(ns, r, path); Register(ns', r, path) == (ns', res)
  {
    RegisterReaches(ns, r, path);
    RegisterExisting(Register(ns, r, path).0, r, path);
  }

  /** The names `Kind.String` gives tell the kinds apart. */
  lemma KindNamesDistinct(a: Kind, b: Kind)
    ensures KindName(a) == KindName(b) <==> a == b
  {
  }

  // ---------------------------------------------------------------------
  // Replacing a node in place: `Set`

  /** `Set(nr)` as a value: `r` takes `nr`'s kind, children and handlers,
      keeps its segment and parent, and every adopted child points at `r`.
      `nr` itself is left as it was, still listing the same children. */
  function Replaced(ns: seq<Node>, r: nat, nr: nat): (ns': seq<Node>)
    requires r < |ns| && nr < |ns|
    ensures |ns'| == |ns|
    ensures forall i | 0 <= i < |ns| && i != r && i in ns[nr].children :: ns'[i] == ns[i].(parent := Some(r))
    ensures forall i | 0 <= i < |ns| && i != r && i !in ns[nr].children :: ns'[i] == ns[i]
  {
    var cs := ns[nr].children;
    seq(|ns|, i requires 0 <= i < |ns| =>
      if i == r then ns[r].(kind := ns[nr].kind, children := cs, handlers := ns[nr].handlers)
      else if i in cs then ns[i].(parent := Some(r))
      else ns[i])
  }

  /** What `Set` promises about the node it changes and the children it
      adopts; with `nr` newer than `r` the arena stays valid. */
  lemma ReplacedMeans(ns: seq<Node>, r: nat, nr: nat)
    requires Valid(ns) && r < nr < |ns| && ns[r].path == ns[nr].path
    ensures Valid(Replaced(ns, r, nr))
    ensures var ns' := Replaced(ns, r, nr);
      ns'[r].path == ns[r].path && ns'[r].parent == ns[r].parent &&
      ns'[r].kind == ns[nr].kind && ns'[r].children == ns[nr].children &&
      ns'[r].handlers == ns[nr].handlers &&
      (forall j | 0 <= j < |ns'[r].children| :: ns'[ns'[r].children[j]].parent == Some(r))
  {
  }

  /** Two arenas agree on segment, kind and children from node `x` on. */
  ghost predicate SameShapeFrom(ns: seq<Node>, ns': seq<Node>, x: nat) {
    |ns| == |ns'| &&
    forall i | x <= i < |ns| ::
      ns'[i].path == ns[i].path && ns'[i].kind == ns[i].kind && ns'[i].children == ns[i].children
  }

  lemma FirstSameShape(ns: seq<Node>, ns': seq<Node>, rs: seq<nat>, sel: Selector, x: nat)
    requires SameShapeFrom(ns, ns', x) && InArena(ns, rs)
    requires forall j | 0 <= j < |rs| :: x <= rs[j]
    ensures InArena(ns', rs) && First(ns', rs, sel) == First(ns, rs, sel)
  {
    FirstIndexUnique(ns', rs, sel, FirstIndex(ns, rs, sel));
  }

  /** `Match` reads only segments, kinds and children, and only of the
      subtree it walks. */
  lemma {:induction false} MatchSameShape(ns: seq<Node>, ns': seq<Node>, x: nat, path: string)
    requires Valid(ns) && Valid(ns') && x < |ns| && SameShapeFrom(ns, ns', x)
    ensures Match(ns', x, path) == Match(ns, x, path)
    decreases |path|
  {
    if |path| > 0 {
      var head := Split(path).0;
      var tail := Split(path).1;
      var rs := ns[x].children;
      FirstSameShape(ns, ns', rs, ByPath([head]), x);
      FirstSameShape(ns, ns', rs, Complex, x);
      var lit := First(ns, rs, ByPath([head]));
      var cx := First(ns, rs, Complex);
      if lit.Some? {
        MatchSameShape(ns, ns', lit.value, tail);
      } else if cx.Some? {
        MatchSameShape(ns, ns', cx.value, tail);
      }
    }
  }

  /** Two nodes with the same children list, in arenas that agree below
      them, match every non-empty path alike. */
  lemma {:induction false} MatchSameChildren(ns: seq<Node>, ns': seq<Node>, x: nat, y: nat, path: string)
    requires Valid(ns) && Valid(ns') && x < |ns'| && y < |ns| && |path| > 0
    requires ns'[x].children == ns[y].children && SameShapeFrom(ns, ns', y + 1)
    ensures Match(ns', x, path) == Match(ns, y, path)
  {
    var head := Split(path).0;
    var tail := Split(path).1;
    var rs := ns[y].children;
    FirstSameShape(ns, ns', rs, ByPath([head]), y + 1);
    FirstSameShape(ns, ns', rs, Complex, y + 1);
    var lit := First(ns, rs, ByPath([head]));
    var cx := First(ns, rs, Complex);
    if lit.Some? {
      assert lit.value in rs;
      MatchSameShape(ns, ns', lit.value, tail);
    } else if cx.Some? {
      assert cx.value in rs;
      MatchSameShape(ns, ns', cx.value, tail);
    }
  }

  lemma ReplacedShape(ns: seq<Node>, r: nat, nr: nat)
    requires r < nr < |ns|
    ensures SameShapeFrom(ns, Replaced(ns, r, nr), nr + 1)
    ensures Replaced(ns, r, nr)[r].children == ns[nr].children
  {
  }

  /** After `Set`, matching a non-empty path below `r` behaves exactly as
      matching it below the replacement did. */
  lemma SetMatchesLikeReplacement(ns: seq<Node>, r: nat, nr: nat, path: string)
    requires Valid(ns) && r < nr < |ns| && ns[r].path == ns[nr].path && |path| > 0
    ensures Valid(Replaced(ns, r, nr))
    ensures Match(Replaced(ns, r, nr), r, path) == Match(ns, nr, path)
  {
    ReplacedMeans(ns, r, nr);
    ReplacedShape(ns, r, nr);
    MatchSameChildren(ns, Replaced(ns, r, nr), r, nr, path);
  }

  // ---------------------------------------------------------------------
  // Handlers

  /** `SetHandler(m, h)` as a value. */
  function WithHandler(ns: seq<Node>, r: nat, m: string, h: Handler): (ns': seq<Node>)
    requires r < |ns|
    ensures |ns'| == |ns|
  {
    ns[r := ns[r].(handlers := ns[r].handlers[m := h])]
  }

  /** The last `SetHandler` for a method wins, and no other method, no
      other node and nothing else about `r` changes. */
  lemma WithHandlerMeans(ns: seq<Node>, r: nat, m: string, h: Handler)
    requires r < |ns|
    ensures HandlerFor(WithHandler(ns, r, m, h), r, m) == Some(h)
    ensures forall m' | m' != m :: HandlerFor(WithHandler(ns, r, m, h), r, m') == HandlerFor(ns, r, m')
    ensures forall i | 0 <= i < |ns| && i != r :: WithHandler(ns, r, m, h)[i] == ns[i]
    ensures WithHandler(ns, r, m, h)[r].(handlers := ns[r].handlers) == ns[r]
    ensures Valid(ns) ==> Valid(WithHandler(ns, r, m, h))
  {
  }

  /** `Methods` is unique: any strictly sorted list of the registered
      methods is the one `MethodList` gives. */
  lemma MethodListUnique(handlers: map<string, Handler>, ms: seq<string>)
    requires Text.StrictlySorted(ms) && forall m :: m in ms <==> m in handlers
    ensures ms == MethodList(handlers)
  {
    Text.StrictlySortedUnique(ms, MethodList(handlers));
  }

  // ---------------------------------------------------------------------
  // Registered routes stay registered

  /** A tree that only grew keeps every literal path it had. */
  lemma {:induction false} LookupStable(ns: seq<Node>, ns': seq<Node>, r: nat, p: string)
    requires Valid(ns) && Valid(ns') && Extends(ns, ns') && r < |ns| && Lookup(ns, r, p).Some?
    ensures Lookup(ns', r, p) == Lookup(ns, r, p)
    decreases |p|
  {
    if |p| > 0 {
      var (head, tail) := Split(p);
      var rs := ns[r].children;
      var c := First(ns, rs, ByPath([head])).value;
      PrefixSplit(rs, ns'[r].children);
      var more := ns'[r].children[|rs|..];
      assert InArena(ns', rs + more);
      FirstExtended(ns, ns', rs, more, ByPath([head]));
      LookupStable(ns, ns', c, tail);
    }
  }

  /** Literal lookups read only segments and children lists. */
  lemma {:induction false} LookupSameShape(ns: seq<Node>, ns': seq<Node>, r: nat, p: string)
    requires Valid(ns) && Valid(ns') && r < |ns| && SameShapeFrom(ns, ns', 0)
    ensures Lookup(ns', r, p) == Lookup(ns, r, p)
    decreases |p|
  {
    if |p| > 0 {
      var (head, tail) := Split(p);
      FirstSameShape(ns, ns', ns[r].children, ByPath([head]), 0);
      match First(ns, ns[r].children, ByPath([head]))
      case Some(c) => LookupSameShape(ns, ns', c, tail);
      case None =>
    }
  }

  /** The literal path `p` below `r` leads to a node with handler `h` for
      method `m`. */
  ghost predicate Served(ns: seq<Node>, r: nat, p: string, m: string, h: Handler)
    requires Valid(ns) && r < |ns|
  {
    Lookup(ns, r, p).Some? && HandlerFor(ns, Lookup(ns, r, p).value, m) == Some(h)
  }

  /** A further registration, of any path below any node, successful or
      not, keeps every route served as it was. */
  lemma ServedAfterRegister(ns: seq<Node>, r: nat, p: string, m: string, h: Handler, x: nat, q: string)
    requires Valid(ns) && r < |ns| && x < |ns| && Served(ns, r, p, m, h)
    ensures Served(Register(ns, x, q).0, r, p, m, h)
  {
    LookupStable(ns, Register(ns, x, q).0, r, p);
  }

  /** A further `SetHandler` changes what a served route answers only when
      it sets the same method on the same node, and then the new handler
      wins. */
  lemma ServedAfterSetHandler(ns: seq<Node>, r: nat, p: string, m: string, h: Handler,
                              x: nat, m': string, h': Handler)
    requires Valid(ns) && r < |ns| && x < |ns| && Served(ns, r, p, m, h)
    ensures Valid(WithHandler(ns, x, m', h'))
    ensures Served(WithHandler(ns, x, m', h'), r, p, m,
                   if x == Lookup(ns, r, p).value && m' == m then h' else h)
  {
    var ns' := WithHandler(ns, x, m', h');
    WithHandlerMeans(ns, x, m', h');
    assert SameShapeFrom(ns, ns', 0);
    LookupSameShape(ns, ns', r, p);
  }

  /** `Route(p)` followed by `SetHandler(m, h)` on the node it returns
      serves `h` for `m` on `p`. */
  lemma RegisterThenServed(ns: seq<Node>, r: nat, p: string, m: string, h: Handler)
    requires Valid(ns) && r < |ns| && Register(ns, r, p).1.Success?
    ensures var (ns1, res) := Register(ns, r, p);
      Valid(WithHandler(ns1, res.value, m, h)) && Served(WithHandler(ns1, res.value, m, h), r, p, m, h)
  {
    var (ns1, res) := Register(ns, r, p);
    var ns2 := WithHandler(ns1, res.value, m, h);
    WithHandlerMeans(ns1, res.value, m, h);
    RegisterReaches(ns, r, p);
    assert SameShapeFrom(ns1, ns2, 0);
    LookupSameShape(ns1, ns2, r, p);
  }

  // ---------------------------------------------------------------------
  // The tree as mutable state

  /** The arena of `Route` objects that route.go mutates through pointers. */
  class RouteTree {
    var nodes: seq<Node>

    constructor ()
      ensures nodes == []
    {
      nodes := [];
    }

    /** `NewRoute(path)`: a new node, not yet part of any tree. */
    method NewRoute(path: string) returns (c: nat)
      requires Valid(nodes) && |path| > 0
      modifies this
      ensures Valid(nodes)
      ensures c == |old(nodes)| && nodes == old(nodes) + [NewNode(path)]
    {
      c := |nodes|;
      nodes := nodes + [NewNode(path)];
    }

    /** `r.Append(child)`. */
    method Append(r: nat, child: nat) returns (res: Outcome<Error>)
      requires Valid(nodes) && r < child < |nodes|
      modifies this
      ensures Valid(nodes)
      ensures res.Fail? <==> HasComplexChild(old(nodes), r) && IsComplex(old(nodes)[child].kind)
      ensures res.Fail? ==> res.error == NotPossible && nodes == old(nodes)
      ensures res.Pass? ==> nodes == Adopted(old(nodes), r, child)
      ensures OneComplex(old(nodes)) ==> OneComplex(nodes)
    {
      var complex := FindOne(nodes, nodes[r].children, Complex);
      if complex.Some? && IsComplex(nodes[child].kind) {
        return Fail(NotPossible);
      }
      AdoptedValid(nodes, r, child);
      if OneComplex(nodes) {
        AdoptedOneComplex(nodes, r, child);
      }
      var n := nodes[child].(parent := Some(r));
      nodes := nodes[child := n];
      nodes := nodes[r := nodes[r].(children := nodes[r].children + [child])];
      return Pass;
    }

    /** `r.Route(path)`: the node for `path` below `r`, created segment by
        segment where missing; a panic is `Failure(NotPossible)`. */
    method Route(r: nat, path: string) returns (res: Result<nat, Error>)
      requires Valid(nodes) && r < |nodes|
      modifies this
      ensures (nodes, res) == Register(old(nodes), r, path)
      decreases |path|
    {
      var head, tail := ScanSplit(path);
      if |head| > 0 {
        var lit := FindOne(nodes, nodes[r].children, ByPath([head]));
        if lit.Some? {
          res := Route(lit.value, tail);
          return;
        }
        if nodes[r].kind == CatchAll {
          return Failure(NotPossible);
        }
        ghost var before := nodes;
        var c := NewRoute(head);
        FirstStable(before, nodes, before[r].children, Complex);
        var err := Append(r, c);
        if err.Fail? {
          return Failure(err.error);
        }
        res := Route(c, tail);
        return;
      }
      return Success(r);
    }

    /** `r.Set(nr)`. */
    method Set(r: nat, nr: nat) returns (res: Outcome<Error>)
      requires Valid(nodes) && r < nr < |nodes|
      modifies this
      ensures Valid(nodes)
      ensures res.Fail? <==> old(nodes)[r].path != old(nodes)[nr].path
      ensures res.Fail? ==> res.error == IncorrectPath && nodes == old(nodes)
      ensures res.Pass? ==> nodes == Replaced(old(nodes), r, nr)
    {
      if nodes[r].path != nodes[nr].path {
        return Fail(IncorrectPath);
      }
      ghost var ns := nodes;
      var cs, hs := nodes[nr].children, nodes[nr].handlers;
      nodes := nodes[r := nodes[r].(kind := nodes[nr].kind, children := cs)];
      var i := 0;
      while i < |cs|
        invariant 0 <= i <= |cs| && |nodes| == |ns|
        invariant nodes[r] == ns[r].(kind := ns[nr].kind, children := cs)
        invariant forall k | 0 <= k < |ns| && k != r ::
          nodes[k] == if k in cs[..i] then ns[k].(parent := Some(r)) else ns[k]
      {
        assert nr < cs[i];
        nodes := nodes[cs[i] := nodes[cs[i]].(parent := Some(r))];
        assert cs[..i + 1] == cs[..i] + [cs[i]];
        i := i + 1;
      }
      nodes := nodes[r := nodes[r].(handlers := hs)];
      assert cs[..|cs|] == cs;
      assert nodes == Replaced(ns, r, nr);
      ReplacedMeans(ns, r, nr);
      return Pass;
    }

    /** `r.SetHandler(m, h)`. */
    method SetHandler(r: nat, m: string, h: Handler)
      requires Valid(nodes) && r < |nodes|
      modifies this
      ensures Valid(nodes)
      ensures nodes == WithHandler(old(nodes), r, m, h)
    {
      nodes := nodes[r := nodes[r].(handlers := nodes[r].handlers[m := h])];
    }

    /** `r.Methods()`: the registered methods, collected one by one in
        whatever order the map yields them, then sorted. */
    method Methods(r: nat) returns (ms: seq<string>)
      requires r < |nodes|
      ensures ms == MethodList(nodes[r].handlers)
    {
      var handlers := nodes[r].handlers;
      var left := handlers.Keys;
      ms := [];
      while left != {}
        invariant left <= handlers.Keys
        invariant multiset(ms) + multiset(left) == multiset(handlers.Keys)
        decreases |left|
      {
        var m :| m in left;
        ms := ms + [m];
        left := left - {m};
      }
      var collected := ms;
      ms := Text.Sort(collected, Text.Id);
      Text.SortSorted(collected, Text.Id);
      Text.SortedSetIsStrict(ms, handlers.Keys);
      MethodListUnique(handlers, ms);
    }

    /** `r.Siblings()`: the other children of `r`'s parent, in order. */
    method Siblings(r: nat) returns (sibs: seq<nat>)
      requires Valid(nodes) && r < |nodes|
      ensures IsRoot(nodes, r) ==> sibs == []
      ensures !IsRoot(nodes, r) ==> sibs == Without(nodes[nodes[r].parent.value].children, r)
    {
      if nodes[r].parent.None? {
        return [];
      }
      var cs := nodes[nodes[r].parent.value].children;
      sibs := [];
      var i := 0;
      while i < |cs|
        invariant 0 <= i <= |cs|
        invariant sibs == Without(cs[..i], r)
      {
        assert cs[..i + 1][..i] == cs[..i];
        if cs[i] != r {
          sibs := sibs + [cs[i]];
        }
        i := i + 1;
      }
      assert cs[..|cs|] == cs;
    }
  }
}
