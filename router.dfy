/** The `Router` of router.go: a lazily created root route, registration
    below it, the request dispatch of `ServeHTTP` and the `String` dump. */
module Routers {
  import opened Wrappers
  import opened Http
  import opened Routes
  import TreeViz
  import Cors
  import Text

  /** The root `Route` creates: segment `/`, the zero kind (Static), no
      parent, no children and no handlers. */
  const RootNode := Node("/", Static, None, [], map[])

  /** `strings.HasPrefix(path, "/")` and `path[1:]`: at most one leading
      slash comes off. */
  function Strip(path: string): (p: string)
    ensures |path| > 0 && path[0] == '/' ==> path == "/" + p
    ensures !(|path| > 0 && path[0] == '/') ==> p == path
  {
    if |path| > 0 && path[0] == '/' then path[1..] else path
  }

  /** `"/a"` and `"a"` are registered at the same place. */
  lemma StripSlash(p: string)
    requires !(|p| > 0 && p[0] == '/')
    ensures Strip("/" + p) == Strip(p) == p
  {
  }

  /** Creating the root keeps the structural rules of the tree. */
  lemma RootedWellFormed(ns: seq<Node>, root: Option<nat>)
    requires WellFormed(ns)
    ensures WellFormed(Rooted(ns, root))
  {
    FreshWellFormed(ns, "/");
    assert NewNode("/") == RootNode;
  }

  /** The node `Route(path)` returns has full path `"/"` followed by the
      path without its leading slash. */
  lemma RouteFullPath(ns: seq<Node>, root: nat, path: string)
    requires WellFormed(ns) && root < |ns| && ns[root].parent.None? && ns[root].path == "/"
    requires Register(ns, root, Strip(path)).1.Success?
    ensures FullPath(Register(ns, root, Strip(path)).0, Register(ns, root, Strip(path)).1.value) == "/" + Strip(path)
  {
    RegisterFullPath(ns, root, Strip(path));
  }

  /** The arena once the root exists. */
  function Rooted(ns: seq<Node>, root: Option<nat>): (ns': seq<Node>)
    ensures |ns'| == if root.None? then |ns| + 1 else |ns|
    ensures ns'[..|ns|] == ns
    ensures root.None? ==> ns'[|ns|] == NewNode("/")
  {
    if root.None? then ns + [RootNode] else ns
  }

  /** The answer `ServeHTTP` gives a request. */
  datatype Response =
    | NotFound
    | Options(allow: seq<string>)
    | Dispatch(handler: Handler, vars: map<string, string>)

  /** The dispatch decision for a request with method `verb` and URL path
      `path` (which must be non-empty: its first character is cut off). */
  ghost function Decide(ns: seq<Node>, root: Option<nat>, verb: string, path: string): Response
    requires Valid(ns) && (root.Some? ==> root.value < |ns|) && |path| > 0
  {
    if root.None? then NotFound
    else
      var (route, vars) := Match(ns, root.value, path[1..]);
      if route.None? then NotFound
      else match HandlerFor(ns, route.value, verb)
        case Some(h) => Dispatch(h, vars)
        case None =>
          if verb == MethodOptions then Options(MethodList(ns[route.value].handlers) + [MethodOptions])
          else NotFound
  }

  /** Not found exactly when there is no root, no matching node, or the
      node has no handler for a method other than `OPTIONS`. */
  lemma NotFoundWhen(ns: seq<Node>, root: Option<nat>, verb: string, path: string)
    requires Valid(ns) && (root.Some? ==> root.value < |ns|) && |path| > 0
    ensures Decide(ns, root, verb, path) == NotFound <==>
      root.None? || Match(ns, root.value, path[1..]).0.None? ||
      (HandlerFor(ns, Match(ns, root.value, path[1..]).0.value, verb).None? && verb != MethodOptions)
  {
  }

  /** A dispatch calls the handler stored for that exact method on the
      matched node, with the bindings of the match. */
  lemma DispatchExact(ns: seq<Node>, root: Option<nat>, verb: string, path: string)
    requires Valid(ns) && (root.Some? ==> root.value < |ns|) && |path| > 0
    requires Decide(ns, root, verb, path).Dispatch?
    ensures root.Some? && Match(ns, root.value, path[1..]).0.Some?
    ensures var n := Match(ns, root.value, path[1..]).0.value;
      verb in ns[n].handlers &&
      Decide(ns, root, verb, path) == Dispatch(ns[n].handlers[verb], Match(ns, root.value, path[1..]).1)
  {
  }

  /** The automatic `OPTIONS` answer lists the node's methods in order and
      then `OPTIONS`, each once. */
  lemma OptionsList(ns: seq<Node>, root: Option<nat>, verb: string, path: string)
    requires Valid(ns) && (root.Some? ==> root.value < |ns|) && |path| > 0
    requires Decide(ns, root, verb, path).Options?
    ensures verb == MethodOptions
    ensures var allow := Decide(ns, root, verb, path).allow;
      |allow| > 0 && allow[|allow| - 1] == MethodOptions &&
      Text.StrictlySorted(allow[..|allow| - 1]) &&
      forall i, j | 0 <= i < j < |allow| :: allow[i] != allow[j]
  {
    var n := Match(ns, root.value, path[1..]).0.value;
    var ms := MethodList(ns[n].handlers);
    var allow := ms + [MethodOptions];
    assert allow[..|allow| - 1] == ms;
    forall i, j | 0 <= i < j < |allow| ensures allow[i] != allow[j] {
      if j < |ms| {
        Text.LessAsymmetric(ms[i], ms[j]);
      } else {
        assert allow[i] in ms;
      }
    }
  }

  /** A served literal path is dispatched to its handler without bindings. */
  lemma ServedIsDispatched(ns: seq<Node>, r: nat, p: string, m: string, h: Handler)
    requires Valid(ns) && r < |ns| && Served(ns, r, p, m, h)
    ensures Decide(ns, Some(r), m, "/" + p) == Dispatch(h, map[])
  {
    assert ("/" + p)[1..] == p;
    MatchLookup(ns, r, p);
  }

  /** End to end: after `Route(p)` and a `SetHandler(m, h)` on the node it
      returns, a request for `m` on `"/" + p` is dispatched to `h` without bindings. */
  lemma RegisteredIsServed(ns: seq<Node>, r: nat, p: string, m: string, h: Handler)
    requires Valid(ns) && r < |ns| && Register(ns, r, p).1.Success?
    ensures var (ns1, res) := Register(ns, r, p);
      Decide(WithHandler(ns1, res.value, m, h), Some(r), m, "/" + p) == Dispatch(h, map[])
  {
    var (ns1, res) := Register(ns, r, p);
    RegisterThenServed(ns, r, p, m, h);
    ServedIsDispatched(WithHandler(ns1, res.value, m, h), r, p, m, h);
  }

  /** Incremental registration: a route that is served stays dispatched to
      the same handler after any further `Route(q)`, whatever `q` is and
      whether or not it panics. */
  lemma StillServed(ns: seq<Node>, r: nat, p: string, m: string, h: Handler, x: nat, q: string)
    requires Valid(ns) && r < |ns| && x < |ns| && Served(ns, r, p, m, h)
    ensures Decide(Register(ns, x, q).0, Some(r), m, "/" + p) == Dispatch(h, map[])
  {
    ServedAfterRegister(ns, r, p, m, h, x, q);
    ServedIsDispatched(Register(ns, x, q).0, r, p, m, h);
  }

  /** A valid arena whose root, once made, is a parentless `/` node. */
  ghost predicate RootedAt(ns: seq<Node>, root: Option<nat>) {
    Valid(ns) &&
    (root.Some? ==> root.value < |ns| && ns[root.value].parent.None? && ns[root.value].path == "/")
  }

  /** The dump keeps the root where it was, and a well-formed arena well
      formed. */
  lemma DumpKeepsRoot(ns: seq<Node>, root: nat)
    requires RootedAt(ns, Some(root))
    ensures RootedAt(TreeViz.Viz(ns, root).1, Some(root))
    ensures WellFormed(ns) ==> WellFormed(TreeViz.Viz(ns, root).1)
  {
    if WellFormed(ns) {
      TreeViz.VizKeepsWellFormed(ns, root);
    }
  }

  /** Mounting a subtree with `Set` keeps a router usable: the arena stays
      valid and the root a parentless `/` node, as long as the root is not
      one of the adopted children. */
  lemma MountKeepsRoot(ns: seq<Node>, root: nat, r: nat, nr: nat)
    requires RootedAt(ns, Some(root)) && r < nr < |ns| && ns[r].path == ns[nr].path
    requires root !in ns[nr].children
    ensures RootedAt(Replaced(ns, r, nr), Some(root))
  {
    ReplacedMeans(ns, r, nr);
  }

  /** The dashed line around the `String` dump. */
  const Rule := Text.Repeat('-', 75) + "\n"

  class Router {
    var tree: RouteTree
    var root: Option<nat>

    /** The root, once made, is a parentless `/` node of a valid arena. */
    ghost predicate Ready()
      reads this, tree
    {
      RootedAt(tree.nodes, root)
    }

    /** `New()`. */
    constructor ()
      ensures Ready() && root == None && fresh(tree) && tree.nodes == []
    {
      tree := new RouteTree();
      root := None;
    }

    /** `r.Route(path)`: creates the root on first use, strips one leading
        slash and registers the rest below the root. */
    method Route(path: string) returns (res: Result<nat, Error>)
      requires Ready()
      modifies this, tree
      ensures Ready() && tree == old(tree) && root.Some?
      ensures WellFormed(old(tree.nodes)) ==> WellFormed(tree.nodes)
      ensures old(root).Some? ==> root == old(root)
      ensures old(root).None? ==> root == Some(|old(tree.nodes)|)
      ensures (tree.nodes, res) == Register(Rooted(old(tree.nodes), old(root)), root.value, Strip(path))
    {
      if root.None? {
        root := Some(|tree.nodes|);
        tree.nodes := tree.nodes + [RootNode];
      }
      var p := path;
      if |p| > 0 && p[0] == '/' {
        p := p[1..];
      }
      ghost var before := tree.nodes;
      if WellFormed(old(tree.nodes)) {
        RootedWellFormed(old(tree.nodes), old(root));
        RegisterWellFormed(before, root.value, p);
      }
      res := tree.Route(root.value, p);
      assert Extends(before, tree.nodes);
    }

    /** `r.ServeHTTP(w, req)`: the response, and for a dispatch the handler
        called and the request it receives, whose context carries every
        extracted variable under its key. */
    method ServeHTTP(w: ResponseWriter, req: Request) returns (served: Option<(Handler, Request)>)
      requires Ready() && |req.path| > 0
      modifies w
      ensures var d := Decide(tree.nodes, root, req.verb, req.path);
        d.NotFound? ==>
          served.None? && w.status == Some(StatusNotFound) && w.header == old(w.header)
      ensures var d := Decide(tree.nodes, root, req.verb, req.path);
        d.Options? ==>
          served.None? && w.status == Some(StatusNoContent) &&
          w.header == old(w.header) + Cors.Headers(Cors.Defaults.(allowMethods := d.allow))
      ensures var d := Decide(tree.nodes, root, req.verb, req.path);
        d.Dispatch? ==>
          served.Some? && served.value.0 == d.handler &&
          w.header == old(w.header) && w.status == old(w.status) &&
          Forwarded(req, d.vars, served.value.1)
    {
      if root.None? {
        w.NotFound();
        return None;
      }
      var found := Match(tree.nodes, root.value, req.path[1..]);
      var route, vars := found.0, found.1;
      if route.None? {
        w.NotFound();
        return None;
      }
      var h := HandlerFor(tree.nodes, route.value, req.verb);
      if h.None? {
        if req.verb == MethodOptions {
          var ms := tree.Methods(route.value);
          var ac := Cors.Defaults.(allowMethods := ms);
          ac := ac.(allowMethods := ac.allowMethods + [MethodOptions]);
          Cors.SetAllCORSHeaders(w, ac);
          w.WriteHeader(StatusNoContent);
          return None;
        }
        w.NotFound();
        return None;
      }
      var r := WithVars(req, vars);
      return Some((h.value, r));
    }

    /** `r.String()`: a rule, the tree, a rule. */
    method String() returns (s: string)
      requires Ready()
      modifies tree
      ensures Ready()
      ensures WellFormed(old(tree.nodes)) ==> WellFormed(tree.nodes)
      ensures root.None? ==> s == Rule + Rule && tree.nodes == old(tree.nodes)
      ensures root.Some? ==>
        s == Rule + TreeViz.Viz(old(tree.nodes), root.value).0 + Rule &&
        tree.nodes == TreeViz.Viz(old(tree.nodes), root.value).1
    {
      var line := Text.Repeat('-', 75) + "\n";
      if root.Some? {
        DumpKeepsRoot(tree.nodes, root.value);
      }
      var t := TreeViz.Tree(tree, root);
      s := line + t + line;
    }
  }

  /** `req` with the variables of a match added to its context, method,
      path and headers as they were. */
  ghost predicate Forwarded(req: Request, vars: map<string, string>, req': Request) {
    req'.verb == req.verb && req'.path == req.path && req'.header == req.header &&
    (forall k | k in vars :: Value(req'.context, k) == Some(vars[k])) &&
    (forall k | k !in vars :: Value(req'.context, k) == Value(req.context, k))
  }

  /** The `for k, v := range vars` loop that rebinds `req`. */
  method WithVars(req: Request, vars: map<string, string>) returns (r: Request)
    ensures Forwarded(req, vars, r)
  {
    r := req;
    var left := vars.Keys;
    while left != {}
      invariant left <= vars.Keys
      invariant r.verb == req.verb && r.path == req.path && r.header == req.header
      invariant forall k | k in vars && k !in left :: Value(r.context, k) == Some(vars[k])
      invariant forall k | k !in vars || k in left :: Value(r.context, k) == Value(req.context, k)
      decreases |left|
    {
      var k :| k in left;
      r := WithValue(r, k, vars[k]);
      left := left - {k};
    }
  }
}
