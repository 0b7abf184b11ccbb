# mux: a verified model of the route tree, router, tree dump, CORS and decorator chain

`mux` is a small Go HTTP router. Route patterns such as `/users/:id/*rest`
are cut into segments. Each segment is classified as Static, Parameter
(`:name`) or CatchAll (`*name`), and the segments are stored in a tree of
`Route` nodes. Each node holds per-method handlers.

Matching a URL path walks the tree:
- a child whose segment equals the next piece of the path always wins;
- otherwise the node's single complex child is tried: a parameter binds the piece, and a catch-all binds the whole rest of the path;
- otherwise there is no route.

Around the tree sit four other parts:
- a `Router` that creates the root lazily, strips one leading slash and dispatches requests (with an `OPTIONS` fallback that lists a node's methods);
- a box-drawing dump of the tree;
- a CORS decorator;
- a decorator `Chain`.

The Dafny modules follow the Go files:

| module | file | what it holds |
|---|---|---|
| `Wrappers` | wrappers.dfy | `Option`, `Result`, `Outcome` for nil results, errors and panics |
| `Text` | text.dfy | Go's `<` on strings, `sort.Strings`/`sort.Sort` (insertion sort), `strings.Join`, `strings.Repeat`, `%d` |
| `Http` | http.dfy | handlers (opaque), header maps, the request context, a response writer |
| `Routes` | route.dfy | `split`, `ClassifyKind`, the `Route` node type and its methods, `FindOne`/`Filter`/`ByKind`/`ByPath`, registration and matching |
| `TreeViz` | treeviz.dfy | `Tree`, `siblingLevels`, `contains` |
| `Cors` | cors.dfy | `AccessControl`, `Headers`, `SetAllCORSHeaders`, the `CORS` decorator's body |
| `Routers` | router.dfy | the `Router` class: `Route`, `ServeHTTP`, `String` |
| `Chains` | chain.dfy | `NewChain`, `Append`, `Then`, `ThenFunc` |

**The route tree is an arena.** Go links `*Route` pointers: a parent
pointer and a children slice. The model keeps the nodes in a sequence
`RouteTree.nodes`. A node's parent and children are indices into that
sequence.

The invariant `Valid` says three things:
- every node's kind is the classification of its segment;
- a parent is older than its child;
- every listed child is newer than the node that lists it.

Together these rule out cycles, and they give the recursive functions that
follow parent pointers or children lists (`Level`, `FullPath`, the tree
dump) their termination measure. `Lookup`, `Register` and `Match` decrease
the remaining path instead.
`WellFormed` adds what `Route` alone guarantees:
- children point back at their parent;
- at most one complex child per node;
- distinct segments among siblings;
- nothing below a catch-all.

**Registration.** `Register(ns, r, path)` is the functional reading of
`(*Route).Route`. It returns the new arena and either the node reached or
the error `Route` panics with. The arena it returns on failure keeps the
nodes that were already appended, exactly as the Go tree keeps them after
a recovered panic. A fresh node that `Append` refused stays in the arena,
unreachable, as it does in Go.

`RouteTree.Route` is the recursive method. Its contract ties it to
`Register`, and the lemmas about `Register` prove that:
- it fails exactly when the ghost predicate `Blocked` holds;
- it is idempotent;
- it keeps `WellFormed`;
- the node it returns is reached by the literal lookup of the path;
- that node's `FullPath` is the registered path.

**Matching.** `Match` is the functional reading of `(*Route).Match`. Its
variables map is keyed by the whole segment, prefix included (`":id"`,
`"*rest"`), as the Go code builds it.

The central lemma, `MatchInstantiates`, is a soundness proof. Take the
pattern along the matched branch and substitute every bound variable:
the result is the requested path. The assumption is that no parameter
name repeats on that branch.

**The tree dump.** `Tree` sorts each visited node's children in place
(`sort.Sort(children)`). The specification `Viz` therefore returns both
the text and the reordered arena. The recursive method `Render` is proved
to produce exactly that pair.

**Where the ServeHTTP code cannot compile.** Where the OPTIONS fallback of
`ServeHTTP` calls `SetAllCORSHeaders`, it passes three arguments
(`w, req, ac`), but cors.go declares the function with two (`w, ac`). The
model reads the call as the two-argument `SetAllCORSHeaders(w, ac)`.

**Variable keys.** A variable is keyed by its whole segment (`vars[c.path]`,
so `:id`, not `id`), and the model does the same.

## Model

| member | source | states |
|---|---|---|
| Routes.ClassifyKind | route.go:292-301 | a segment is Parameter exactly when it starts with `:`, CatchAll exactly when it starts with `*`, Static otherwise; only defined on non-empty segments |
| Routes.Split | route.go:316-326 | head and tail concatenate to the path; the head is empty only for the empty path; the head is either a lone `/` or holds no `/`; a tail after a non-slash head starts with `/` |
| Routes.SplitUnique | route.go:316-326 | the four properties of a split determine it: any head/tail pair with them is `Split(path)` |
| Routes.ScanSplit | route.go:316-326 | the scanning loop over the path returns `Split(path)` |
| Routes.NewNode | route.go:9-15 | a new route has its segment, the kind of that segment, no parent, no children and no handlers |
| Routes.First | route.go:243-250 | `FindOne` returns a selected member of the list, and returns nil exactly when no member is selected |
| Routes.FirstIndexUnique | route.go:243-250 | the first-match position is the only position before which nothing is selected |
| Routes.FindOne | route.go:243-250 | the loop returns the first route the predicate accepts, or none exactly when no route is accepted |
| Routes.FirstStable | route.go:243-250 | growing the arena by registration does not change what `FindOne` finds in an existing list |
| Routes.FirstExtended | route.go:243-250 | appending to a list does not change a first match that already existed |
| Routes.FirstSkips | route.go:243-250 | when a list has no match, the first match of the list extended is the first match of the appended part |
| Routes.Selects | route.go:262-282 | `ByKind(ks)` accepts a route exactly when some listed kind is its kind, `ByPath(pcs)` exactly when some listed segment is its segment; `Complex` is `ByKind(Parameter, CatchAll)` of route.go:185 and 215 |
| Routes.Selected | route.go:252-260 | `Filter` keeps only accepted routes, each from the list, and every accepted route of the list is kept |
| Routes.SelectedConcat | route.go:252-260 | filtering a concatenation is the concatenation of the filtered parts, so `Filter` keeps the order and the multiplicity of the accepted routes |
| Routes.SelectedSingle | route.go:254-258 | a one-route list keeps its route exactly when the predicate accepts it |
| Routes.Filter | route.go:252-260 | the loop builds exactly `Selected` |
| Text.LessIrreflexive | route.go:239 | `Routes.Less` compares segments with Go's `<`, which never holds between a segment and itself |
| Text.LessTransitive | route.go:239 | segment order is transitive |
| Text.LessTotal | route.go:239 | of two distinct segments one is less than the other, so `sort.Sort` has a strict total order on distinct segments |
| Routes.FirstChild | route.go:49-54 | nil exactly for a leaf, otherwise the first listed child |
| Routes.LastChild | route.go:56-61 | nil exactly for a leaf, otherwise the last listed child |
| Routes.ChildrenEnds | route.go:33-47 | in a linked tree the first listed child is a first child and the last listed child a last child |
| Routes.Level | route.go:88-94 | the level is zero exactly at a root |
| Routes.FullPath | route.go:100-106 | the full path of a root is its segment, and otherwise the parent's full path followed by the node's segment; its properties are in the lemmas below |
| Routes.AncestorTransitive | route.go:88-106 | being an ancestor along parent pointers is transitive |
| Routes.AncestorPrefix | route.go:100-106 | an ancestor is older, at a lower or equal level, and its full path is a prefix of the descendant's |
| Routes.ChildPath | route.go:88-106 | in a linked tree a child's level is its parent's plus one and its full path is its parent's full path followed by its own segment |
| Routes.ExtendsKeepsPaths | route.go:88-106 | registration never changes the level or full path of an existing node |
| Routes.Without | route.go:63-74 | the siblings list holds exactly the parent's other children |
| Routes.WithoutConcat | route.go:67-72 | dropping a node from a concatenation drops it from each part, so the siblings keep their order and multiplicity |
| Routes.WithoutSingle | route.go:68-72 | a one-child list loses its element exactly when that element is the node itself |
| Routes.RouteTree.Siblings | route.go:63-74 | a root has no siblings; any other node's siblings are its parent's children without itself |
| Routes.HandlerFor | route.go:140-143 | a handler is found exactly when one is registered for the method, and it is the registered one |
| Routes.MethodList | route.go:145-152 | the method list is strictly sorted and holds exactly the registered methods |
| Routes.MethodListUnique | route.go:145-152 | any strictly sorted list of exactly the registered methods is the method list, so its order is determined |
| Routes.RouteTree.Methods | route.go:145-152 | collecting the map's keys in any order and sorting them yields `MethodList` |
| Routes.KindNamesDistinct | route.go:303-314 | `Kind.String` gives the three kinds three different names |
| Routes.KindName | route.go:303-314 | the name of a kind, never the `"unknown"` of the default branch |
| Routes.IsComplex | route.go:180-182 | a kind is complex when it is Parameter or CatchAll |
| Routes.HasComplexChild | route.go:184-186 | some child is selected by `ByKind(Parameter, CatchAll)`; `HasComplexChildMeans` states what that means |
| Routes.HasComplexChildMeans | route.go:184-186 | `hasComplexChild` holds exactly when some child is a Parameter or a CatchAll |
| Routes.AdoptedValid | route.go:171-178 | appending a newer node as a child keeps the arena valid |
| Routes.Adopted | route.go:171-178 | `Append` as a value: the child gets the parent, the parent's list gets the child at its end, and every other node stays as it was |
| Routes.AdoptedOneComplex | route.go:171-186 | appending any newer node that `Append` lets through keeps at most one complex child per node |
| Routes.AdoptFresh | route.go:171-178 | appending a fresh route under `r` grows the arena, sets the child's parent to `r` and appends it to `r`'s children, leaving other nodes alone |
| Routes.RouteTree.Append | route.go:171-178 | `Append` fails with "not possible" exactly when the parent already has a complex child and the new child is complex, changing nothing; otherwise it links parent and child |
| Routes.RouteTree.NewRoute | route.go:9-15 | `NewRoute` adds one unlinked node, the classified segment, and the arena stays valid |
| Routes.Register | route.go:188-205 | registration keeps the arena valid, only extends it, and a success names a node of the new arena |
| Routes.RouteTree.Route | route.go:188-205 | the recursive method computes exactly `Register`: the same final arena, the same node or the same panic |
| Routes.FreshNodeBlocked | route.go:194-201 | below a childless node, registration panics exactly when some remaining segment would have to go below a catch-all (the node itself or a new one) |
| Routes.RegisterFailsIffBlocked | route.go:188-205 | registration panics exactly when the literal walk stops at a catch-all node, at a node whose complex child clashes with a complex head, or where a segment would have to go below a new catch-all |
| Routes.RegisterExisting | route.go:190-193 | registering a path that already exists literally changes nothing and returns the existing node |
| Routes.RegisterReaches | route.go:188-205 | after a successful registration the literal lookup of the path leads to the node returned |
| Routes.RegisterTwice | route.go:188-205 | registering the same path twice is the same as once: same arena, same node |
| Routes.LookupFullPath | route.go:100-106 | in a linked tree, the node the literal lookup of a path reaches has that path appended to the start node's full path |
| Routes.RegisterFullPath | route.go:188-205 | the node registration returns has full path equal to the start's full path followed by the registered path |
| Routes.LookupStable | route.go:188-205 | a tree that only grew, as registration grows it, keeps every literal path leading to the node it led to |
| Routes.LookupSameShape | route.go:136-138 | literal lookups depend only on segments and children lists, so `SetHandler` does not change them |
| Routes.Served | route.go:188-205 | a literal path leads to a node holding a given handler for a given method |
| Routes.ServedAfterRegister | route.go:188-205 | a further registration of any path below any node, successful or panicking, keeps every served route served by the same handler |
| Routes.ServedAfterSetHandler | route.go:136-138 | a further `SetHandler` changes a served route's handler only when it sets the same method on the same node, and then the new handler wins |
| Routes.RegisterThenServed | route.go:136-205 | `Route(p)` followed by `SetHandler(m, h)` on the node it returns serves `h` for `m` on `p` |
| Routes.AdoptFreshOneComplex | route.go:171-186 | when `Append` lets a fresh node through, there is still at most one complex child per node |
| Routes.AdoptFreshDistinct | route.go:191-193 | a fresh node is only appended when no sibling has its segment, so sibling segments stay distinct |
| Routes.AdoptFreshWellFormed | route.go:194-202 | one registration step that adopts a fresh node keeps the tree well formed |
| Routes.RegisterWellFormed | route.go:188-205 | registration keeps every structural rule: back-links, one complex child, distinct sibling segments, a catch-all is a leaf |
| Routes.MatchLookup | route.go:207-214 | a path that exists literally in the tree matches its node with no variables |
| Routes.MatchKeysAreSegments | route.go:215-231 | every variable key is a Parameter or CatchAll segment (it starts with `:` or `*`) |
| Routes.MatchDescends | route.go:207-235 | the matched node lies below (or is) the node matching started from |
| Routes.MatchKeysOnBranch | route.go:215-231 | every variable key names a complex node on the branch from the start to the matched node |
| Routes.MatchInstantiates | route.go:207-235 | substituting the bound variables into the pattern of the matched branch gives back the path matched |
| Routes.MatchEmpty | route.go:208-210 | the empty path matches the current node with no variables |
| Routes.LiteralFirst | route.go:211-214 | a child whose segment equals the next piece is always followed, whatever complex sibling it has |
| Routes.ParameterBindsOnFailure | route.go:215-225 | without a literal child, the parameter child takes the next piece: the match descends into it and binds its segment to that piece unless a deeper binding overrides it |
| Routes.CatchAllTakesRest | route.go:226-230 | without a literal child, the catch-all child matches at once and binds its segment to the whole remaining path |
| Routes.NoChildNoMatch | route.go:232-234 | with neither a literal nor a complex child there is no match and no variables |
| Routes.Match | route.go:207-235 | the node found is one of the arena; what the match means is stated by the lemmas around it |
| Routes.ReplacedMeans | route.go:158-169 | `Set` keeps the node's identity, segment and parent, takes its kind, children and handlers from the replacement, and re-parents those children |
| Routes.Replaced | route.go:158-169 | `Set` as a value: the node takes the replacement's kind, children and handlers, its adopted children point at it, and nothing else changes |
| Routes.RouteTree.Set | route.go:158-169 | `Set` fails with "incorrect path" exactly when the segments differ, changing nothing; otherwise the arena is `Replaced` |
| Routes.SetMatchesLikeReplacement | route.go:158-169 | after `Set`, matching any non-empty path from the node behaves as matching it from the replacement |
| Routes.MatchSameShape | route.go:207-235 | matching depends only on segments, kinds and children lists, not on parents or handlers |
| Routes.WithHandlerMeans | route.go:136-138 | `SetHandler` makes the handler the one found for that method, leaves every other method and every other node unchanged, and keeps the arena valid |
| Routes.WithHandler | route.go:136-138 | `SetHandler` as a value: the node's handler map with the method bound to the handler |
| Routes.RouteTree.SetHandler | route.go:136-138 | the method performs exactly `WithHandler` and keeps the arena valid |
| TreeViz.SiblingLevels | treeviz.go:59-68 | every listed level lies between 1 and the node's own level |
| TreeViz.SiblingLevelsAscending | treeviz.go:59-68 | the levels are strictly ascending |
| TreeViz.SiblingLevelsMeans | treeviz.go:59-68 | a level is listed exactly when the ancestor-or-self at that level is not a root and not the last child of its parent |
| TreeViz.Contains | treeviz.go:70-77 | the loop answers exactly whether the element occurs |
| TreeViz.Prefix | treeviz.go:40-47 | the indentation is three characters per level above the first |
| TreeViz.PrefixColumn | treeviz.go:41-47 | column `l` of the indentation is a bar exactly when level `l` is a sibling level, and blank otherwise |
| TreeViz.BuildPrefix | treeviz.go:40-47 | the loop builds exactly `Prefix` |
| TreeViz.JoinMethods | treeviz.go:24-33 | the loop writing methods separated by `, ` builds `strings.Join` |
| TreeViz.NodeLine | treeviz.go:21-34 | the specification of a node's line: it starts with the segment and ends with a newline (the methods part is spelled out by `Label` and `MethodsSuffix`) |
| TreeViz.Line | treeviz.go:21-34 | a node's line is its segment, its kind, the parenthesised method list when there are methods, and a newline |
| TreeViz.SortChildren | treeviz.go:35-36 | sorting a node's children only reorders that node's list |
| TreeViz.ReorderedValid | treeviz.go:35-36 | reordering children lists keeps the arena valid |
| TreeViz.ReorderedLinked | treeviz.go:35-36 | reordering children lists keeps children pointing back to their parents |
| TreeViz.VizChildren | treeviz.go:37-55 | the text and the arena after dumping children i.. of a node in their sorted order: the arena only has children lists reordered, and the node and every older one are untouched |
| TreeViz.Viz | treeviz.go:16-57 | the dump only reorders children lists, leaves older nodes alone and leaves the root's children sorted by segment |
| TreeViz.VizSortsChildren | treeviz.go:35-36 | after the dump the children of the dumped node are sorted by segment and are a permutation of the original list |
| TreeViz.VizKeepsLinks | treeviz.go:35-36 | the dump keeps the tree linked |
| TreeViz.ReorderedWellFormed | treeviz.go:35-36 | reordering children lists keeps one complex child per node, distinct sibling segments and catch-all leaves, as well as `Valid` and `Linked` |
| TreeViz.VizKeepsWellFormed | treeviz.go:35-36 | the dump keeps every structural rule of a tree built by `Route` |
| TreeViz.VizStartsWithLine | treeviz.go:20-34 | the dump starts with the node's own line |
| TreeViz.Render | treeviz.go:20-57 | the recursive method produces exactly the text `Viz` specifies and leaves the arena reordered as `Viz` says |
| TreeViz.Tree | treeviz.go:16-19 | a nil root dumps as the empty string without any change; otherwise the result is `Viz` |
| Cors.Headers | cors.go:96-120 | each of the six headers is present exactly when its field is set, with the field's value joined or formatted, and no other key appears |
| Cors.MaxAgeRoundTrip | cors.go:105-107 | the max-age header reads back as the configured number |
| Cors.SetAllCORSHeaders | cors.go:9-14 | the writer's header map becomes the old one overridden by `Headers`, and the status is untouched |
| Cors.SetEach | cors.go:11-13 | setting each entry of a map, in any order, overrides the header map by that map |
| Cors.CaseOf | cors.go:20-39 | no `Origin` means not a CORS request; a preflight is exactly an `OPTIONS` with an origin and a non-empty requested method |
| Cors.ActualHeadersRestrict | cors.go:40-50 | an actual request gets exactly the expose, origin and credentials entries of the full header table |
| Cors.ActualHeaders | cors.go:40-50 | the expose, origin and credentials headers an actual request gets, each only when its field is set |
| Cors.Handle | cors.go:16-54 | `next` is called exactly when the request is not a preflight; a preflight gets every CORS header and 204; an actual request gets the three response headers; a non-CORS request gets nothing |
| Http.Value | router.go:56-58 | a context lookup fails exactly when the key was never bound, and otherwise finds a binding of it |
| Http.WithValue | router.go:56-58 | a rebinding keeps method, path and header, binds the key to the new value and leaves every other key as it was |
| Http.Get | cors.go:20 | `Header.Get` gives the value of a key, or the empty string when absent |
| Routers.WithVars | router.go:56-58 | after the loop, every variable is bound in the request's context and every other key is as it was |
| Routers.Strip | router.go:26-28 | one leading slash comes off, and only if present |
| Routers.StripSlash | router.go:26-28 | `/p` and `p` register the same path, when `p` does not itself start with a slash |
| Routers.RootedWellFormed | router.go:20-25 | creating the root keeps the tree well formed |
| Routers.RouteFullPath | router.go:19-30 | the node `Router.Route` returns has full path `/` followed by the stripped path |
| Routers.Decide | router.go:32-59 | the answer to a request: 404 without a root or a match, a dispatch when the matched node has a handler for the method, the method list plus `OPTIONS` for an `OPTIONS` request without one, and 404 otherwise |
| Routers.Rooted | router.go:20-25 | the arena grows by one new `/` route exactly when there is no root yet, and the existing nodes stay as they were |
| Routers.Router.Route | router.go:19-30 | the root is created once and kept; the call is registration below it of the path without its leading slash; and a well-formed tree stays well formed; `Ready` needs only a valid arena, so a router stays usable after a `Set` mount |
| Routers.NotFoundWhen | router.go:32-55 | the answer is 404 exactly when there is no root, no matching node, or no handler for a method other than `OPTIONS` |
| Routers.DispatchExact | router.go:42-59 | a dispatch uses the matched node's handler for the request's method and the match's variables |
| Routers.OptionsList | router.go:44-50 | the `OPTIONS` fallback lists the node's methods sorted and without duplicates, then `OPTIONS` |
| Routers.RegisteredIsServed | router.go:32-59 | after registering a path and setting a handler for a method on the node reached, a request for that method and path dispatches to that handler with no variables |
| Routers.ServedIsDispatched | router.go:34-59 | a served literal path is dispatched to its handler with no variables |
| Routers.StillServed | router.go:19-59 | under repeated registration, a served route stays dispatched to its handler after any further `Route` call |
| Routers.Router.ServeHTTP | router.go:32-60 | a miss writes 404 and nothing else; the `OPTIONS` fallback writes the CORS headers with the listed methods and 204; a dispatch hands the handler the request whose context carries the variables |
| Routers.DumpKeepsRoot | router.go:62-70 | the dump inside `String` keeps the arena valid, the root a parentless `/` node, and a well-formed tree well formed |
| Routers.MountKeepsRoot | route.go:158-169 | a `Set` mount keeps the arena valid and the root a parentless `/` node, so `Route`, `ServeHTTP` and `String` stay callable |
| Routers.Router.String | router.go:62-70 | the dump is a 75-dash rule, the tree dump (empty without a root), and the rule again; a well-formed tree stays well formed |
| Chains.EmptyChain | chain.go:11-15 | an empty chain hands back the handler unchanged |
| Chains.AppendThen | chain.go:17-31 | finalising an appended chain wraps the handler in the new decorators first, then in the old ones |
| Chains.ComposeSplit | chain.go:25-31 | wrapping by a concatenation of decorator lists is wrapping by the second list, then by the first |
| Chains.Then | chain.go:25-31 | the reverse loop makes the first decorator the outermost: the result is `Compose` of the list |
| Chains.ThenFunc | chain.go:33-35 | a handler function is finalised as `Then` would |
| Chains.NewChain | chain.go:11-15 | a new chain holds the given decorators in order; `EmptyChain` and `AppendThen` state what finalising it does |
| Chains.Append | chain.go:17-23 | the appended chain holds the old decorators followed by the new ones |
| Chains.Compose | chain.go:25-31 | the handler wrapped by each decorator in turn, the first outermost; `ComposeSplit` and `Then` are stated in terms of it |
| Text.SortSorted | route.go:150 | the sort used for method lists and children orders its result |
| Text.StrictlySortedUnique | route.go:150 | two strictly sorted lists with the same elements are equal |
| Text.DecimalRoundTrip | cors.go:106 | the decimal text of a number reads back as that number |

## Left out

- The `GET`, `POST`, `OPTIONS`, `HEAD`, `PUT`, `PATCH` and `DELETE` helpers (route.go:108-134) call `SetHandler` with a fixed method name. They are covered by `Routes.RouteTree.SetHandler` and have no members of their own.
- `Route.String` (route.go:154-156) is left out: it is `fmt`'s `%v` rendering of a kind and a slice, used for debugging only.
- The accessors `Parent`, `Children`, `Kind` and `Path` (route.go:76-98) are the node's fields. `IsRoot`, `IsLeaf`, `IsFirstChild` and `IsLastChild` are predicates without contracts of their own. `IsRoot`, `IsLeaf` and `IsLastChild` appear in the contracts above, and `IsFirstChild` and `IsLastChild` in `Routes.ChildrenEnds`.
- Kind.String's `"unknown"` branch is unreachable: `Routes.Kind` has exactly the three kinds.
- Routes.RouteTree.Append: requires the child to be newer in the arena than the parent (`r < child`). The arena's invariant orders nodes by creation, which is stronger than acyclicity. Attaching a node created before its new parent is outside the model even when no cycle results. Go accepts any pointer, including one that makes a cycle. Append also neither detaches the child from an earlier parent nor checks it for duplicates, and the model does the same.
- Routes.RouteTree.Set: requires the replacement to be newer than the replaced node (`r < nr`). As with `Append`, this is stronger than acyclicity. Mounting a subtree built before the node it replaces is accepted by Go and makes no cycle, but it lies outside the model. Such a subtree is, for example, a fresh route given its own sub-routes and then passed to `Set` on a node registered later.
- Routes.RouteTree.Set: Go's `Set` gives the node the replacement's children slice and re-parents those children, while the replacement still lists them. `Linked` then no longer holds for the replacement. The model keeps that behaviour and claims no `Linked` after `Set`. Lemmas that require `WellFormed` therefore do not apply to a tree after any `Set`, among them `Routes.RegisterFullPath`. The router itself needs only a valid arena, so it stays callable after a `Set` (`Routers.MountKeepsRoot`).
- Routes.RouteTree.Set: after `r.Set(nr)`, Go's `r` and `nr` share one handler map and one children backing array (route.go:163, 167). A later `r.SetHandler(m, h)` therefore also gives `nr` that handler, and `Tree(r)` also sorts `nr`'s children in place. The model copies values, so `Routes.WithHandler` and `TreeViz.SortChildren` change `r` alone. Aliasing between the two nodes is not captured.
- Routes.RouteTree.NewRoute and Routes.ClassifyKind: require a non-empty segment, because `path[0]` panics on an empty one. `Route` only ever passes non-empty heads.
- Routers.Router.ServeHTTP: requires a non-empty request path, because `req.URL.Path[1:]` panics on an empty one. The server always supplies at least `/`.
- Routers.Router.ServeHTTP: `http.NotFound` is modelled as writing status 404. Its body and its content headers are not modelled.
- Calling the handler (`h.ServeHTTP`, `next.ServeHTTP`) is outside the model, because handlers are opaque. `ServeHTTP` returns the handler and the request it receives, and `Cors.Handle` returns whether `next` is called.
- The `CORS` decorator's closure packaging, `Decorator` over `http.Handler`, is not modelled. `Cors.Handle` is its body.
- `AccessControlPreflight` (cors.go:58) is declared and never used, so it is not modelled.
- The `MaxAge` field of `AccessControl` is a `uint64` in Go and a `nat` in the model. No value above 2^64-1 reaches it, and `%d` formats any value alike.
- TreeViz.Viz: `sort.Sort` is not stable, while the model sorts with a stable insertion sort. The two agree whenever sibling segments are distinct, which `Route` guarantees. For siblings with equal segments, which only `Append` or `Set` misuse can create, the model fixes one order.
- TreeViz.Viz: the dump's text is specified exactly, but no separate lemma counts its lines (one per reachable node).
- Routes.RouteTree.Methods: the order in which the handler map is iterated is a free choice in the loop. `sort.Strings` makes the result independent of that order, as `MethodListUnique` shows.
- Handlers are identified by a number. Decorators are functions on those identities, and what a handler does when served is not modelled.
- Concurrency (a serve phase while registration runs) is outside the model. All operations are sequential.
- Strings are sequences of characters. Go's byte-indexed slicing agrees with this because `/`, `:` and `*` are single-byte characters.
- gzip.go, logging.go, longpolling.go, nocache.go, request.go and timing.go are not part of this model.
