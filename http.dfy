/** The parts of Go's net/http and context the router touches: handlers
    are opaque, header maps hold one value per key, a request is its
    method, URL path, header map and context, and a response writer is the
    header map and status code written to it. */
module Http {
  import opened Wrappers

  /** An `http.Handler` (or `http.HandlerFunc`), known only by its identity. */
  datatype Handler = Handler(id: nat)

  /** A header map: `Header.Set(k, v)` replaces every value of `k` by `v`. */
  type Header = map<string, string>

  /** A `context.Context` as the chain of `WithValue` bindings, oldest first. */
  type Context = seq<(string, string)>

  datatype Request = Request(verb: string, path: string, header: Header, context: Context)

  /** `Header.Get(k)`: the value of `k`, or the empty string when absent. */
  function Get(h: Header, k: string): (v: string)
    ensures k !in h ==> v == ""
    ensures k in h ==> v == h[k]
  {
    if k in h then h[k] else ""
  }

  /** `ctx.Value(k)`: the most recent binding of `k`. */
  function Value(ctx: Context, k: string): (v: Option<string>)
    ensures v.None? <==> forall i | 0 <= i < |ctx| :: ctx[i].0 != k
    ensures v.Some? ==> exists i | 0 <= i < |ctx| :: ctx[i] == (k, v.value)
  {
    if |ctx| == 0 then None
    else if ctx[|ctx| - 1].0 == k then Some(ctx[|ctx| - 1].1)
    else Value(ctx[..|ctx| - 1], k)
  }

  /** `req.WithContext(context.WithValue(req.Context(), k, v))`. */
  function WithValue(req: Request, k: string, v: string): (req': Request)
    ensures req'.verb == req.verb && req'.path == req.path && req'.header == req.header
    ensures Value(req'.context, k) == Some(v)
    ensures forall k' | k' != k :: Value(req'.context, k') == Value(req.context, k')
  {
    var ctx := req.context + [(k, v)];
    assert ctx[..|ctx| - 1] == req.context;
    req.(context := ctx)
  }

  /** An `http.ResponseWriter`: the header map and the status written. */
  class ResponseWriter {
    var header: Header
    var status: Option<nat>

    constructor ()
      ensures header == map[] && status == None
    {
      header := map[];
      status := None;
    }

    /** `w.Header().Set(k, v)`. */
    method Set(k: string, v: string)
      modifies this
      ensures header == old(header)[k := v] && status == old(status)
    {
      header := header[k := v];
    }

    /** `http.NotFound(w, req)`: answers 404. */
    method NotFound()
      modifies this
      ensures status == Some(StatusNotFound) && header == old(header)
    {
      status := Some(StatusNotFound);
    }

    /** `w.WriteHeader(code)`. */
    method WriteHeader(code: nat)
      modifies this
      ensures status == Some(code) && header == old(header)
    {
      status := Some(code);
    }
  }

  const MethodOptions := "OPTIONS"
  const StatusNoContent := 204
  const StatusNotFound := 404
}
