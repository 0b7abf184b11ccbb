/** The CORS support of cors.go: the header table an `AccessControl`
    produces and the three-way decision of the `CORS` decorator (section
    3.2 of the WHATWG Fetch Standard, the CORS protocol). */
module Cors {
  import opened Wrappers
  import opened Http
  import Text

  /** `AccessControl`; `MaxAge` is a `uint64`, never negative. */
  datatype AccessControl = AccessControl(
    allowOrigin: string,
    exposeHeaders: seq<string>,
    maxAge: nat,
    allowCredentials: bool,
    allowMethods: seq<string>,
    allowHeaders: seq<string>)

  const HeaderOrigin := "Origin"
  const AllowOrigin := "Access-Control-Allow-Origin"
  const ExposeHeaders := "Access-Control-Expose-Headers"
  const MaxAge := "Access-Control-Max-Age"
  const AllowCredentials := "Access-Control-Allow-Credentials"
  const AllowMethods := "Access-Control-Allow-Methods"
  const AllowHeaders := "Access-Control-Allow-Headers"
  const RequestMethod := "Access-Control-Request-Method"

  /** The six response headers `Headers` may produce. */
  const ResponseNames: set<string> :=
    {AllowOrigin, ExposeHeaders, MaxAge, AllowCredentials, AllowMethods, AllowHeaders}

  /** `AccessControlDefaults`. */
  const Defaults := AccessControl(
    "*", ["E-Tag", "Location", "Link"], 600, false,
    ["GET", "POST", "DELETE"],
    ["Accept", "Accept-Language", "Content-Type", "Authorization", "If-None-Match"])

  /** `fmt.Sprintf("%t", true)`. */
  const True := "true"

  /** `ac.Headers()`: the map filled by the six conditional inserts. */
  function Headers(ac: AccessControl): (h: Header)
    ensures AllowOrigin in h <==> ac.allowOrigin != ""
    ensures AllowOrigin in h ==> h[AllowOrigin] == ac.allowOrigin
    ensures ExposeHeaders in h <==> |ac.exposeHeaders| > 0
    ensures ExposeHeaders in h ==> h[ExposeHeaders] == Text.Join(ac.exposeHeaders, ", ")
    ensures MaxAge in h <==> ac.maxAge > 0
    ensures MaxAge in h ==> h[MaxAge] == Text.Decimal(ac.maxAge)
    ensures AllowCredentials in h <==> ac.allowCredentials
    ensures AllowCredentials in h ==> h[AllowCredentials] == True
    ensures AllowMethods in h <==> |ac.allowMethods| > 0
    ensures AllowMethods in h ==> h[AllowMethods] == Text.Join(ac.allowMethods, ", ")
    ensures AllowHeaders in h <==> |ac.allowHeaders| > 0
    ensures AllowHeaders in h ==> h[AllowHeaders] == Text.Join(ac.allowHeaders, ", ")
    ensures h.Keys <= ResponseNames
  {
    var h0: Header := map[];
    var h1 := if ac.allowOrigin != "" then h0[AllowOrigin := ac.allowOrigin] else h0;
    var h2 := if |ac.exposeHeaders| > 0 then h1[ExposeHeaders := Text.Join(ac.exposeHeaders, ", ")] else h1;
    var h3 := if ac.maxAge > 0 then h2[MaxAge := Text.Decimal(ac.maxAge)] else h2;
    var h4 := if ac.allowCredentials then h3[AllowCredentials := True] else h3;
    var h5 := if |ac.allowMethods| > 0 then h4[AllowMethods := Text.Join(ac.allowMethods, ", ")] else h4;
    if |ac.allowHeaders| > 0 then h5[AllowHeaders := Text.Join(ac.allowHeaders, ", ")] else h5
  }

  /** The max-age value reads back as the number it was made from. */
  lemma MaxAgeRoundTrip(ac: AccessControl)
    requires ac.maxAge > 0
    ensures Text.ParseDecimal(Headers(ac)[MaxAge]) == ac.maxAge
  {
    Text.DecimalRoundTrip(ac.maxAge);
  }

  /** `SetAllCORSHeaders(w, ac)`: every header of `ac.Headers()` is set,
      replacing what the writer had under those keys, and nothing else. */
  method SetAllCORSHeaders(w: ResponseWriter, ac: AccessControl)
    modifies w
    ensures w.header == old(w.header) + Headers(ac) && w.status == old(w.status)
  {
    var headers := Headers(ac);
    SetEach(w, headers);
  }

  /** The `for k, v := range headers { w.Header().Set(k, v) }` loop. */
  method SetEach(w: ResponseWriter, headers: Header)
    modifies w
    ensures w.header == old(w.header) + headers && w.status == old(w.status)
  {
    var left := headers.Keys;
    ghost var done: Header := map[];
    while left != {}
      invariant left <= headers.Keys && w.status == old(w.status)
      invariant done.Keys == headers.Keys - left
      invariant forall k | k in done :: done[k] == headers[k]
      invariant w.header == old(w.header) + done
      decreases |left|
    {
      var k :| k in left;
      w.Set(k, headers[k]);
      done := done[k := headers[k]];
      left := left - {k};
    }
    assert done == headers;
  }

  /** The three ways the decorator treats a request. */
  datatype Case = NoOrigin | Preflight | Actual

  /** No `Origin` header: not a CORS request. An `OPTIONS` with a
      non-empty `Access-Control-Request-Method`: a preflight. Anything
      else with an origin: an actual request. */
  function CaseOf(req: Request): (c: Case)
    ensures c == NoOrigin <==> Get(req.header, HeaderOrigin) == ""
    ensures c == Preflight <==>
      Get(req.header, HeaderOrigin) != "" && req.verb == MethodOptions && Get(req.header, RequestMethod) != ""
  {
    if Get(req.header, HeaderOrigin) == "" then NoOrigin
    else if req.verb == MethodOptions && Get(req.header, RequestMethod) != "" then Preflight
    else Actual
  }

  /** The headers an actual request gets: expose, origin and credentials,
      each under the same condition as in `Headers`. */
  function ActualHeaders(ac: AccessControl): Header {
    var h0: Header := map[];
    var h1 := if |ac.exposeHeaders| > 0 then h0[ExposeHeaders := Text.Join(ac.exposeHeaders, ", ")] else h0;
    var h2 := if ac.allowOrigin != "" then h1[AllowOrigin := ac.allowOrigin] else h1;
    if ac.allowCredentials then h2[AllowCredentials := True] else h2
  }

  /** An actual request gets exactly the expose, origin and credentials
      entries of the full table. */
  lemma ActualHeadersRestrict(ac: AccessControl)
    ensures ActualHeaders(ac) ==
      map k | k in Headers(ac) && k in {ExposeHeaders, AllowOrigin, AllowCredentials} :: Headers(ac)[k]
  {
  }

  /** The handler the `CORS(ac)` decorator wraps around `next`, up to the
      call of `next`: it returns whether `next` is called. */
  method Handle(ac: AccessControl, w: ResponseWriter, req: Request) returns (callNext: bool)
    modifies w
    ensures callNext <==> CaseOf(req) != Preflight
    ensures CaseOf(req) == NoOrigin ==> w.header == old(w.header) && w.status == old(w.status)
    ensures CaseOf(req) == Preflight ==>
      w.header == old(w.header) + Headers(ac) && w.status == Some(StatusNoContent)
    ensures CaseOf(req) == Actual ==>
      w.header == old(w.header) + ActualHeaders(ac) && w.status == old(w.status)
  {
    var origin := Get(req.header, HeaderOrigin);
    if origin == "" {
      return true;
    }
    if req.verb == MethodOptions {
      var acrm := Get(req.header, RequestMethod);
      if acrm != "" {
        SetAllCORSHeaders(w, ac);
        w.WriteHeader(StatusNoContent);
        return false;
      }
    }
    if |ac.exposeHeaders| > 0 {
      var expose := Text.Join(ac.exposeHeaders, ", ");
      w.Set(ExposeHeaders, expose);
    }
    if ac.allowOrigin != "" {
      w.Set(AllowOrigin, ac.allowOrigin);
    }
    if ac.allowCredentials {
      w.Set(AllowCredentials, True);
    }
    return true;
  }
}
