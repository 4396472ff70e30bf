/**
 * The responses the Pages Functions return: a status, an ordered header
 * list (Set-Cookie may repeat) and a body, plus the `json(data, init)`
 * helper and what a browser sends back for a Set-Cookie line.
 */
module Http {
  import opened Wrappers
  import JsStrings
  import opened JsValues
  import UrlParams

  /**
   * The parts of a request URL the handlers read: the scheme with its
   * colon (`https:`), the host with its port, and the query as parsed by
   * `url.searchParams`.
   */
  datatype RequestUrl = RequestUrl(protocol: string, host: string, query: seq<UrlParams.Pair>)

  /** An incoming request: its URL and its Cookie header, if any. */
  datatype Request = Request(url: RequestUrl, cookie: Option<string>)

  /** `getBaseUrl(req)`: the origin, `protocol + "//" + host`. */
  function BaseUrl(url: RequestUrl): (r: string)
    ensures |r| == |url.protocol| + 2 + |url.host|
    ensures r[..|url.protocol|] == url.protocol && r[|url.protocol|..|url.protocol| + 2] == "//"
    ensures r[|url.protocol| + 2..] == url.host
  {
    url.protocol + "//" + url.host
  }

  datatype Body = NoBody | Text(text: string) | Json(data: JsValue)

  datatype Response = Response(status: int, headers: seq<(string, string)>, body: Body)

  /**
   * `json(data, { status })`: the data as a JSON body with Content-Type
   * application/json and a permissive CORS header.
   */
  function JsonResponse(data: JsValue, status: int): (r: Response)
    ensures r.status == status && r.body == Json(data)
    ensures HeaderValues(r.headers, "Content-Type") == ["application/json"]
    ensures HeaderValues(r.headers, "Access-Control-Allow-Origin") == ["*"]
  {
    Response(status, [("Content-Type", "application/json"), ("Access-Control-Allow-Origin", "*")], Json(data))
  }

  /** Every value of the header `name`, in order. */
  function HeaderValues(headers: seq<(string, string)>, name: string): (r: seq<string>)
    ensures |r| <= |headers|
  {
    if |headers| == 0 then []
    else (if headers[0].0 == name then [headers[0].1] else []) + HeaderValues(headers[1..], name)
  }

  /**
   * The `name=value` pair a browser returns in its Cookie header for a
   * Set-Cookie line: the text before the first `;` (the attributes stay with
   * the browser).
   */
  function CookieSentBack(setCookie: string): (r: string)
    ensures ';' !in r
  {
    JsStrings.Split(setCookie, ';')[0]
  }

  /** A cookie pair without `;` followed by attributes is sent back as that pair. */
  lemma CookieSentBackOf(pair: string, attributes: string)
    requires ';' !in pair
    ensures CookieSentBack(pair + "; " + attributes) == pair
  {
    var line := pair + "; " + attributes;
    assert line == pair + [';'] + (" " + attributes);
    JsStrings.IndexOfJoin(pair, ';', " " + attributes);
    JsStrings.SplitStep(line, ';', |pair|);
    assert line[..|pair|] == pair;
  }
}
