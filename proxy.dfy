/**
 * src/proxy/proxyRouter.js: the `translateError` helper, the content classification,
 * the toolbar injection, the headers forwarded to the browser, and the decisions of
 * `GET /proxy/:encodedUrl` and `POST /browse`. The upstream request is the parameter
 * `fetch`; `res.locals.t.error` is the parameter `t`.
 */
module ProxyRouter {
  import opened Wrappers
  import opened Strings
  import opened Bytes
  import opened Urls
  import opened OrderedMap
  import Utf8
  import UrlRewriter
  import Security
  import SessionManager

  // ----------------------------------------------------------------- translateError

  /** The `error` table of the request's locale, `None` where the locale has none. */
  type ErrorTable = Option<map<string, string>>

  /** The id in `error.<id>.<rest>`: `key.split('.')[1]`. */
  function ErrorId(key: string): (k: string)
    requires StartsWith(key, "error.")
    ensures k == FirstField(key[6..], '.')
  {
    assert key == "error" + ['.'] + key[6..];
    SplitCons("error", '.', key[6..]);
    Split(key, '.')[1]
  }

  /** `translateError(t, key)`: a key `error.<id>` becomes its translation when the table
    * has a non-empty one, and stays the key otherwise; any other key is returned as is. */
  function TranslateError(t: ErrorTable, key: string): (r: string)
    ensures !StartsWith(key, "error.") ==> r == key
    ensures StartsWith(key, "error.") ==>
      var id := FirstField(key[6..], '.');
      r == if t.Some? && id in t.value && t.value[id] != "" then t.value[id] else key
  {
    if StartsWith(key, "error.") then
      var k := ErrorId(key);
      if t.Some? && k in t.value && t.value[k] != "" then t.value[k] else key
    else key
  }

  /** A key `error.<id>` or `error.<id>.<more>` is looked up under `<id>`, the text
    * between the first and the second dot. */
  lemma TranslateKnown(t: map<string, string>, id: string, rest: string)
    requires '.' !in id
    requires rest == [] || rest[0] == '.'
    ensures var key := "error." + id + rest;
            TranslateError(Some(t), key) == if id in t && t[id] != "" then t[id] else key
  {
    var key := "error." + id + rest;
    assert key[..6] == "error.";
    assert key[6..] == id + rest;
    if rest == [] {
      assert id + rest == id;
    } else {
      assert id + rest == id + ['.'] + rest[1..];
      FirstFieldOf(id, '.', rest[1..]);
    }
  }

  /** A locale without an `error` table shows the raw keys. */
  lemma UntranslatedKeys(key: string)
    ensures TranslateError(None, key) == key
  {
  }

  // ----------------------------------------------------------------- content classification

  /** The content types `isStreamingContent` pipes through without buffering. */
  const StreamingTypes: seq<string> :=
    ["video/", "audio/", "application/octet-stream", "application/pdf", "application/zip",
     "application/x-rar", "image/", "font/"]

  /** `markers.some(m => s.includes(m))`. */
  function ContainsAny(s: string, markers: seq<string>): (r: bool)
    ensures r <==> exists i :: 0 <= i < |markers| && Contains(s, markers[i])
  {
    if markers == [] then false
    else
      assert forall i :: 1 <= i < |markers| ==> markers[1..][i - 1] == markers[i];
      Contains(s, markers[0]) || ContainsAny(s, markers[1..])
  }

  /** `isStreamingContent(contentType)`. */
  function IsStreamingContent(contentType: string): (r: bool)
    ensures r <==> exists i :: 0 <= i < |StreamingTypes| && Contains(contentType, StreamingTypes[i])
  {
    ContainsAny(contentType, StreamingTypes)
  }

  /** An HTML document is buffered and rewritten, not streamed: no marker's first letter
    * occurs in `text/html`. */
  lemma HtmlIsNotStreamed()
    ensures !IsStreamingContent("text/html")
  {
    var ct := "text/html";
    assert 'v' !in ct && 'a' !in ct && 'i' !in ct && 'f' !in ct;
    forall i | 0 <= i < |StreamingTypes| ensures !Contains(ct, StreamingTypes[i]) {
      assert StreamingTypes[i][0] in "vaif";
      MissingChar(ct, StreamingTypes[i], 0);
    }
  }

  /** Any image type is streamed, SVG included, so SVG documents are never rewritten. */
  lemma ImagesAreStreamed(rest: string)
    ensures IsStreamingContent("image/" + rest)
  {
    var ct := "image/" + rest;
    assert OccursAt(ct, StreamingTypes[6], 0) by {
      assert ct[0..6] == "image/";
    }
    ContainsAt(ct, StreamingTypes[6], 0);
  }

  /** Which rewriter the buffered path applies. */
  datatype ContentKind = Html | Css | Script | Other

  /** The `if` chain on `contentType.includes(...)`, first match wins. */
  function KindOf(contentType: string): (k: ContentKind)
    ensures k == Html <==> Contains(contentType, "text/html")
    ensures k == Css <==> !Contains(contentType, "text/html") && Contains(contentType, "text/css")
    ensures k == Script <==>
      && !Contains(contentType, "text/html") && !Contains(contentType, "text/css")
      && (Contains(contentType, "javascript") || Contains(contentType, "ecmascript"))
  {
    if Contains(contentType, "text/html") then Html
    else if Contains(contentType, "text/css") then Css
    else if Contains(contentType, "javascript") || Contains(contentType, "ecmascript") then Script
    else Other
  }

  // ----------------------------------------------------------------- injectProxyToolbar

  /** `<body` at index `k`, compared without regard to ASCII case (the `i` flag). */
  predicate CiBodyAt(html: string, k: int) {
    0 <= k && k + 5 <= |html| && ToLower(html[k..k + 5]) == "<body"
  }

  /** The first case-insensitive `<body` at or after `from`, or -1. */
  function FirstCiBody(html: string, from: nat): (r: int)
    ensures r == -1 || (from <= r && CiBodyAt(html, r))
    ensures forall k :: from <= k < (if r == -1 then |html| + 1 else r) ==> !CiBodyAt(html, k)
    decreases |html| - from
  {
    if from + 5 > |html| then -1
    else if CiBodyAt(html, from) then from
    else FirstCiBody(html, from + 1)
  }

  /** `html.match(/<body[^>]*>/i)` as a start and an end index. The match starts at the first
    * case-insensitive `<body`: where no `>` follows that one, none follows a later one. */
  function BodyTag(html: string): (m: Option<(nat, nat)>)
    ensures m.Some? ==> var (k, e) := m.value;
      && CiBodyAt(html, k) && k + 5 < e <= |html| && html[e - 1] == '>'
      && (forall j :: 0 <= j < k ==> !CiBodyAt(html, j))
      && (forall j :: k + 5 <= j < e - 1 ==> html[j] != '>')
  {
    var k := FirstCiBody(html, 0);
    if k < 0 then None
    else
      var e := IndexFrom(html, ">", k + 5);
      if e < 0 then None
      else
        FirstClose(html, k + 5);
        Some((k, e + 1))
  }

  /** The first `>` from `from` on, read character by character. */
  lemma FirstClose(html: string, from: nat)
    requires from <= |html|
    ensures var e := IndexFrom(html, ">", from);
      && (e >= 0 ==> e < |html| && html[e] == '>')
      && forall j :: from <= j < (if e < 0 then |html| else e) ==> html[j] != '>'
  {
    var e := IndexFrom(html, ">", from);
    if e >= 0 {
      assert html[e..e + 1] == ">";
    }
    forall j | from <= j < (if e < 0 then |html| else e) ensures html[j] != '>' {
      assert !OccursAt(html, ">", j);
      assert html[j..j + 1] == [html[j]];
    }
  }

  /** The regex has no match exactly when no case-insensitive `<body` is followed by `>`. */
  lemma BodyTagExists(html: string, k: int, j: int)
    requires CiBodyAt(html, k) && k + 5 <= j < |html| && html[j] == '>'
    ensures BodyTag(html).Some?
  {
    var k0 := FirstCiBody(html, 0);
    assert k0 >= 0 && k0 <= k;
    assert OccursAt(html, ">", j) by {
      assert html[j..j + 1] == [html[j]];
    }
  }

  /** The matched text first occurs where the match starts, so `indexOf` finds the match. */
  lemma TagFoundAtMatch(html: string)
    requires BodyTag(html).Some?
    ensures var (k, e) := BodyTag(html).value;
            IndexOf(html, html[k..e]) == k
  {
    var (k, e) := BodyTag(html).value;
    var tag := html[k..e];
    assert OccursAt(html, tag, k);
    forall j | 0 <= j < k ensures !OccursAt(html, tag, j) {
      if j + |tag| <= |html| {
        assert !CiBodyAt(html, j);
        assert html[j..j + 5] != html[k..k + 5];
        assert html[j..j + |tag|][..5] == html[j..j + 5];
        assert tag[..5] == html[k..k + 5];
      }
    }
  }

  /** `injectProxyToolbar`: with a lowercase `<body` in the page and a match of the tag,
    * the toolbar goes right after the case-insensitive `<body...>` tag; otherwise in front.
    * `toolbar` is the rendered toolbar markup. */
  function InjectProxyToolbar(html: string, toolbar: string): (r: string)
    ensures Contains(html, "<body") && BodyTag(html).Some? ==>
      var e := BodyTag(html).value.1;
      r == html[..e] + toolbar + html[e..]
    ensures !(Contains(html, "<body") && BodyTag(html).Some?) ==> r == toolbar + html
  {
    if Contains(html, "<body") && BodyTag(html).Some? then
      var (k, e) := BodyTag(html).value;
      var bodyMatch := html[k..e];
      TagFoundAtMatch(html);
      var insertPos := IndexOf(html, bodyMatch) + |bodyMatch|;
      html[..insertPos] + toolbar + html[insertPos..]
    else toolbar + html
  }

  /** A page whose only body tag is upper-case gets the toolbar in front of everything,
    * although the case-insensitive pattern would have matched. */
  lemma UppercaseBodyPrepends(toolbar: string)
    ensures BodyTag("<BODY>").Some?
    ensures InjectProxyToolbar("<BODY>", toolbar) == toolbar + "<BODY>"
  {
    var html := "<BODY>";
    assert ToLower(html[0..5]) == "<body";
    BodyTagExists(html, 0, 5);
    assert 'b' !in html;
    MissingChar(html, "<body", 1);
  }

  // ----------------------------------------------------------------- forwarded response headers

  /** The upstream headers copied to the browser when truthy: the safe list, then the
    * length and range headers. */
  const SafeHeaders: seq<string> :=
    ["content-type", "last-modified", "etag", "cache-control", "expires", "content-language", "vary"]
  const RangeHeaders: seq<string> := ["content-length", "accept-ranges", "content-range"]

  /** Each listed header the upstream reply carries with a non-empty value, in list order. */
  function CopyTruthy(upstream: Security.Headers, names: seq<string>): Security.Headers {
    if names == [] then []
    else
      var h := CopyTruthy(upstream, names[..|names| - 1]);
      var n := names[|names| - 1];
      if SessionManager.Truthy(Get(upstream, n)) then Set(h, n, Get(upstream, n).value) else h
  }

  lemma CopySnoc(upstream: Security.Headers, names: seq<string>, n: string)
    ensures CopyTruthy(upstream, names + [n]) ==
            var h := CopyTruthy(upstream, names);
            if SessionManager.Truthy(Get(upstream, n)) then Set(h, n, Get(upstream, n).value) else h
  {
    assert (names + [n])[..|names|] == names;
  }

  /** A header is copied exactly when it is listed and truthy upstream. */
  lemma {:induction false} CopyTruthyGet(upstream: Security.Headers, names: seq<string>, k: string)
    ensures Get(CopyTruthy(upstream, names), k) ==
            if k in names && SessionManager.Truthy(Get(upstream, k)) then Get(upstream, k) else None
  {
    if names != [] {
      var init := names[..|names| - 1];
      CopyTruthyGet(upstream, init, k);
      assert names == init + [names[|names| - 1]];
      assert k in names <==> k in init || k == names[|names| - 1];
    }
  }

  /** The response headers: the copied ones, then `nosniff` and `SAMEORIGIN`. */
  function ForwardedHeaders(upstream: Security.Headers): Security.Headers {
    var h := CopyTruthy(upstream, SafeHeaders + RangeHeaders);
    Set(Set(h, "x-content-type-options", "nosniff"), "x-frame-options", "SAMEORIGIN")
  }

  /** The browser sees the two security headers, the listed headers that were truthy
    * upstream with their upstream values, and nothing else. */
  lemma ForwardedGet(upstream: Security.Headers, k: string)
    ensures Get(ForwardedHeaders(upstream), k) ==
            if k == "x-frame-options" then Some("SAMEORIGIN")
            else if k == "x-content-type-options" then Some("nosniff")
            else if k in SafeHeaders + RangeHeaders && SessionManager.Truthy(Get(upstream, k)) then Get(upstream, k)
            else None
  {
    CopyTruthyGet(upstream, SafeHeaders + RangeHeaders, k);
  }

  /** The loop over the safe list. */
  method CopySafeHeaders(upstream: Security.Headers) returns (responseHeaders: Security.Headers)
    ensures responseHeaders == CopyTruthy(upstream, SafeHeaders)
  {
    responseHeaders := [];
    for i := 0 to |SafeHeaders|
      invariant responseHeaders == CopyTruthy(upstream, SafeHeaders[..i])
    {
      CopySnoc(upstream, SafeHeaders[..i], SafeHeaders[i]);
      assert SafeHeaders[..i + 1] == SafeHeaders[..i] + [SafeHeaders[i]];
      var value := Get(upstream, SafeHeaders[i]);
      if SessionManager.Truthy(value) {
        responseHeaders := Set(responseHeaders, SafeHeaders[i], value.value);
      }
    }
    assert SafeHeaders[..|SafeHeaders|] == SafeHeaders;
  }

  /** The header-copying part of the response callback: the loop, then three tests. */
  method CopyResponseHeaders(upstream: Security.Headers) returns (responseHeaders: Security.Headers)
    ensures responseHeaders == ForwardedHeaders(upstream)
  {
    responseHeaders := CopySafeHeaders(upstream);
    ghost var names := SafeHeaders;
    var contentLength := Get(upstream, "content-length");
    CopySnoc(upstream, names, "content-length");
    if SessionManager.Truthy(contentLength) {
      responseHeaders := Set(responseHeaders, "content-length", contentLength.value);
    }
    names := names + ["content-length"];
    assert responseHeaders == CopyTruthy(upstream, names);
    var acceptRanges := Get(upstream, "accept-ranges");
    CopySnoc(upstream, names, "accept-ranges");
    if SessionManager.Truthy(acceptRanges) {
      responseHeaders := Set(responseHeaders, "accept-ranges", acceptRanges.value);
    }
    names := names + ["accept-ranges"];
    assert responseHeaders == CopyTruthy(upstream, names);
    var contentRange := Get(upstream, "content-range");
    CopySnoc(upstream, names, "content-range");
    if SessionManager.Truthy(contentRange) {
      responseHeaders := Set(responseHeaders, "content-range", contentRange.value);
    }
    names := names + ["content-range"];
    assert responseHeaders == CopyTruthy(upstream, names);
    assert names == SafeHeaders + RangeHeaders;
    responseHeaders := Set(responseHeaders, "x-content-type-options", "nosniff");
    responseHeaders := Set(responseHeaders, "x-frame-options", "SAMEORIGIN");
  }

  // ----------------------------------------------------------------- GET /proxy/:encodedUrl

  /** The lists and limits the handler reads from the configuration. */
  datatype ProxyConfig = ProxyConfig(
    blockedDomains: seq<string>, metadataEndpoints: seq<string>, userAgents: seq<string>,
    maxResponseSize: nat, javascriptRewrite: bool, websockets: bool)

  /** The rewriter's inputs the model leaves abstract: the reference extraction of the HTML,
    * CSS and JavaScript passes, the interception script, and the toolbar for a target. */
  datatype Rewriting = Rewriting(
    extractHtml: string -> seq<UrlRewriter.Fragment>, extractCss: string -> seq<UrlRewriter.Fragment>,
    extractJs: string -> seq<UrlRewriter.Fragment>, script: string, toolbar: string -> string)

  /** What the browser receives. `Uncaught` is the exception `parseCookie` raises inside the
    * response callback, where nothing catches it and no reply is sent. */
  datatype Reply =
    | ErrorPage(status: int, title: string, error: string)
    | Redirect(status: int, location: string)
    | Forward(status: int, headers: Security.Headers, body: Body)
    | Uncaught

  /** A streamed body is piped through as it arrives; a buffered one is the rewritten text. */
  datatype Body = Piped | Buffered(content: string)

  /** The checks before any header is built: the 403 of the validation, the 500 of a
    * target the URL constructor rejects, the 403 of the second block check. */
  datatype Admission = Rejected(page: Reply) | Admitted(targetUrl: string, target: Url)

  function Admit(encodedUrl: string, t: ErrorTable, cfg: ProxyConfig, parse: Parser): (a: Admission)
    ensures a.Rejected? ==> a.page.ErrorPage? && a.page.status in {403, 500}
    ensures var v := Security.ValidateAndNormalizeURL(UrlRewriter.DecodeURL(encodedUrl), cfg.metadataEndpoints,
                                                       cfg.blockedDomains, parse);
            v.Valid? && parse(v.url).None? ==>
              a == Rejected(ErrorPage(500, TranslateError(t, "error.title_generic"), TranslateError(t, "error.title_generic")))
    ensures var v := Security.ValidateAndNormalizeURL(UrlRewriter.DecodeURL(encodedUrl), cfg.metadataEndpoints,
                                                       cfg.blockedDomains, parse);
            v.Valid? && parse(v.url).Some?
            && Security.IsBlockedURL(v.url, cfg.metadataEndpoints, cfg.blockedDomains, parse).Blocked? ==>
              var b := Security.IsBlockedURL(v.url, cfg.metadataEndpoints, cfg.blockedDomains, parse);
              a == Rejected(ErrorPage(403, TranslateError(t, "error.blocked_site"),
                                      TranslateError(t, "error.blocked_access") + ": " + TranslateError(t, Security.ReasonKey(b.reason))))
    ensures var v := Security.ValidateAndNormalizeURL(UrlRewriter.DecodeURL(encodedUrl), cfg.metadataEndpoints,
                                                       cfg.blockedDomains, parse);
            v.Valid? && parse(v.url).Some?
            && Security.IsBlockedURL(v.url, cfg.metadataEndpoints, cfg.blockedDomains, parse) == Security.Allowed ==>
              a == Admitted(v.url, parse(v.url).value)
    ensures a.Admitted? ==>
      && parse(a.targetUrl) == Some(a.target)
      && Security.IsBlockedURL(a.targetUrl, cfg.metadataEndpoints, cfg.blockedDomains, parse) == Security.Allowed
    ensures var v := Security.ValidateAndNormalizeURL(UrlRewriter.DecodeURL(encodedUrl), cfg.metadataEndpoints,
                                                       cfg.blockedDomains, parse);
            v.Invalid? ==>
              a == Rejected(ErrorPage(403, TranslateError(t, "error.access_denied"), TranslateError(t, v.error)))
    ensures a.Admitted? ==>
      a.targetUrl == Security.ValidateAndNormalizeURL(UrlRewriter.DecodeURL(encodedUrl), cfg.metadataEndpoints,
                                                      cfg.blockedDomains, parse).url
  {
    var targetUrl := UrlRewriter.DecodeURL(encodedUrl);
    var validation := Security.ValidateAndNormalizeURL(targetUrl, cfg.metadataEndpoints, cfg.blockedDomains, parse);
    if validation.Invalid? then
      Rejected(ErrorPage(403, TranslateError(t, "error.access_denied"), TranslateError(t, validation.error)))
    else
      match parse(validation.url)
      case None =>
        Rejected(ErrorPage(500, TranslateError(t, "error.title_generic"), TranslateError(t, "error.title_generic")))
      case Some(targetUrlObj) =>
        match Security.IsBlockedURL(validation.url, cfg.metadataEndpoints, cfg.blockedDomains, parse)
        case Blocked(reason) =>
          Rejected(ErrorPage(403, TranslateError(t, "error.blocked_site"),
                             TranslateError(t, "error.blocked_access") + ": " + TranslateError(t, Security.ReasonKey(reason))))
        case Allowed => Admitted(validation.url, targetUrlObj)
  }

  /** An admitted target is none of the address kinds the classifier refuses. */
  lemma AdmittedIsSafe(encodedUrl: string, t: ErrorTable, cfg: ProxyConfig, parse: Parser)
    requires Admit(encodedUrl, t, cfg, parse).Admitted?
    ensures var h := Admit(encodedUrl, t, cfg, parse).target.hostname;
            && !Security.IsPrivateIP(h)
            && !UrlRewriter.IsDomainBlocked(h, cfg.metadataEndpoints)
            && !Security.IsLocalhost(h)
            && !UrlRewriter.IsDomainBlocked(h, cfg.blockedDomains)
            && Admit(encodedUrl, t, cfg, parse).target.protocol != "file:"
  {
  }

  /** With a parser that reads a URL's own `href` back to the same URL, validation has already
    * run every check of the second `isBlockedURL`: the `blocked_site` page never appears. */
  lemma SecondCheckRedundant(encodedUrl: string, t: ErrorTable, cfg: ProxyConfig, parse: Parser)
    requires var target := Security.WithScheme(UrlRewriter.DecodeURL(encodedUrl));
             parse(target).Some? && parse(parse(target).value.href) == parse(target)
    ensures Admit(encodedUrl, t, cfg, parse).Rejected? ==>
            Admit(encodedUrl, t, cfg, parse).page.title == TranslateError(t, "error.access_denied")
  {
    var targetUrl := UrlRewriter.DecodeURL(encodedUrl);
    var v := Security.ValidateAndNormalizeURL(targetUrl, cfg.metadataEndpoints, cfg.blockedDomains, parse);
    if v.Valid? {
      Security.ValidMeansAllowed(targetUrl, cfg.metadataEndpoints, cfg.blockedDomains, parse);
    }
  }

  /** The accept headers the handler sets over the sanitised ones. */
  const DefaultAccept: string := "text/html,application/xhtml+xml,application/xml;q=0.9,image/webp,*/*;q=0.8"
  const DefaultAcceptLanguage: string := "ar,en-US;q=0.9,en;q=0.8"

  /** The options of the upstream request. */
  datatype RequestPlan = RequestPlan(secure: bool, hostname: string, port: string, path: string,
                                     requestMethod: string, headers: Security.Headers)

  /** The request built for an admitted target: the sanitised headers, the jar's `Cookie`
    * header when it is non-empty, the handler's accept defaults, and the default port of
    * the scheme where the URL names none. The browser's method is passed on: `GET`, or
    * `HEAD`, which Express routes to the same handler. */
  function PlanRequest(target: Url, requestMethod: string, sanitized: Security.Headers, inbound: Security.Headers,
                       cookies: string): (p: RequestPlan)
    ensures Get(p.headers, "cookie") == if cookies != "" then Some(cookies) else Get(sanitized, "cookie")
    ensures Get(p.headers, "accept") == Some(Security.OrDefault(inbound, "accept", DefaultAccept))
    ensures Get(p.headers, "accept-language") == Some(Security.OrDefault(inbound, "accept-language", DefaultAcceptLanguage))
    ensures forall k :: k != "cookie" && k != "accept" && k != "accept-language" ==> Get(p.headers, k) == Get(sanitized, k)
    ensures p.secure <==> target.protocol == "https:"
    ensures p.port == if target.port != "" then target.port else if p.secure then "443" else "80"
    ensures p.requestMethod == requestMethod && p.path == target.pathname + target.search
  {
    var withCookie := if cookies != "" then Set(sanitized, "cookie", cookies) else sanitized;
    var withAccept := Set(withCookie, "accept", Security.OrDefault(inbound, "accept", DefaultAccept));
    var headers := Set(withAccept, "accept-language", Security.OrDefault(inbound, "accept-language", DefaultAcceptLanguage));
    var secure := target.protocol == "https:";
    RequestPlan(secure, target.hostname, if target.port != "" then target.port else if secure then "443" else "80",
                target.pathname + target.search, requestMethod, headers)
  }

  /** The only cookies the upstream server sees are the jar's: the browser's own `Cookie`
    * header has been stripped. */
  lemma UpstreamCookiesFromJar(target: Url, requestMethod: string, inbound: Security.Headers, host: string,
                               userAgents: seq<string>, pick: nat, cookies: string)
    requires |userAgents| > 0 ==> pick < |userAgents|
    ensures var sanitized := Security.SanitizedHeaders(inbound, host, userAgents, pick);
            Get(PlanRequest(target, requestMethod, sanitized, inbound, cookies).headers, "cookie") ==
            if cookies != "" then Some(cookies) else None
  {
    Security.SanitizedHeadersContents(inbound, host, userAgents, pick);
    assert "cookie" in Security.StrippedHeaders;
  }

  /** The upstream outcome: the request failed, timed out, or answered. A `body` of `None`
    * is a decompression or stream error before the end of the body. */
  datatype Upstream =
    | RequestError
    | Timeout
    | Response(status: int, headers: Security.Headers, setCookie: Option<SessionManager.SetCookie>,
               body: Option<seq<byte>>)

  const RedirectStatuses: set<int> := {301, 302, 303, 307, 308}

  predicate IsRedirect(up: Upstream) {
    up.Response? && up.status in RedirectStatuses && SessionManager.Truthy(Get(up.headers, "location"))
  }

  /** Cookies are stored for every answer that is not a followed redirect. */
  predicate StoresCookies(up: Upstream) {
    up.Response? && !IsRedirect(up) && up.setCookie.Some?
  }

  /** The rewriting of a buffered body of the given kind: HTML gets the reference passes,
    * the interception script and the toolbar; CSS gets its reference passes; a script is
    * rewritten only with JavaScript rewriting on; any other text is kept. */
  function Transform(kind: ContentKind, content: string, targetUrl: string, cfg: ProxyConfig, parse: Parser,
                     rw: Rewriting): (r: string)
    ensures kind == Other || (kind == Script && !cfg.javascriptRewrite) ==> r == content
    ensures kind == Css ==>
      exists rs :: UrlRewriter.MapsFragments(rw.extractCss(content), rs, targetUrl, cfg.blockedDomains, parse, false)
                   && r == UrlRewriter.Render(rs)
    ensures kind == Script && cfg.javascriptRewrite ==>
      exists rs :: UrlRewriter.MapsFragments(rw.extractJs(content), rs, targetUrl, cfg.blockedDomains, parse,
                                             cfg.websockets)
                   && r == UrlRewriter.Render(rs)
    ensures kind == Html ==>
      r == InjectProxyToolbar(UrlRewriter.RewriteHTML(content, targetUrl, cfg.blockedDomains, parse, rw.extractHtml, rw.script),
                              rw.toolbar(targetUrl))
  {
    match kind
    case Html =>
      InjectProxyToolbar(UrlRewriter.RewriteHTML(content, targetUrl, cfg.blockedDomains, parse, rw.extractHtml, rw.script),
                         rw.toolbar(targetUrl))
    case Css => UrlRewriter.RewriteCSS(content, targetUrl, cfg.blockedDomains, parse, rw.extractCss)
    case Script =>
      if cfg.javascriptRewrite then UrlRewriter.RewriteJS(content, targetUrl, cfg.blockedDomains, parse, rw.extractJs, cfg.websockets)
      else content
    case Other => content
  }

  /** The reply to an upstream outcome, after the cookies have been stored. */
  function Respond(up: Upstream, targetUrl: string, t: ErrorTable, cfg: ProxyConfig, parse: Parser,
                   rw: Rewriting): (r: Reply)
    ensures r.ErrorPage? ==> r.status in {413, 500, 502, 504}
    ensures r.Redirect? <==> IsRedirect(up)
    ensures r.Redirect? ==>
      r == Redirect(up.status, UrlRewriter.RewriteURL(Get(up.headers, "location").value, targetUrl, cfg.blockedDomains, parse))
    ensures r.Forward? ==> up.Response? && r.status == up.status
    ensures r.Forward? && r.body.Piped? ==> r.headers == ForwardedHeaders(up.headers)
    ensures r.Forward? && r.body.Buffered? ==>
      r.headers == Set(ForwardedHeaders(up.headers), "content-length", NatToString(|Utf8.Encode(r.body.content)|))
    ensures r != Uncaught
  {
    match up
    case RequestError =>
      ErrorPage(502, TranslateError(t, "error.title_502"), TranslateError(t, "error.title_503"))
    case Timeout =>
      ErrorPage(504, TranslateError(t, "error.title_503"), TranslateError(t, "error.title_503"))
    case Response(status, headers, _, body) =>
      if IsRedirect(up) then
        Redirect(status, UrlRewriter.RewriteURL(Get(headers, "location").value, targetUrl, cfg.blockedDomains, parse))
      else
        var contentType := Get(headers, "content-type").GetOr("");
        var responseHeaders := ForwardedHeaders(headers);
        if IsStreamingContent(contentType) then Forward(status, responseHeaders, Piped)
        else
          match body
          case None =>
            ErrorPage(500, TranslateError(t, "error.title_502"), TranslateError(t, "error.title_generic"))
          case Some(bytes) =>
            if |bytes| > cfg.maxResponseSize then
              ErrorPage(413, TranslateError(t, "error.title_generic"), "Response size exceeds limit")
            else
              var content := Transform(KindOf(contentType), Utf8.Decode(bytes), targetUrl, cfg, parse, rw);
              Forward(status, Set(responseHeaders, "content-length", NatToString(|Utf8.Encode(content)|)),
                      Buffered(content))
  }

  /** A forwarded reply always carries the two security headers and never a header outside
    * the copied lists. */
  lemma ForwardHeadersBounded(up: Upstream, targetUrl: string, t: ErrorTable, cfg: ProxyConfig, parse: Parser,
                              rw: Rewriting, k: string)
    requires Respond(up, targetUrl, t, cfg, parse, rw).Forward?
    ensures var h := Respond(up, targetUrl, t, cfg, parse, rw).headers;
            && Get(h, "x-content-type-options") == Some("nosniff")
            && Get(h, "x-frame-options") == Some("SAMEORIGIN")
            && (Has(h, k) ==> k in SafeHeaders + RangeHeaders || k == "x-content-type-options" || k == "x-frame-options")
  {
    var h := Respond(up, targetUrl, t, cfg, parse, rw).headers;
    var f := ForwardedHeaders(up.headers);
    ForwardedGet(up.headers, k);
    ForwardedGet(up.headers, "x-content-type-options");
    ForwardedGet(up.headers, "x-frame-options");
    assert "content-length" in SafeHeaders + RangeHeaders;
    assert Get(h, k) == Get(f, k) || k == "content-length";
    assert Get(h, "x-frame-options") == Get(f, "x-frame-options");
    assert Get(h, "x-content-type-options") == Get(f, "x-content-type-options");
  }

  /** A buffered reply's `content-length` is the decimal UTF-8 length of what is sent. */
  lemma BufferedContentLength(up: Upstream, targetUrl: string, t: ErrorTable, cfg: ProxyConfig, parse: Parser,
                              rw: Rewriting)
    requires Respond(up, targetUrl, t, cfg, parse, rw).Forward?
    requires Respond(up, targetUrl, t, cfg, parse, rw).body.Buffered?
    ensures var r := Respond(up, targetUrl, t, cfg, parse, rw);
            var n := |Utf8.Encode(r.body.content)|;
            Get(r.headers, "content-length") == Some(NatToString(n)) && DigitsValue(NatToString(n)) == n
  {
    var r := Respond(up, targetUrl, t, cfg, parse, rw);
    NatToStringValue(|Utf8.Encode(r.body.content)|);
  }

  /** An oversized body gets the 413 page whatever the rewriter would have done with it. */
  lemma OversizeSkipsRewriting(up: Upstream, targetUrl: string, t: ErrorTable, cfg: ProxyConfig, parse: Parser,
                               rw1: Rewriting, rw2: Rewriting)
    requires up.Response? && !IsRedirect(up) && up.body.Some? && |up.body.value| > cfg.maxResponseSize
    requires !IsStreamingContent(Get(up.headers, "content-type").GetOr(""))
    ensures Respond(up, targetUrl, t, cfg, parse, rw1) == Respond(up, targetUrl, t, cfg, parse, rw2)
    ensures Respond(up, targetUrl, t, cfg, parse, rw1).ErrorPage?
    ensures Respond(up, targetUrl, t, cfg, parse, rw1).status == 413
  {
  }

  /** Which pass a buffered body of each kind goes through. */
  lemma BufferedContent(up: Upstream, targetUrl: string, t: ErrorTable, cfg: ProxyConfig, parse: Parser,
                        rw: Rewriting)
    requires up.Response? && !IsRedirect(up) && up.body.Some? && |up.body.value| <= cfg.maxResponseSize
    requires !IsStreamingContent(Get(up.headers, "content-type").GetOr(""))
    ensures var ct := Get(up.headers, "content-type").GetOr("");
            var text := Utf8.Decode(up.body.value);
            var r := Respond(up, targetUrl, t, cfg, parse, rw);
            && r.Forward? && r.body.Buffered?
            && (KindOf(ct) == Html ==>
                  r.body.content == InjectProxyToolbar(
                    UrlRewriter.RewriteHTML(text, targetUrl, cfg.blockedDomains, parse, rw.extractHtml, rw.script),
                    rw.toolbar(targetUrl)))
            && (KindOf(ct) == Css ==>
                  r.body.content == UrlRewriter.RewriteCSS(text, targetUrl, cfg.blockedDomains, parse, rw.extractCss))
            && (KindOf(ct) == Script && !cfg.javascriptRewrite ==> r.body.content == text)
            && (KindOf(ct) == Other ==> r.body.content == text)
  {
  }

  /** A buffered body of no rewritten kind reaches the browser exactly as sent, once decoded. */
  lemma PlainTextRoundTrip(status: int, headers: Security.Headers, setCookie: Option<SessionManager.SetCookie>,
                           text: string, targetUrl: string, t: ErrorTable, cfg: ProxyConfig, parse: Parser,
                           rw: Rewriting)
    requires var up := Response(status, headers, setCookie, Some(Utf8.Encode(text)));
             !IsRedirect(up) && |Utf8.Encode(text)| <= cfg.maxResponseSize
    requires var ct := Get(headers, "content-type").GetOr("");
             !IsStreamingContent(ct) && KindOf(ct) == Other
    ensures Respond(Response(status, headers, setCookie, Some(Utf8.Encode(text))), targetUrl, t, cfg, parse, rw).body
            == Buffered(text)
  {
    BufferedContent(Response(status, headers, setCookie, Some(Utf8.Encode(text))), targetUrl, t, cfg, parse, rw);
    Utf8.DecodeEncode(text);
  }

  /** `GET /proxy/:encodedUrl` after the rate limiter and the bandwidth gate: the admission
    * checks, the jar's cookies for the target host, the upstream request (`fetch`), the
    * cookies it sets, and the reply. `sent` is the request issued, if any. The clock is
    * read twice: `requestNow` when the jar is read for the request, `responseNow` when
    * the response's `Set-Cookie` headers are stored. */
  method HandleProxy(store: SessionManager.CookieStore, sessionId: Option<string>, encodedUrl: string,
                     t: ErrorTable, cfg: ProxyConfig, parse: Parser, rw: Rewriting, inbound: Security.Headers,
                     requestMethod: string, pick: nat, requestNow: int, responseNow: int,
                     parseDate: SessionManager.DateParser, fetch: RequestPlan -> Upstream)
      returns (reply: Reply, sent: Option<RequestPlan>)
    requires store.Valid()
    requires |cfg.userAgents| > 0 ==> pick < |cfg.userAgents|
    requires requestNow <= responseNow
    modifies store
    ensures store.Valid()
    ensures Admit(encodedUrl, t, cfg, parse).Rejected? ==>
      && reply == Admit(encodedUrl, t, cfg, parse).page && sent == None
      && store.cookies == old(store.cookies)
    ensures Admit(encodedUrl, t, cfg, parse).Admitted? ==>
      var a := Admit(encodedUrl, t, cfg, parse);
      var host := a.target.hostname;
      var jar := if SessionManager.Truthy(sessionId) then SessionManager.GetCookiesSpec(old(store.cookies), sessionId.value, host, requestNow)
                 else ("", old(store.cookies));
      var sanitized := Security.SanitizedHeaders(inbound, a.target.Host(), cfg.userAgents, pick);
      var plan := PlanRequest(a.target, requestMethod, sanitized, inbound, jar.0);
      var up := fetch(plan);
      && sent == Some(plan)
      && (SessionManager.Truthy(sessionId) && StoresCookies(up) ==>
            var stored := SessionManager.StoreCookiesSpec(jar.1, sessionId.value, host, up.setCookie.value,
                                                          SessionManager.ParserAt(responseNow, parseDate));
            store.cookies == stored.0 && reply == if stored.1 then Respond(up, a.targetUrl, t, cfg, parse, rw) else Uncaught)
      && (!(SessionManager.Truthy(sessionId) && StoresCookies(up)) ==>
            store.cookies == jar.1 && reply == Respond(up, a.targetUrl, t, cfg, parse, rw))
  {
    var admission := Admit(encodedUrl, t, cfg, parse);
    if admission.Rejected? {
      return admission.page, None;
    }
    var targetUrl := admission.targetUrl;
    var targetUrlObj := admission.target;
    var headers := Security.GetSanitizedHeaders(inbound, targetUrl, cfg.userAgents, pick, parse);
    var cookies := "";
    if SessionManager.Truthy(sessionId) {
      cookies := store.GetCookies(sessionId.value, targetUrlObj.hostname, requestNow);
    }
    var plan := PlanRequest(targetUrlObj, requestMethod, headers.value, inbound, cookies);
    sent := Some(plan);
    var up := fetch(plan);
    reply := FinishProxy(store, sessionId, targetUrlObj.hostname, up, targetUrl, t, cfg, parse, rw, responseNow, parseDate);
  }

  /** The response callback of `GET /proxy`: the cookies the upstream sets, then the reply. */
  method FinishProxy(store: SessionManager.CookieStore, sessionId: Option<string>, host: string, up: Upstream,
                     targetUrl: string, t: ErrorTable, cfg: ProxyConfig, parse: Parser, rw: Rewriting,
                     now: int, parseDate: SessionManager.DateParser)
      returns (reply: Reply)
    requires store.Valid()
    modifies store
    ensures store.Valid()
    ensures SessionManager.Truthy(sessionId) && StoresCookies(up) ==>
      var stored := SessionManager.StoreCookiesSpec(old(store.cookies), sessionId.value, host, up.setCookie.value,
                                                    SessionManager.ParserAt(now, parseDate));
      store.cookies == stored.0 && reply == if stored.1 then Respond(up, targetUrl, t, cfg, parse, rw) else Uncaught
    ensures !(SessionManager.Truthy(sessionId) && StoresCookies(up)) ==>
      store.cookies == old(store.cookies) && reply == Respond(up, targetUrl, t, cfg, parse, rw)
  {
    if SessionManager.Truthy(sessionId) && StoresCookies(up) {
      var completed := store.StoreCookies(sessionId.value, host, up.setCookie.value, now, parseDate);
      if !completed {
        return Uncaught;
      }
    }
    reply := Respond(up, targetUrl, t, cfg, parse, rw);
  }

  // ----------------------------------------------------------------- POST /browse

  /** The outcomes of the form: the index page again with the translated error, or the
    * `302` that `res.redirect` sends to the proxied address. */
  datatype BrowseReply = ShowIndex(error: string, currentUrl: string) | BrowseRedirect(status: int, location: string)

  function Browse(url: string, t: ErrorTable, cfg: ProxyConfig, parse: Parser): (r: BrowseReply)
    ensures var v := Security.ValidateAndNormalizeURL(url, cfg.metadataEndpoints, cfg.blockedDomains, parse);
            && (v.Invalid? ==> r == ShowIndex(TranslateError(t, v.error), url))
            && (v.Valid? ==> r.BrowseRedirect? && r.status == 302 && StartsWith(r.location, "/proxy/")
                             && UrlRewriter.DecodeURL(r.location[7..]) == v.url)
  {
    var validation := Security.ValidateAndNormalizeURL(url, cfg.metadataEndpoints, cfg.blockedDomains, parse);
    if validation.Invalid? then ShowIndex(TranslateError(t, validation.error), url)
    else
      var location := "/proxy/" + UrlRewriter.EncodeURL(validation.url);
      assert location[..7] == "/proxy/" && location[7..] == UrlRewriter.EncodeURL(validation.url);
      UrlRewriter.DecodeEncodeURL(validation.url);
      BrowseRedirect(302, location)
  }

  /** A URL the form accepts is admitted by the proxy route it redirects to, when the parser
    * reads the normalised `href` back to the same URL. */
  lemma BrowseThenProxy(url: string, t: ErrorTable, cfg: ProxyConfig, parse: Parser)
    requires Browse(url, t, cfg, parse).BrowseRedirect?
    requires var target := Security.WithScheme(url);
             parse(target).Some? && parse(parse(target).value.href) == parse(target)
             && (StartsWith(parse(target).value.href, "http://") || StartsWith(parse(target).value.href, "https://"))
    ensures var token := Browse(url, t, cfg, parse).location[7..];
            Admit(token, t, cfg, parse).Admitted?
            && Admit(token, t, cfg, parse).targetUrl == parse(Security.WithScheme(url)).value.href
  {
    var u := parse(Security.WithScheme(url)).value;
    Security.ValidMeansAllowed(url, cfg.metadataEndpoints, cfg.blockedDomains, parse);
    var token := Browse(url, t, cfg, parse).location[7..];
    assert UrlRewriter.DecodeURL(token) == u.href;
    assert Security.WithScheme(u.href) == u.href;
  }

  /** `POST /browse` behind `ensureSession`. */
  method BrowseRoute(session: SessionManager.ProxySession, newId: string, nowIso: string, url: string,
                     t: ErrorTable, cfg: ProxyConfig, parse: Parser) returns (r: BrowseReply)
    modifies session
    ensures r == Browse(url, t, cfg, parse)
    ensures session.lastActive == Some(nowIso)
    ensures SessionManager.Truthy(old(session.proxySessionId)) ==>
      && session.proxySessionId == old(session.proxySessionId) && session.createdAt == old(session.createdAt)
      && session.bandwidthUsed == old(session.bandwidthUsed) && session.tier == old(session.tier)
      && session.requestCount == SessionManager.Increment(old(session.requestCount))
    ensures !SessionManager.Truthy(old(session.proxySessionId)) ==>
      && session.proxySessionId == Some(newId) && session.createdAt == Some(nowIso)
      && session.bandwidthUsed == Some(0) && session.requestCount == Some(1)
      && session.tier == Some(SessionManager.OrElse(old(session.tier), "free"))
  {
    session.EnsureSession(newId, nowIso);
    r := Browse(url, t, cfg, parse);
  }
}
