/**
 * The admission half of src/proxy/websocketHandler.js: the target carried in the `url`
 * query parameter, the `ws`/`http` scheme swap, the narrower allow-check, and the close
 * code the client socket gets when the connection is refused.
 */
module WebSocketHandler {
  import opened Wrappers
  import opened Strings
  import opened Urls
  import Base64
  import Utf8
  import UrlRewriter
  import Security

  /** The private ranges of the WebSocket check: five IPv4 prefixes, no `0.`, no IPv6. */
  predicate WsPrivate(h: string) {
    StartsWith(h, "10.") || Security.Private172(h) || StartsWith(h, "192.168.")
    || StartsWith(h, "127.") || StartsWith(h, "169.254.")
  }

  /** `checkWebSocketAllowed`: refused when the hostname is a blocked domain or under one,
    * or starts with one of the five private prefixes. */
  function CheckWebSocketAllowed(target: Url, blocked: seq<string>): (r: bool)
    ensures r <==>
      && (forall i :: 0 <= i < |blocked| ==> !UrlRewriter.MatchesDomain(target.hostname, blocked[i]))
      && !WsPrivate(target.hostname)
  {
    !UrlRewriter.IsDomainBlocked(target.hostname, blocked) && !WsPrivate(target.hostname)
  }

  /** Everything the WebSocket check refuses, the HTTP guard refuses too. */
  lemma WsRefusalImpliesHttpRefusal(target: Url, blocked: seq<string>)
    requires !CheckWebSocketAllowed(target, blocked)
    ensures UrlRewriter.IsDomainBlocked(target.hostname, blocked) || Security.IsPrivateIP(target.hostname)
  {
    var h := target.hostname;
    if WsPrivate(h) {
      var p := if StartsWith(h, "10.") then "10."
               else if Security.Private172(h) then "172."
               else if StartsWith(h, "192.168.") then "192.168."
               else if StartsWith(h, "127.") then "127."
               else "169.254.";
      FirstFieldKeepsPrefix(h, ':', p);
      if p == "172." {
        var f := FirstField(h, ':');
        assert h[..|f|] == f;
      }
    }
  }

  /** The HTTP guard's `0.` prefix and its metadata list are missing here: `0.0.0.0` and
    * `100.100.100.200` are admitted unless a blocked domain names them. */
  lemma WsAdmitsWhatHttpRefuses(target: Url)
    requires target.hostname in {"0.0.0.0", "100.100.100.200"}
    ensures CheckWebSocketAllowed(target, [])
    ensures target.hostname == "0.0.0.0" ==> Security.IsPrivateIP(target.hostname)
  {
    var h := target.hostname;
    if h == "0.0.0.0" {
      NotPrefix(h, "10.", 0);
      NotPrefix(h, "192.168.", 0);
      NotPrefix(h, "127.", 0);
      NotPrefix(h, "169.254.", 0);
      assert !Security.Private172(h) by { NotPrefix(h, "172.", 0); }
      assert ':' !in h;
      assert h[..2] == "0.";
    } else {
      NotPrefix(h, "10.", 2);
      NotPrefix(h, "192.168.", 1);
      NotPrefix(h, "127.", 1);
      NotPrefix(h, "169.254.", 1);
      assert !Security.Private172(h) by { NotPrefix(h, "172.", 1); }
    }
  }

  /** `targetUrl.replace(/^ws/, 'http')`. */
  function ToHttp(s: string): (r: string)
    ensures StartsWith(s, "ws://") ==> r == "http://" + s[5..]
    ensures StartsWith(s, "wss://") ==> r == "https://" + s[6..]
    ensures !StartsWith(s, "ws") ==> r == s
  {
    if StartsWith(s, "ws://") then
      SchemeSwap(s, "ws://", "http://", 2);
      ReplacePrefix(s, "ws", "http")
    else if StartsWith(s, "wss://") then
      SchemeSwap(s, "wss://", "https://", 2);
      ReplacePrefix(s, "ws", "http")
    else ReplacePrefix(s, "ws", "http")
  }

  /** `targetUrl.replace(/^http/, 'ws')`. */
  function ToWs(s: string): (r: string)
    ensures StartsWith(s, "http://") ==> r == "ws://" + s[7..]
    ensures StartsWith(s, "https://") ==> r == "wss://" + s[8..]
    ensures !StartsWith(s, "http") ==> r == s
  {
    if StartsWith(s, "http://") then
      SchemeSwap(s, "http://", "ws://", 4);
      ReplacePrefix(s, "http", "ws")
    else if StartsWith(s, "https://") then
      SchemeSwap(s, "https://", "wss://", 4);
      ReplacePrefix(s, "http", "ws")
    else ReplacePrefix(s, "http", "ws")
  }

  /** Replacing the first `n` characters of a scheme prefix `p` swaps it for `q`, provided
    * `p` and `q` differ only there. */
  lemma SchemeSwap(s: string, p: string, q: string, n: nat)
    requires StartsWith(s, p) && n <= |p|
    requires |q| - |p| + n >= 0 && q[|q| - |p| + n..] == p[n..]
    ensures ReplacePrefix(s, p[..n], q[..|q| - |p| + n]) == q + s[|p|..]
  {
    DropWithinPrefix(s, p, n);
    assert StartsWith(s, p[..n]) by { assert s[..n] == p[..n]; }
    assert q == q[..|q| - |p| + n] + q[|q| - |p| + n..];
  }

  /** The swap back undoes the swap for a `ws`/`wss` address, and the upstream address is
    * the same whether it is derived from the target or from its http form. */
  lemma SwapRoundTrip(s: string)
    ensures StartsWith(s, "ws") ==> ToWs(ToHttp(s)) == s
    ensures ToWs(ToHttp(s)) == ToWs(s)
  {
    if StartsWith(s, "ws") {
      var h := ToHttp(s);
      assert h == "http" + s[2..];
      assert h[..4] == "http";
      assert h[4..] == s[2..];
      assert s == "ws" + s[2..];
      assert !StartsWith(s, "http") by { assert s[..2][0] == 'w'; }
    }
  }

  /** What the connection handler does with a client socket. `Uncaught` is `new URL(httpUrl)`
    * throwing outside the `try`. */
  datatype Admission =
    | Close(code: int, reason: string)
    | Connect(wsTargetUrl: string, userAgent: Option<string>, origin: string)
    | Uncaught

  /** The `url` query parameter: `None` where `new URL(req.url, …)` throws, `Some(None)`
    * where the parameter is absent. */
  type Query = Option<Option<string>>

  /** The target the query names: a non-empty parameter decoded as base64url and then as
    * UTF-8, which is exactly what the HTTP route's `decodeURL` reads from its token. */
  function TargetOf(param: Option<string>): (r: Option<string>)
    ensures r.Some? <==> param.Some? && param.value != ""
    ensures r.Some? ==> r.value == UrlRewriter.DecodeURL(param.value)
  {
    if param.Some? && param.value != "" then Some(Utf8.Decode(Base64.Decode(param.value))) else None
  }

  /** The query names a non-empty target. */
  predicate HasTarget(query: Query) {
    query.Some? && TargetOf(query.value).Some? && TargetOf(query.value).value != ""
  }

  /** The connection handler up to the relay. `opens` is whether the `ws` client constructor
    * accepts the address instead of throwing. */
  function Admit(query: Query, blocked: seq<string>, userAgents: seq<string>, parse: Parser,
                 opens: string -> bool): (a: Admission)
    ensures a.Close? ==> a.code in {1002, 1008, 1011}
    ensures query.None? ==> a == Close(1002, "Invalid URL")
    ensures query.Some? && (TargetOf(query.value).None? || TargetOf(query.value).value == "") ==>
              a == Close(1002, "Target URL required")
    ensures a.Connect? ==>
      && query.Some? && TargetOf(query.value).Some?
      && var target := TargetOf(query.value).value;
         && parse(ToHttp(target)).Some?
         && CheckWebSocketAllowed(parse(ToHttp(target)).value, blocked)
         && a.wsTargetUrl == ToWs(target) && opens(ToWs(target))
         && a.origin == parse(ToHttp(target)).value.Origin()
         && a.userAgent == if |userAgents| > 0 then Some(userAgents[0]) else None
    ensures a == Close(1008, "Connection not allowed") <==>
      && query.Some? && TargetOf(query.value).Some? && TargetOf(query.value).value != ""
      && parse(ToHttp(TargetOf(query.value).value)).Some?
      && !CheckWebSocketAllowed(parse(ToHttp(TargetOf(query.value).value)).value, blocked)
    ensures a == Uncaught <==> HasTarget(query) && parse(ToHttp(TargetOf(query.value).value)).None?
    ensures a == Close(1011, "Connection failed") <==>
      && HasTarget(query)
      && parse(ToHttp(TargetOf(query.value).value)).Some?
      && CheckWebSocketAllowed(parse(ToHttp(TargetOf(query.value).value)).value, blocked)
      && !opens(ToWs(TargetOf(query.value).value))
    ensures a.Connect? <==>
      && HasTarget(query)
      && parse(ToHttp(TargetOf(query.value).value)).Some?
      && CheckWebSocketAllowed(parse(ToHttp(TargetOf(query.value).value)).value, blocked)
      && opens(ToWs(TargetOf(query.value).value))
  {
    match query
    case None => Close(1002, "Invalid URL")
    case Some(param) =>
      var targetUrl := TargetOf(param);
      if targetUrl.None? || targetUrl.value == "" then Close(1002, "Target URL required")
      else
        var httpUrl := ToHttp(targetUrl.value);
        match parse(httpUrl)
        case None => Uncaught
        case Some(targetUrlObj) =>
          if !CheckWebSocketAllowed(targetUrlObj, blocked) then Close(1008, "Connection not allowed")
          else
            var wsTargetUrl := ToWs(targetUrl.value);
            if !opens(wsTargetUrl) then Close(1011, "Connection failed")
            else Connect(wsTargetUrl, if |userAgents| > 0 then Some(userAgents[0]) else None, targetUrlObj.Origin())
  }

  /** A refused target is closed with 1008 before any upstream socket is attempted: the
    * outcome does not depend on what the client constructor would do. */
  lemma RefusedBeforeConnecting(query: Query, blocked: seq<string>, userAgents: seq<string>, parse: Parser,
                                opens1: string -> bool, opens2: string -> bool)
    requires Admit(query, blocked, userAgents, parse, opens1) == Close(1008, "Connection not allowed")
    ensures Admit(query, blocked, userAgents, parse, opens2) == Close(1008, "Connection not allowed")
  {
  }

  /** A `wss://` target is checked as `https://` and relayed to as `wss://` again, with the
    * same rest of the address. */
  lemma SecureTargetKeepsScheme(rest: string, param: string, blocked: seq<string>, userAgents: seq<string>,
                                parse: Parser, opens: string -> bool)
    requires param != "" && TargetOf(Some(param)) == Some("wss://" + rest)
    requires Admit(Some(Some(param)), blocked, userAgents, parse, opens).Connect?
    ensures ToHttp("wss://" + rest) == "https://" + rest
    ensures Admit(Some(Some(param)), blocked, userAgents, parse, opens).wsTargetUrl == "wss://" + rest
  {
    var s := "wss://" + rest;
    assert s[..6] == "wss://" && s[6..] == rest;
    assert s[..2] == "ws";
    SwapRoundTrip(s);
  }
}
