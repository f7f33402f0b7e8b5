/**
 * The access guard of src/security/security.js: the private-address test, the ordered
 * URL classifier, URL validation, the header sanitiser for upstream requests, and the
 * module-level set of blocked client addresses.
 */
module Security {
  import opened Wrappers
  import opened Strings
  import opened Urls
  import opened OrderedMap
  import UrlRewriter

  // ---------------------------------------------------------------- isPrivateIP

  /** `/^172\.(1[6-9]|2[0-9]|3[0-1])\./`. */
  predicate Private172(h: string) {
    && StartsWith(h, "172.") && |h| >= 7 && h[6] == '.'
    && ((h[4] == '1' && '6' <= h[5] <= '9') || (h[4] == '2' && '0' <= h[5] <= '9')
        || (h[4] == '3' && '0' <= h[5] <= '1'))
  }

  predicate IsDigit(c: char) { '0' <= c <= '9' }

  function DigitValue(c: char): int { c as int - '0' as int }

  /** The 172 pattern is the 172.16.0.0/12 block: a two-digit second octet from 16 to 31. */
  lemma Private172Range(h: string)
    ensures Private172(h) <==>
      && StartsWith(h, "172.") && |h| >= 7 && h[6] == '.' && IsDigit(h[4]) && IsDigit(h[5])
      && 16 <= 10 * DigitValue(h[4]) + DigitValue(h[5]) <= 31
  {
  }

  /** The IPv4 half of the private-range list. */
  predicate PrivateIPv4Prefix(h: string) {
    StartsWith(h, "10.") || Private172(h) || StartsWith(h, "192.168.") || StartsWith(h, "127.")
    || StartsWith(h, "169.254.") || StartsWith(h, "0.")
  }

  /** `isPrivateIP`: everything from the first `:` is dropped, then the nine patterns are
    * tried. The three IPv6 patterns all need a `:`, so only the IPv4 prefixes can match. */
  function IsPrivateIP(ip: string): (r: bool)
    ensures r <==> PrivateIPv4Prefix(FirstField(ip, ':'))
  {
    var h := FirstField(ip, ':');
    var lower := ToLower(h);
    assert !StartsWith(lower, "fc00:") && !StartsWith(lower, "fe80:") by {
      if |lower| >= 5 {
        assert lower[4] == LowerChar(h[4]) && h[4] != ':';
        assert lower[..5][4] == lower[4];
      }
    }
    assert h != "::1" by {
      if |h| == 3 {
        assert h[0] != ':';
      }
    }
    PrivateIPv4Prefix(h) || h == "::1" || StartsWith(lower, "fc00:") || StartsWith(lower, "fe80:")
  }

  /** A port suffix does not hide a private address. */
  lemma PortIsIgnored(h: string, port: string)
    requires ':' !in h
    ensures IsPrivateIP(h + ":" + port) == IsPrivateIP(h)
  {
    FirstFieldOf(h, ':', port);
  }

  /** `10.0.0.1:8080` is private: the port is cut off first. */
  lemma PortedAddressPrivate()
    ensures IsPrivateIP("10.0.0.1:8080")
  {
    var h, port := "10.0.0.1", "8080";
    assert h + [':'] + port == "10.0.0.1:8080";
    assert ':' !in h by {
      forall i | 0 <= i < |h| ensures h[i] != ':' { }
    }
    FirstFieldOf(h, ':', port);
    assert h[..3] == "10.";
  }

  /** An address with no `:` that none of the six IPv4 prefixes starts. The witnesses are
    * the index at which each prefix is missed. */
  lemma NotPrivateAt(h: string, i10: nat, i192: nat, i127: nat, i169: nat, i0: nat)
    requires ':' !in h && !Private172(h)
    requires i10 < 3 && (i10 < |h| ==> h[i10] != "10."[i10])
    requires i192 < 8 && (i192 < |h| ==> h[i192] != "192.168."[i192])
    requires i127 < 4 && (i127 < |h| ==> h[i127] != "127."[i127])
    requires i169 < 8 && (i169 < |h| ==> h[i169] != "169.254."[i169])
    requires i0 < 2 && (i0 < |h| ==> h[i0] != "0."[i0])
    ensures !IsPrivateIP(h)
  {
    NotPrefix(h, "10.", i10);
    NotPrefix(h, "192.168.", i192);
    NotPrefix(h, "127.", i127);
    NotPrefix(h, "169.254.", i169);
    NotPrefix(h, "0.", i0);
  }

  /** The ends of the 172.16.0.0/12 block are private. */
  lemma Block172Inside()
    ensures IsPrivateIP("172.16.0.1") && IsPrivateIP("172.31.255.255")
  {
    Private172Address("172.16.0.1");
    Private172Address("172.31.255.255");
  }

  lemma Private172Address(h: string)
    requires h in {"172.16.0.1", "172.31.255.255"}
    ensures IsPrivateIP(h)
  {
    assert ':' !in h;
    assert h[..4] == "172.";
    assert Private172(h);
  }

  /** 172.15.x and 172.32.x, just outside the block, are not private. */
  lemma Block172Outside()
    ensures !IsPrivateIP("172.15.0.1") && !IsPrivateIP("172.32.0.1")
  {
    NotPrivate172("172.15.0.1");
    NotPrivate172("172.32.0.1");
  }

  lemma NotPrivate172(h: string)
    requires h == "172.15.0.1" || h == "172.32.0.1"
    ensures !IsPrivateIP(h)
  {
    assert |h| == 10 && h[0] == '1' && h[1] == '7' && h[2] == '2' && h[3] == '.' && h[6] == '.';
    assert ':' !in h by {
      forall i | 0 <= i < |h| ensures h[i] != ':' { }
    }
    assert !Private172(h);
    NotPrivateAt(h, 1, 1, 2, 1, 0);
  }

  /** `::1` is not private: its first field is empty. */
  lemma LoopbackV6NotPrivate()
    ensures !IsPrivateIP("::1")
  {
    FirstFieldOf("", ':', ":1");
    assert "" + [':'] + ":1" == "::1";
    NotPrivateAt("", 0, 0, 0, 0, 0);
  }

  /** `fe80::1` and `fc00::1` are not private: their first fields match no IPv4 prefix. */
  lemma LinkLocalV6NotPrivate()
    ensures !IsPrivateIP("fe80::1") && !IsPrivateIP("fc00::1")
  {
    FirstFieldOf("fe80", ':', ":1");
    assert "fe80" + [':'] + ":1" == "fe80::1";
    FirstFieldOf("fc00", ':', ":1");
    assert "fc00" + [':'] + ":1" == "fc00::1";
    NotPrivateAt("fe80", 0, 0, 0, 0, 0);
    NotPrivateAt("fc00", 0, 0, 0, 0, 0);
  }

  // --------------------------------------------------------------- isBlockedURL

  datatype Reason = InvalidUrl | PrivateIp | CloudMetadata | Localhost | BlockedDomain | FileProtocol

  /** The translation key each reason is reported under. */
  function ReasonKey(r: Reason): (key: string)
    ensures StartsWith(key, "error.")
  {
    match r
    case InvalidUrl => "error.invalid_url"
    case PrivateIp => "error.private_ip"
    case CloudMetadata => "error.cloud_metadata"
    case Localhost => "error.localhost"
    case BlockedDomain => "error.blocked_domain"
    case FileProtocol => "error.file_protocol"
  }

  datatype Verdict = Allowed | Blocked(reason: Reason)

  /** The metadata endpoints of the default configuration (src/utils/config.js). */
  const DefaultMetadataEndpoints: seq<string> :=
    ["169.254.169.254", "metadata.google.internal", "metadata.google", "169.254.170.2", "100.100.100.200"]

  /** `/^localhost$/i.test(hostname) || /^127\./.test(hostname)`. */
  predicate IsLocalhost(hostname: string) {
    ToLower(hostname) == "localhost" || StartsWith(hostname, "127.")
  }

  /** The name test ignores letter case; the address test is a prefix. */
  lemma LocalhostCases()
    ensures IsLocalhost("LocalHost") && IsLocalhost("127.0.0.2")
  {
    LowerLocalHost();
    assert "127.0.0.2"[..4] == "127.";
  }

  lemma LowerLocalHost()
    ensures ToLower("LocalHost") == "localhost"
  {
    var s := "LocalHost";
    var l := ToLower(s);
    assert LowerChar('L') == 'l' && LowerChar('H') == 'h';
    forall i | 0 <= i < 9 ensures l[i] == "localhost"[i] {
      assert l[i] == LowerChar(s[i]);
    }
  }

  /** The name test is anchored at both ends: a name merely containing `localhost` is not
    * refused by it, and neither is the IPv6 loopback. */
  lemma LocalhostAnchored()
    ensures !IsLocalhost("localhost.example.com") && !IsLocalhost("sub.localhost") && !IsLocalhost("::1")
  {
    NotPrefix("localhost.example.com", "127.", 0);
    NotPrefix("sub.localhost", "127.", 0);
    NotPrefix("::1", "127.", 0);
    assert ToLower("sub.localhost")[0] == 's';
  }

  /** `isBlockedURL`: the checks in order, the first that applies is the reason. A URL that
    * does not parse is blocked as invalid. */
  function IsBlockedURL(url: string, metadataEndpoints: seq<string>, blockedDomains: seq<string>,
                        parse: Parser): (v: Verdict)
    ensures v == Blocked(InvalidUrl) <==> parse(url).None?
    ensures parse(url).Some? ==>
      var h := parse(url).value.hostname;
      && (v == Blocked(PrivateIp) <==> IsPrivateIP(h))
      && (v == Blocked(CloudMetadata) <==>
            !IsPrivateIP(h) && UrlRewriter.IsDomainBlocked(h, metadataEndpoints))
      && (v == Blocked(Localhost) <==>
            !IsPrivateIP(h) && !UrlRewriter.IsDomainBlocked(h, metadataEndpoints) && IsLocalhost(h))
      && (v == Blocked(BlockedDomain) <==>
            !IsPrivateIP(h) && !UrlRewriter.IsDomainBlocked(h, metadataEndpoints) && !IsLocalhost(h)
            && UrlRewriter.IsDomainBlocked(h, blockedDomains))
      && (v == Blocked(FileProtocol) <==>
            !IsPrivateIP(h) && !UrlRewriter.IsDomainBlocked(h, metadataEndpoints) && !IsLocalhost(h)
            && !UrlRewriter.IsDomainBlocked(h, blockedDomains) && parse(url).value.protocol == "file:")
  {
    match parse(url)
    case None => Blocked(InvalidUrl)
    case Some(urlObj) =>
      var hostname := urlObj.hostname;
      if IsPrivateIP(hostname) then Blocked(PrivateIp)
      else if UrlRewriter.IsDomainBlocked(hostname, metadataEndpoints) then Blocked(CloudMetadata)
      else if IsLocalhost(hostname) then Blocked(Localhost)
      else if UrlRewriter.IsDomainBlocked(hostname, blockedDomains) then Blocked(BlockedDomain)
      else if urlObj.protocol == "file:" then Blocked(FileProtocol)
      else Allowed
  }

  /** The `127.` half of the localhost check is shadowed by the private list: the
    * localhost reason is only ever given for the name `localhost` itself. */
  lemma LocalhostOnlyByName(url: string, metadataEndpoints: seq<string>, blockedDomains: seq<string>,
                            parse: Parser)
    ensures IsBlockedURL(url, metadataEndpoints, blockedDomains, parse) == Blocked(Localhost) ==>
            ToLower(parse(url).value.hostname) == "localhost"
  {
    if parse(url).Some? {
      var h := parse(url).value.hostname;
      if StartsWith(h, "127.") {
        FirstFieldKeepsPrefix(h, ':', "127.");
      }
    }
  }

  /** Loopback and the cloud metadata address are reported as private, not as localhost or
    * metadata, whatever the lists hold. */
  lemma PrivateComesFirst(url: string, metadataEndpoints: seq<string>, blockedDomains: seq<string>,
                          parse: Parser)
    requires parse(url).Some?
    requires parse(url).value.hostname in {"127.0.0.1", "169.254.169.254"}
    ensures IsBlockedURL(url, metadataEndpoints, blockedDomains, parse) == Blocked(PrivateIp)
  {
    var h := parse(url).value.hostname;
    assert ':' !in h;
    assert h == "127.0.0.1" ==> h[..4] == "127.";
    assert h == "169.254.169.254" ==> h[..8] == "169.254.";
  }

  /** Under the default lists the Alibaba metadata address is blocked as metadata. */
  lemma AlibabaMetadataBlocked(url: string, blockedDomains: seq<string>, parse: Parser)
    requires parse(url).Some? && parse(url).value.hostname == "100.100.100.200"
    ensures IsBlockedURL(url, DefaultMetadataEndpoints, blockedDomains, parse) == Blocked(CloudMetadata)
  {
    AlibabaNotPrivate();
    DefaultListsAlibaba();
  }

  lemma AlibabaNotPrivate()
    ensures !IsPrivateIP("100.100.100.200")
  {
    NotPrivateAt("100.100.100.200", 2, 1, 1, 1, 0);
  }

  lemma DefaultListsAlibaba()
    ensures UrlRewriter.IsDomainBlocked("100.100.100.200", DefaultMetadataEndpoints)
  {
    assert UrlRewriter.MatchesDomain("100.100.100.200", DefaultMetadataEndpoints[4]);
  }

  // ---------------------------------------------------- validateAndNormalizeURL

  /** `https://` is put in front of a URL without an http(s) scheme. */
  function WithScheme(url: string): (u: string)
    ensures StartsWith(u, "http://") || StartsWith(u, "https://")
    ensures StartsWith(url, "http://") || StartsWith(url, "https://") ==> u == url
    ensures !(StartsWith(url, "http://") || StartsWith(url, "https://")) ==> u == "https://" + url
  {
    if !StartsWith(url, "http://") && !StartsWith(url, "https://") then
      assert ("https://" + url)[..8] == "https://";
      "https://" + url
    else url
  }

  datatype Validation =
    | Invalid(error: string)
    | Valid(url: string, protocol: string, hostname: string, pathname: string, search: string)

  /** `validateAndNormalizeURL`. */
  function ValidateAndNormalizeURL(url: string, metadataEndpoints: seq<string>, blockedDomains: seq<string>,
                                   parse: Parser): (r: Validation)
    ensures url == "" ==> r == Invalid("error.url_required")
    ensures url != "" && parse(WithScheme(url)).None? ==> r == Invalid("error.invalid_format")
    ensures url != "" && parse(WithScheme(url)).Some? ==>
      var u := parse(WithScheme(url)).value;
      var v := IsBlockedURL(WithScheme(url), metadataEndpoints, blockedDomains, parse);
      if u.protocol != "http:" && u.protocol != "https:" then r == Invalid("error.invalid_protocol")
      else if v.Blocked? then r == Invalid(ReasonKey(v.reason)) && v.reason != InvalidUrl
      else r == Valid(u.href, u.protocol, u.hostname, u.pathname, u.search)
  {
    if url == "" then Invalid("error.url_required")
    else
      var target := WithScheme(url);
      match parse(target)
      case None => Invalid("error.invalid_format")
      case Some(urlObj) =>
        if urlObj.protocol != "http:" && urlObj.protocol != "https:" then Invalid("error.invalid_protocol")
        else
          var blocked := IsBlockedURL(target, metadataEndpoints, blockedDomains, parse);
          if blocked.Blocked? then Invalid(ReasonKey(blocked.reason))
          else Valid(urlObj.href, urlObj.protocol, urlObj.hostname, urlObj.pathname, urlObj.search)
  }

  /** A validated URL passed every check of the classifier. */
  lemma ValidMeansAllowed(url: string, metadataEndpoints: seq<string>, blockedDomains: seq<string>,
                          parse: Parser)
    requires ValidateAndNormalizeURL(url, metadataEndpoints, blockedDomains, parse).Valid?
    ensures url != ""
    ensures IsBlockedURL(WithScheme(url), metadataEndpoints, blockedDomains, parse) == Allowed
    ensures var h := ValidateAndNormalizeURL(url, metadataEndpoints, blockedDomains, parse).hostname;
            !IsPrivateIP(h) && !UrlRewriter.IsDomainBlocked(h, blockedDomains)
            && !UrlRewriter.IsDomainBlocked(h, metadataEndpoints)
  {
  }

  /** With a parser that honours an explicit http(s) scheme, the protocol check never fires,
    * and neither the invalid-URL nor the file reasons can reach the caller. */
  lemma UnreachableErrors(url: string, metadataEndpoints: seq<string>, blockedDomains: seq<string>,
                          parse: Parser)
    requires KeepsHttpScheme(parse)
    ensures ValidateAndNormalizeURL(url, metadataEndpoints, blockedDomains, parse) !in
            {Invalid("error.invalid_protocol"), Invalid("error.invalid_url"), Invalid("error.file_protocol")}
  {
    var target := WithScheme(url);
    if url != "" && parse(target).Some? {
      assert parse(target).value.protocol in {"http:", "https:"};
    }
  }

  // ------------------------------------------------------- getSanitizedHeaders

  /** The headers `getSanitizedHeaders` deletes: its hop-by-hop list (with `cookie` and
    * `host`), then the identifying headers. */
  const StrippedHeaders: seq<string> :=
    ["connection", "keep-alive", "proxy-authenticate", "proxy-authorization", "te", "trailers",
     "transfer-encoding", "upgrade", "cookie", "host",
     "x-forwarded-for", "x-real-ip", "x-client-ip", "cf-connecting-ip", "cf-ray", "cf-visitor"]

  type Headers = seq<Entry<string>>

  /** The map after deleting each key in turn. */
  function DeleteAll(m: Headers, keys: seq<string>): (r: Headers)
    ensures forall k :: Get(r, k) == if k in keys then None else Get(m, k)
  {
    if keys == [] then m
    else
      var r := Delete(DeleteAll(m, keys[..|keys| - 1]), keys[|keys| - 1]);
      assert forall k :: k in keys <==> k in keys[..|keys| - 1] || k == keys[|keys| - 1] by {
        assert keys == keys[..|keys| - 1] + [keys[|keys| - 1]];
      }
      r
  }

  /** `req.headers[name] || fallback`. */
  function OrDefault(m: Headers, name: string, fallback: string): string {
    match Get(m, name)
    case Some(v) => if v != "" then v else fallback
    case None => fallback
  }

  /** The headers after the deletions, with `host`, the rotated `user-agent` and the three
    * accept headers set. `pick` stands for `Math.floor(Math.random() * n)`. */
  function SanitizedHeaders(inbound: Headers, host: string, userAgents: seq<string>, pick: nat): Headers
    requires |userAgents| > 0 ==> pick < |userAgents|
  {
    WithNewHeaders(DeleteAll(inbound, StrippedHeaders), inbound, host, userAgents, pick)
  }

  /** The five assignments after the deletions. */
  function WithNewHeaders(stripped: Headers, inbound: Headers, host: string, userAgents: seq<string>,
                          pick: nat): Headers
    requires |userAgents| > 0 ==> pick < |userAgents|
  {
    var withHost := Set(stripped, "host", host);
    var withAgent := if |userAgents| > 0 then Set(withHost, "user-agent", userAgents[pick]) else withHost;
    var a := Set(withAgent, "accept", OrDefault(inbound, "accept", "*/*"));
    var b := Set(a, "accept-encoding", OrDefault(inbound, "accept-encoding", "gzip, deflate, br"));
    Set(b, "accept-language", OrDefault(inbound, "accept-language", "en-US,en;q=0.9"))
  }

  /** `getSanitizedHeaders`: copy the inbound headers, delete the listed ones in a loop, set
    * the new ones. `None` where `new URL(targetUrl)` throws. */
  method GetSanitizedHeaders(inbound: Headers, targetUrl: string, userAgents: seq<string>, pick: nat,
                             parse: Parser) returns (headers: Option<Headers>)
    requires |userAgents| > 0 ==> pick < |userAgents|
    ensures parse(targetUrl).None? ==> headers.None?
    ensures parse(targetUrl).Some? ==>
      headers == Some(SanitizedHeaders(inbound, parse(targetUrl).value.Host(), userAgents, pick))
  {
    var h := StripHeaders(inbound);
    match parse(targetUrl)
    case None =>
      return None;
    case Some(target) =>
      h := Set(h, "host", target.Host());
      if |userAgents| > 0 {
        h := Set(h, "user-agent", userAgents[pick]);
      }
      h := Set(h, "accept", OrDefault(inbound, "accept", "*/*"));
      h := Set(h, "accept-encoding", OrDefault(inbound, "accept-encoding", "gzip, deflate, br"));
      h := Set(h, "accept-language", OrDefault(inbound, "accept-language", "en-US,en;q=0.9"));
      return Some(h);
  }

  /** The deletion loop of `getSanitizedHeaders`. */
  method StripHeaders(inbound: Headers) returns (h: Headers)
    ensures h == DeleteAll(inbound, StrippedHeaders)
  {
    h := inbound;
    for i := 0 to |StrippedHeaders|
      invariant h == DeleteAll(inbound, StrippedHeaders[..i])
    {
      assert StrippedHeaders[..i + 1][..i] == StrippedHeaders[..i];
      h := Delete(h, StrippedHeaders[i]);
    }
    assert StrippedHeaders[..|StrippedHeaders|] == StrippedHeaders;
  }

  /** The headers the sanitiser sets itself. */
  predicate IsSetHeader(k: string) {
    k == "host" || k == "user-agent" || k == "accept" || k == "accept-encoding" || k == "accept-language"
  }

  /** What reaches the upstream server: none of the stripped headers (bar the new `host`),
    * the target's host, the picked user agent, the accept defaults, and every other
    * inbound header as it came. */
  lemma SanitizedHeadersContents(inbound: Headers, host: string, userAgents: seq<string>, pick: nat)
    requires |userAgents| > 0 ==> pick < |userAgents|
    ensures var out := SanitizedHeaders(inbound, host, userAgents, pick);
      && (forall k :: k in StrippedHeaders && k != "host" ==> Get(out, k) == None)
      && Get(out, "host") == Some(host)
      && (|userAgents| > 0 ==> Get(out, "user-agent") == Some(userAgents[pick]))
      && (|userAgents| == 0 ==> Get(out, "user-agent") == Get(inbound, "user-agent"))
      && Get(out, "accept") == Some(OrDefault(inbound, "accept", "*/*"))
      && Get(out, "accept-encoding") == Some(OrDefault(inbound, "accept-encoding", "gzip, deflate, br"))
      && Get(out, "accept-language") == Some(OrDefault(inbound, "accept-language", "en-US,en;q=0.9"))
      && (forall k :: k !in StrippedHeaders && !IsSetHeader(k) ==> Get(out, k) == Get(inbound, k))
  {
    StrippedAbsent(inbound, host, userAgents, pick);
    OthersKept(inbound, host, userAgents, pick);
    SetValues(inbound, host, userAgents, pick);
  }

  lemma StrippedAbsent(inbound: Headers, host: string, userAgents: seq<string>, pick: nat)
    requires |userAgents| > 0 ==> pick < |userAgents|
    ensures forall k :: k in StrippedHeaders && k != "host" ==> Get(SanitizedHeaders(inbound, host, userAgents, pick), k) == None
  {
    var stripped := DeleteAll(inbound, StrippedHeaders);
    OnlySetHeadersChange(stripped, host, userAgents, pick, inbound);
    StrippedNotSet();
  }

  lemma OthersKept(inbound: Headers, host: string, userAgents: seq<string>, pick: nat)
    requires |userAgents| > 0 ==> pick < |userAgents|
    ensures forall k :: k !in StrippedHeaders && !IsSetHeader(k) ==>
      Get(SanitizedHeaders(inbound, host, userAgents, pick), k) == Get(inbound, k)
  {
    var stripped := DeleteAll(inbound, StrippedHeaders);
    OnlySetHeadersChange(stripped, host, userAgents, pick, inbound);
  }

  lemma SetValues(inbound: Headers, host: string, userAgents: seq<string>, pick: nat)
    requires |userAgents| > 0 ==> pick < |userAgents|
    ensures var out := SanitizedHeaders(inbound, host, userAgents, pick);
      && Get(out, "host") == Some(host)
      && (|userAgents| > 0 ==> Get(out, "user-agent") == Some(userAgents[pick]))
      && (|userAgents| == 0 ==> Get(out, "user-agent") == Get(inbound, "user-agent"))
      && Get(out, "accept") == Some(OrDefault(inbound, "accept", "*/*"))
      && Get(out, "accept-encoding") == Some(OrDefault(inbound, "accept-encoding", "gzip, deflate, br"))
      && Get(out, "accept-language") == Some(OrDefault(inbound, "accept-language", "en-US,en;q=0.9"))
  {
    var stripped := DeleteAll(inbound, StrippedHeaders);
    assert SanitizedHeaders(inbound, host, userAgents, pick) == WithNewHeaders(stripped, inbound, host, userAgents, pick);
    OnlySetHeadersChange(stripped, host, userAgents, pick, inbound);
    UserAgentNotStripped();
    assert Get(stripped, "user-agent") == Get(inbound, "user-agent");
  }

  lemma StrippedNotSet()
    ensures forall k :: k in StrippedHeaders && k != "host" ==> !IsSetHeader(k)
  {
    forall i | 0 <= i < |StrippedHeaders| && StrippedHeaders[i] != "host"
      ensures !IsSetHeader(StrippedHeaders[i])
    {
    }
  }

  lemma UserAgentNotStripped()
    ensures "user-agent" !in StrippedHeaders
  {
    assert forall i :: 0 <= i < |StrippedHeaders| ==> StrippedHeaders[i] != "user-agent";
  }

  /** The tail of `SanitizedHeaders` after the deletions changes only the five headers it sets. */
  lemma OnlySetHeadersChange(stripped: Headers, host: string, userAgents: seq<string>, pick: nat,
                             inbound: Headers)
    requires |userAgents| > 0 ==> pick < |userAgents|
    ensures var out := WithNewHeaders(stripped, inbound, host, userAgents, pick);
      && (forall k :: !IsSetHeader(k) ==> Get(out, k) == Get(stripped, k))
      && Get(out, "host") == Some(host)
      && (|userAgents| > 0 ==> Get(out, "user-agent") == Some(userAgents[pick]))
      && (|userAgents| == 0 ==> Get(out, "user-agent") == Get(stripped, "user-agent"))
      && Get(out, "accept") == Some(OrDefault(inbound, "accept", "*/*"))
      && Get(out, "accept-encoding") == Some(OrDefault(inbound, "accept-encoding", "gzip, deflate, br"))
      && Get(out, "accept-language") == Some(OrDefault(inbound, "accept-language", "en-US,en;q=0.9"))
  {
    var withHost := Set(stripped, "host", host);
    var withAgent := if |userAgents| > 0 then Set(withHost, "user-agent", userAgents[pick]) else withHost;
    var a := Set(withAgent, "accept", OrDefault(inbound, "accept", "*/*"));
    var b := Set(a, "accept-encoding", OrDefault(inbound, "accept-encoding", "gzip, deflate, br"));
    var out := Set(b, "accept-language", OrDefault(inbound, "accept-language", "en-US,en;q=0.9"));
    SetHeaderNamesDistinct();
    AcceptHeadersOnly(withAgent, inbound);
    assert Get(withAgent, "host") == Some(host) by { AgentKeepsHost(withHost, userAgents, pick); }
    forall k | !IsSetHeader(k) ensures Get(withAgent, k) == Get(stripped, k) {
      assert k != "host" && k != "user-agent";
    }
  }

  /** The five header names the sanitiser sets differ from one another. */
  lemma SetHeaderNamesDistinct()
    ensures "host" != "user-agent" && "host" != "accept" && "host" != "accept-encoding" && "host" != "accept-language"
    ensures "user-agent" != "accept" && "user-agent" != "accept-encoding" && "user-agent" != "accept-language"
    ensures "accept" != "accept-encoding" && "accept" != "accept-language" && "accept-encoding" != "accept-language"
  {
    assert |"host"| == 4 && |"user-agent"| == 10 && |"accept"| == 6 && |"accept-encoding"| == 15;
    assert "accept-encoding"[7] != "accept-language"[7];
  }

  lemma AgentKeepsHost(withHost: Headers, userAgents: seq<string>, pick: nat)
    requires |userAgents| > 0 ==> pick < |userAgents|
    ensures |userAgents| > 0 ==> Get(Set(withHost, "user-agent", userAgents[pick]), "host") == Get(withHost, "host")
  {
    SetHeaderNamesDistinct();
  }

  /** Setting the three accept headers leaves every other header alone. */
  lemma AcceptHeadersOnly(m: Headers, inbound: Headers)
    ensures var a := Set(m, "accept", OrDefault(inbound, "accept", "*/*"));
            var b := Set(a, "accept-encoding", OrDefault(inbound, "accept-encoding", "gzip, deflate, br"));
            var out := Set(b, "accept-language", OrDefault(inbound, "accept-language", "en-US,en;q=0.9"));
            && (forall k :: k != "accept" && k != "accept-encoding" && k != "accept-language" ==> Get(out, k) == Get(m, k))
            && Get(out, "accept") == Some(OrDefault(inbound, "accept", "*/*"))
            && Get(out, "accept-encoding") == Some(OrDefault(inbound, "accept-encoding", "gzip, deflate, br"))
            && Get(out, "accept-language") == Some(OrDefault(inbound, "accept-language", "en-US,en;q=0.9"))
  {
    SetHeaderNamesDistinct();
  }

  /** A missing or empty accept header gets its default. */
  lemma AcceptDefaults(inbound: Headers)
    requires Get(inbound, "accept").None?
    ensures OrDefault(inbound, "accept", "*/*") == "*/*"
  {
  }

  // ------------------------------------------------------------- blocked IPs

  /** `s` without `x`, order kept (`Set.prototype.delete` on an insertion-ordered set). */
  function Without(s: seq<string>, x: string): (r: seq<string>)
    ensures forall y :: y in r <==> y in s && y != x
    ensures |r| <= |s|
    ensures x !in s ==> r == s
  {
    if s == [] then []
    else if s[0] == x then Without(s[1..], x)
    else [s[0]] + Without(s[1..], x)
  }

  predicate NoDuplicates(s: seq<string>) {
    forall i, j :: 0 <= i < j < |s| ==> s[i] != s[j]
  }

  /** The members of `new Set(xs)` in iteration order: each value at its first occurrence. */
  function Dedup(xs: seq<string>): (r: seq<string>)
    ensures NoDuplicates(r)
    ensures forall x :: x in r <==> x in xs
  {
    if xs == [] then []
    else
      var d := Dedup(xs[..|xs| - 1]);
      assert xs == xs[..|xs| - 1] + [xs[|xs| - 1]];
      if xs[|xs| - 1] in d then d else d + [xs[|xs| - 1]]
  }

  /** Iteration order: a value new to the list is appended after the earlier ones; a
    * repeated value leaves the members as they were. */
  lemma DedupAppend(xs: seq<string>, x: string)
    ensures Dedup(xs + [x]) == if x in xs then Dedup(xs) else Dedup(xs) + [x]
  {
    assert (xs + [x])[..|xs|] == xs;
  }

  lemma {:induction false} WithoutNoDuplicates(s: seq<string>, x: string)
    requires NoDuplicates(s)
    ensures NoDuplicates(Without(s, x))
    ensures x in s ==> |Without(s, x)| == |s| - 1
  {
    if s != [] {
      assert NoDuplicates(s[1..]) by {
        forall i, j | 0 <= i < j < |s[1..]| ensures s[1..][i] != s[1..][j] {
          assert s[1..][i] == s[i + 1] && s[1..][j] == s[j + 1];
        }
      }
      WithoutNoDuplicates(s[1..], x);
      assert s[0] !in s[1..] by {
        forall i | 0 <= i < |s[1..]| ensures s[1..][i] != s[0] {
          assert s[1..][i] == s[i + 1];
        }
      }
      if s[0] == x {
        assert x !in s[1..];
      } else {
        var t := Without(s[1..], x);
        var r := [s[0]] + t;
        assert s[0] !in t;
        forall i, j | 0 <= i < j < |r| ensures r[i] != r[j] {
          if i == 0 {
            assert r[j] == t[j - 1];
          } else {
            assert r[i] == t[i - 1] && r[j] == t[j - 1];
          }
        }
        assert x in s ==> x in s[1..];
      }
    }
  }

  datatype SecurityStats = SecurityStats(blockedIPs: nat, blockedDomains: nat, privateRanges: nat,
                                         metadataEndpoints: nat)

  /** The number of entries in `config.privateIPRanges` (src/utils/config.js). */
  const PrivateRangeCount: nat := 9

  /** The module-level `blockedIPs` set, in insertion order. */
  class IpBlocklist {
    var ips: seq<string>

    predicate Valid()
      reads this
    {
      NoDuplicates(ips)
    }

    /** `new Set(config.blockedIPs)`: the configured addresses, first occurrences kept. */
    constructor (configured: seq<string>)
      ensures Valid()
      ensures ips == Dedup(configured)
      ensures forall ip :: ip in ips <==> ip in configured
    {
      var acc: seq<string> := [];
      for i := 0 to |configured|
        invariant acc == Dedup(configured[..i])
      {
        assert configured[..i + 1][..i] == configured[..i];
        if configured[i] !in acc {
          acc := acc + [configured[i]];
        }
      }
      assert configured[..|configured|] == configured;
      ips := acc;
    }

    /** `blockIP`: add the address if it is not there yet. */
    method Block(ip: string)
      requires Valid()
      modifies this
      ensures Valid()
      ensures ips == if ip in old(ips) then old(ips) else old(ips) + [ip]
    {
      if ip !in ips {
        ips := ips + [ip];
      }
    }

    /** `unblockIP`: remove the address if it is there. */
    method Unblock(ip: string)
      requires Valid()
      modifies this
      ensures Valid()
      ensures ips == Without(old(ips), ip)
    {
      WithoutNoDuplicates(ips, ip);
      ips := Without(ips, ip);
    }

    /** `getBlockedIPs`: the members in insertion order. */
    method GetBlockedIPs() returns (r: seq<string>)
      requires Valid()
      ensures r == ips
    {
      r := ips;
    }

    /** `securityMiddleware`'s first test: requests from a member get 403. */
    method Denies(ip: string) returns (denied: bool)
      requires Valid()
      ensures denied <==> ip in ips
    {
      denied := ip in ips;
    }

    /** `getSecurityStats`. */
    method Stats(blockedDomains: seq<string>, metadataEndpoints: seq<string>) returns (s: SecurityStats)
      requires Valid()
      ensures s == SecurityStats(|ips|, |blockedDomains|, PrivateRangeCount, |metadataEndpoints|)
    {
      s := SecurityStats(|ips|, |blockedDomains|, PrivateRangeCount, |metadataEndpoints|);
    }
  }

  /** Blocking then unblocking: the address is in after the first, out after the second,
    * and every other address keeps its membership; the count follows. */
  method BlockUnblockScenario(list: IpBlocklist, ip: string, other: string)
    requires list.Valid() && other != ip
    modifies list
    ensures list.Valid()
    ensures ip !in list.ips
    ensures other in list.ips <==> other in old(list.ips)
  {
    list.Block(ip);
    assert ip in list.ips;
    var denied := list.Denies(ip);
    assert denied;
    list.Unblock(ip);
  }
}
