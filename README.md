# MasarWeb proxy core in Dafny

MasarWeb is a web proxy written for Node.js and Express. A user gives it a target URL. The proxy then:

- encodes the URL into a `/proxy/<token>` path (URL-safe base64);
- checks the target against its security policy: private addresses, cloud metadata endpoints, blocked domains;
- fetches the page on the user's behalf, keeping the user's cookies in a server-side jar;
- rewrites the references in HTML, CSS and JavaScript so that later requests also go through the proxy;
- forwards the reply with a fixed set of headers.

A WebSocket bridge applies its own, smaller, admission check. The repository also has an administration router behind HTTP Basic authentication, which edits the blocklists and the feature switches at run time. `src/app.js` mounts only `proxyRouter` (`src/app.js:117`), so the administration routes are not reachable in the application as written; the router is modelled as written.

This project models that core as Dafny modules. There is one module per source file:

- `UrlRewriter` for `src/rewriter/urlRewriter.js`;
- `Security` for `src/security/security.js`;
- `SessionManager` for `src/session/sessionManager.js`;
- `ProxyRouter` for `src/proxy/proxyRouter.js`;
- `WebSocketHandler` for `src/proxy/websocketHandler.js`;
- `Logger` for `anonymizeIP` in `src/utils/logger.js`;
- `AdminRouter` for `src/admin/adminRouter.js`.

Small supporting modules model the JavaScript and Node.js behaviour the core depends on:

- `Strings`: `split`, `join`, `indexOf`, `trim`, `toLowerCase`, `replace` with a string pattern;
- `Base64` and `Utf8`: Node's `Buffer` in `base64url`, `base64` and `utf8`: the lenient base64 decoder, which reads the low byte of each UTF-16 code unit (so `Ł`, U+0141, reads as `A`, and any unit whose low byte is `0x3D` ends the input as `=` does), and a UTF-8 decoder that puts one U+FFFD in place of each maximal ill-formed subpart, as Node does;
- `Numbers`: `parseInt`;
- `OrderedMap`: a JavaScript `Map` with insertion order and update-in-place;
- `Urls`: the fields of a parsed WHATWG `URL`;
- `Wrappers`: `Option`.

The form of each module follows its source:

- Code that only computes becomes functions with lemmas about them.
- The objects whose fields change become classes with `modifies` frames:
  - the cookie jar `CookieStore`;
  - the in-memory session store `MemorySessionStore`;
  - the `req.session` record `ProxySession`;
  - the IP blocklist `IpBlocklist` (the module-level `Set` of `security.js`);
  - the live configuration lists `AdminConfig`.
- The loops of the source are methods with loop invariants:
  - the loop over `Set-Cookie` headers;
  - the loop over the jar that drops expired cookies;
  - the attribute loop of `parseCookie`;
  - the header-stripping loop;
  - the header-copy loop.
  Each is proved equal to a specification function. The properties are proved about those functions.

The environment becomes parameters:

- the WHATWG URL parser is `parse: string -> Option<Url>`;
- `new Date(s)` is `parseDate`;
- `Date.now()` and `new Date()` are `now`; `GET /proxy` reads the clock twice, as `requestNow` when the jar is read and `responseNow` when the response's cookies are stored;
- `Math.random()` is an index `pick`;
- the upstream HTTP exchange is `fetch`;
- the locale's error table is `t`;
- the configuration values are a `ProxyConfig` record or explicit arguments.

The regular-expression extraction of references from HTML, CSS and JavaScript is a parameter, `extract`. It cuts a document into text and reference fragments. The rewriter is modelled on those fragments.

Where the code departs from what its comments, its names or the cited RFCs lead one to expect, the model follows the code:

- Relative references are resolved by string concatenation. Dot segments are not removed: `../img.png` against `https://ex.com/dir/page.html` becomes `https://ex.com/dir/../img.png` (`UrlRewriter.DotSegmentsKept`).
- `decodeURL` never fails on bad input, because Node's decoder is lenient. The `400` branch of `GET /proxy` is therefore unreachable. A malformed token decodes to whatever its readable characters spell, and validation treats that like any other URL: `Zm9v!` reads as `foo`, which is normalised to `https://foo/` (an `https://` prefix, then the parser's `href`).
- A cookie with `Max-Age=0` is still sent when read at the same millisecond, because expiry is tested with a strict `<` (`SessionManager.MaxAgeZeroStillSent`).
- When several `Expires`/`Max-Age` attributes are present, the last one wins, whichever kind it is (`SessionManager.LastExpiryWins`). Section 5.3 of RFC 6265 gives `Max-Age` precedence.
- The three IPv6 patterns of `isPrivateIP` never match. The address is cut at its first `:` before the patterns are tried (`Security.LoopbackV6NotPrivate`, `Security.LinkLocalV6NotPrivate`).
- A `wss://` literal in JavaScript becomes `/ws/` plus the token of the `http://` form of the address. The secure scheme is lost (`UrlRewriter.WebSocketLiteralToken`).
- Every `image/` type is streamed unmodified, SVG included (`ProxyRouter.ImagesAreStreamed`).
- The toolbar test looks for a lowercase `<body` before it uses the case-insensitive match. A page whose only body tag is `<BODY>` therefore gets the toolbar in front of the document (`ProxyRouter.UppercaseBodyPrepends`).
- The WebSocket admission check is weaker than the HTTP one (`WebSocketHandler.WsAdmitsWhatHttpRefuses`). It has no `0.` prefix, no metadata list and no `localhost` name check.
- Basic credentials are split on every `:`. Section 2 of RFC 7617 splits at the first `:`. A password containing `:` can therefore never authenticate (`AdminRouter.ColonPasswordUnmatchable`).
- `anonymizeIP` keeps at most three fields of an IPv4 string. Its output is a fixed point only for inputs with at least three fields.
- The second `isBlockedURL` call in `GET /proxy` repeats checks validation already made (`ProxyRouter.SecondCheckRedundant`).
- An invalid `Expires` date makes `parseCookie` throw (`src/session/sessionManager.js:153-156`) inside the response callback of the upstream request (`src/proxy/proxyRouter.js:153-170`). The `try` of the route has already returned, and the application installs no `uncaughtException` handler, so the exception ends the Node process and every other connection with it. `ProxyRouter.HandleProxy` represents this outcome as `Uncaught`.
- The WebSocket handler calls `new URL` on the target outside its `try` (`src/proxy/websocketHandler.js:58`). A target that does not parse, such as `/ws?url=Zm9v` (`foo`), throws in the connection callback and ends the Node process the same way. WebSockets are on unless disabled (`src/utils/config.js:75`). `WebSocketHandler.Admit` represents this outcome as `Uncaught`.
- The rewriter turns WebSocket literals into `/ws/<token>` (`src/rewriter/urlRewriter.js:287-289`). The WebSocket server listens on the exact path `/ws` and reads the target from the `url` query parameter (`src/proxy/websocketHandler.js:23-25`, `src/proxy/websocketHandler.js:40-41`). A rewritten literal therefore never reaches the bridge.

## Model

| member | source | states |
|---|---|---|
| Base64.Encode | src/rewriter/urlRewriter.js:64-65 | the `base64url` text of a byte string: only URL-safe digits, no padding, `(4n+2)/3` digits for `n` bytes |
| Base64.DecodeEncode | src/rewriter/urlRewriter.js:432-445 | Node's lenient decoder gives back exactly the bytes that were encoded |
| Base64.SextetsStopAtPad | src/rewriter/urlRewriter.js:435-441 | decoding reads nothing past the first `=`, so the padding `decodeURL` adds changes nothing |
| Base64.UnitBytes | src/rewriter/urlRewriter.js:441 | one byte per UTF-16 code unit of a character, two for a character outside the Basic Multilingual Plane; a character below U+0100 is its own byte |
| Base64.ByteSextetsStopAtPad | src/rewriter/urlRewriter.js:441 | nothing after a byte `0x3D` is read, whatever character it came from |
| Base64.LowBytesConcat | src/rewriter/urlRewriter.js:441 | the code-unit bytes of a concatenation are those of its parts, in order |
| Base64.SameUnitBytes | src/rewriter/urlRewriter.js:441 | two characters whose UTF-16 code units have the same low bytes read alike in any context |
| Base64.PadUnit | src/rewriter/urlRewriter.js:441 | a character whose first code unit has the low byte `0x3D` ends the input as `=` does |
| Base64.LowByteOfLatinExtended | src/rewriter/urlRewriter.js:441 | in any context, `Ł` (U+0141) decodes as `A`, its low byte |
| Base64.LowBytePadLatinExtended | src/rewriter/urlRewriter.js:441 | in any context, `Ľ` (U+013D), whose low byte is that of `=`, ends the input |
| Base64.LowBytePadSurrogate | src/rewriter/urlRewriter.js:441 | in any context, U+1F600 ends the input: its high surrogate D83D has the low byte of `=` |
| Utf8.DecodeEncode | src/rewriter/urlRewriter.js:441 | reading the UTF-8 encoding of any string of scalar values gives the string back |
| Utf8.DecodeFirst | src/rewriter/urlRewriter.js:441 | a lead byte and its accepted continuation bytes are read as one character; ASCII is itself; a sequence cut short, or a byte that leads nothing, gives U+FFFD |
| Utf8.MaximalSubparts | src/rewriter/urlRewriter.js:441 | one U+FFFD per maximal subpart: `E2 82 41` reads as U+FFFD then `A`; `C0 80` as two U+FFFD |
| Numbers.ParseDecimal | src/session/sessionManager.js:155 | `parseInt` of a decimal numeral followed by any non-digit text is that number |
| Numbers.ParseNegativeDecimal | src/session/sessionManager.js:155 | `parseInt` of `-` and a numeral is the negated number |
| Numbers.ParseHex | src/session/sessionManager.js:155 | `parseInt` reads a `0x` prefix as hexadecimal |
| Numbers.NotANumber | src/session/sessionManager.js:155 | `parseInt` of the empty string and of `abc` is `NaN` |
| UrlRewriter.EncodeURL | src/rewriter/urlRewriter.js:64-65 | the token of a URL uses only URL-safe base64 characters |
| UrlRewriter.Pad | src/rewriter/urlRewriter.js:435-438 | the padded token extends the token with fewer than four `=` until its length in UTF-16 code units is a multiple of four |
| UrlRewriter.ToStandardAlphabet | src/rewriter/urlRewriter.js:440 | same length; `-` becomes `+`, `_` becomes `/`, every other character is kept |
| UrlRewriter.DecodeURL | src/rewriter/urlRewriter.js:432-445 | `decodeURL` reads a token as the UTF-8 text of Node's base64 decoding of the token itself, read by the low bytes of its UTF-16 code units: the added padding and the alphabet mapping change nothing |
| UrlRewriter.SextetsStandardAlphabet | src/rewriter/urlRewriter.js:440-441 | mapping `-` to `+` and `_` to `/` leaves the values the decoder reads unchanged, for any text |
| UrlRewriter.DecodeEncodeURL | src/rewriter/urlRewriter.js:64-65 | `decodeURL` inverts the token of every URL string |
| UrlRewriter.IsDomainBlocked | src/rewriter/urlRewriter.js:76-82 | a hostname is blocked if and only if it equals a listed domain or ends with `.` plus one |
| UrlRewriter.LabelBoundary | src/rewriter/urlRewriter.js:78-81 | `notexample.com` is not under `example.com`; `www.example.com` is |
| UrlRewriter.BaseDirectory | src/rewriter/urlRewriter.js:51 | the base path is the longest prefix of the pathname ending in `/` |
| UrlRewriter.Resolve | src/rewriter/urlRewriter.js:39-53 | absolute references are kept; other references end with the reference text and start with the base protocol; the result is missing exactly when the base cannot be parsed |
| UrlRewriter.RewriteURL | src/rewriter/urlRewriter.js:18-70 | passthrough references are returned as is; `#` if and only if the resolved host is blocked; otherwise `/proxy/` and the token of the resolved URL, or the reference unchanged when resolution throws |
| UrlRewriter.RewriteIdempotent | src/rewriter/urlRewriter.js:33-36 | rewriting an already rewritten reference changes nothing |
| UrlRewriter.RewrittenTokenDecodes | src/rewriter/urlRewriter.js:63-65 | the token of a rewritten reference decodes to the resolved absolute URL |
| UrlRewriter.DotSegmentsKept | src/rewriter/urlRewriter.js:48-53 | `../img.png` against `https://ex.com/dir/page.html` is proxied as `https://ex.com/dir/../img.png` |
| UrlRewriter.ResolveRelative | src/rewriter/urlRewriter.js:48-53 | a relative path is appended to the protocol, host and base directory |
| UrlRewriter.ScriptInsertionPoint | src/rewriter/urlRewriter.js:418-425 | when `</head>` occurs, the point is its first occurrence; otherwise, when `<body>` occurs, the point is just after its first occurrence; otherwise it is the start |
| UrlRewriter.InjectProxyScript | src/rewriter/urlRewriter.js:418-425 | the document with the script inserted at the insertion point, or in front of everything when neither tag occurs |
| UrlRewriter.InjectBeforeHead | src/rewriter/urlRewriter.js:419-420 | the script goes just before the first `</head>` |
| UrlRewriter.InjectAfterBody | src/rewriter/urlRewriter.js:421-422 | without `</head>`, the script goes just after the first `<body>` |
| UrlRewriter.EjectProxyScript | src/rewriter/urlRewriter.js:418-425 | removing the script at the insertion point gives the original document back |
| UrlRewriter.SplitSpacesPieces | src/rewriter/urlRewriter.js:132 | `split(/\s+/)`: the fields joined with one space give the input with every white-space run squeezed to one space; the first field is empty exactly when the input is empty or starts with white space, the last exactly when it is empty or ends with white space |
| UrlRewriter.SplitSpacesIsSplitSqueeze | src/rewriter/urlRewriter.js:132 | splitting at white-space runs is splitting the squeezed text at single spaces |
| UrlRewriter.CandidateWithDescriptor | src/rewriter/urlRewriter.js:129-139 | a `srcset` candidate `url descriptor` becomes the rewritten URL, one space, and the descriptor |
| UrlRewriter.CandidateWithoutDescriptor | src/rewriter/urlRewriter.js:129-139 | a candidate without a descriptor becomes the rewritten URL alone |
| UrlRewriter.SrcsetIsCandidateWise | src/rewriter/urlRewriter.js:129-139 | a `srcset` is rewritten candidate by candidate and joined with `, ` |
| UrlRewriter.RewriteSrcset | src/rewriter/urlRewriter.js:129-139 | a `srcset` value without a comma is a single candidate and is rewritten as one |
| UrlRewriter.WebSocketLiteralToken | src/rewriter/urlRewriter.js:281-295 | an allowed `wss://` literal becomes `/ws/` and the token of the `http://` form of its address |
| UrlRewriter.RewriteWebSocketURL | src/rewriter/urlRewriter.js:281-295 | for the `http://` form of the literal's address: `/ws/` and its token when it resolves to an allowed host; `#` when it resolves to a blocked one; otherwise, when `rewriteURL` returns it as is (it contains `/proxy/`, or it does not resolve), the address under its own `ws` or `wss` scheme with its first `/proxy/` turned into `/ws/` |
| UrlRewriter.WsProxyPath | src/rewriter/urlRewriter.js:287-289 | the scheme swap and the first `/proxy/` replacement turn `/proxy/<token>` into `/ws/<token>` and keep `#` |
| UrlRewriter.RewriteFragment | src/rewriter/urlRewriter.js:88-306 | a text fragment is kept; a reference keeps its markup and gets its `rewriteURL` image, which `rewriteURL` does not change again; a `srcset` value is rewritten candidate by candidate; a WebSocket literal is rewritten only when the WebSocket feature is on |
| UrlRewriter.RewriteFragments | src/rewriter/urlRewriter.js:88-306 | one output fragment per input fragment, each related to its input as `RewriteFragment` states |
| UrlRewriter.RewriteHTML | src/rewriter/urlRewriter.js:88-210 | the rewritten document followed by the interception script at its insertion point |
| UrlRewriter.RewriteCSS | src/rewriter/urlRewriter.js:214-252 | the result renders fragments that each relate to the extracted fragment as `RewriteFragment` states, WebSocket literals untouched; CSS that extracts to text only is returned unchanged |
| UrlRewriter.RewriteJS | src/rewriter/urlRewriter.js:258-306 | the result renders fragments that each relate to the extracted fragment as `RewriteFragment` states, WebSocket literals rewritten according to the feature switch |
| UrlRewriter.RenderUnchanged | src/rewriter/urlRewriter.js:214-252 | when every fragment is text, the passes return the fragments unchanged |
| Security.Private172Range | src/security/security.js:26 | the `172.` pattern matches exactly the second octets 16 to 31 followed by a dot |
| Security.IsPrivateIP | src/security/security.js:19-37 | private if and only if the part before the first `:` starts with one of the IPv4 private prefixes |
| Security.PortIsIgnored | src/security/security.js:21 | a `:port` suffix does not change the answer |
| Security.PortedAddressPrivate | src/security/security.js:19-37 | `10.0.0.1:8080` is private |
| Security.NotPrivateAt | src/security/security.js:19-37 | a host that differs from every private prefix at some index is not private |
| Security.Block172Inside | src/security/security.js:26 | `172.16.0.1` and `172.31.255.255` are private |
| Security.Block172Outside | src/security/security.js:26 | `172.15.0.1` and `172.32.0.1` are not |
| Security.LoopbackV6NotPrivate | src/security/security.js:21-31 | `::1` is never private: the address is cut at its first `:` |
| Security.LinkLocalV6NotPrivate | src/security/security.js:21-33 | `fe80::1` and `fc00::1` are never private |
| Security.LocalhostCases | src/security/security.js:61-63 | the name test ignores letter case (`LocalHost`); any `127.` host matches |
| Security.LocalhostAnchored | src/security/security.js:61-63 | the name test is anchored: `localhost.example.com`, `sub.localhost` and `::1` do not match |
| Security.ReasonKey | src/security/security.js:43-82 | every refusal reason has an `error.` translation key |
| Security.IsBlockedURL | src/security/security.js:43-82 | invalid URL exactly when parsing fails; otherwise the first check that holds, in the order private address, metadata endpoint, localhost, blocked domain, `file:` scheme; allowed when none holds |
| Security.LocalhostOnlyByName | src/security/security.js:49-64 | the localhost reason is only ever given for the name `localhost` in any case: `127.` hosts are already private |
| Security.PrivateComesFirst | src/security/security.js:49-59 | `127.0.0.1` and `169.254.169.254` are refused as private addresses before any later check |
| Security.AlibabaMetadataBlocked | src/security/security.js:54-59 | with the default lists, `100.100.100.200` is refused as a metadata endpoint |
| Security.AlibabaNotPrivate | src/security/security.js:19-37 | `100.100.100.200` is not a private address |
| Security.DefaultListsAlibaba | src/security/security.js:55-57 | the default metadata list covers `100.100.100.200` |
| Security.WithScheme | src/security/security.js:223-226 | a URL without `http://` or `https://` gets `https://` in front; one with either is kept |
| Security.ValidateAndNormalizeURL | src/security/security.js:218-252 | empty gives `url_required`; unparsable gives `invalid_format`; blocked gives the reason's key; otherwise valid with the normalised `href` and hostname |
| Security.ValidMeansAllowed | src/security/security.js:218-252 | a valid result comes from a non-empty URL that `isBlockedURL` allows, and its host is neither private nor blocked |
| Security.UnreachableErrors | src/security/security.js:218-252 | with a parser that keeps an explicit `http(s)` scheme, validation never answers `invalid_protocol`, `invalid_url` or `file_protocol` |
| Security.DeleteAll | src/security/security.js:172-196 | the listed headers are absent and every other header is unchanged |
| Security.StripHeaders | src/security/security.js:172-196 | the deletion loop removes exactly the stripped headers, as `DeleteAll` states |
| Security.GetSanitizedHeaders | src/security/security.js:169-211 | an unparsable target throws; otherwise the stripping loop and the defaults give the sanitised header map |
| Security.SanitizedHeadersContents | src/security/security.js:169-211 | no stripped header survives; `host`, `user-agent`, `accept`, `accept-encoding`, `accept-language` take their computed values |
| Security.StrippedNotSet | src/security/security.js:172-204 | apart from `host`, no stripped header is one the sanitiser sets again |
| Security.UserAgentNotStripped | src/security/security.js:172-204 | `user-agent` is not stripped, so the browser's value is kept when no agent list is configured |
| Security.OnlySetHeadersChange | src/security/security.js:198-211 | setting the five headers on a stripped map changes only those five: `host`, the chosen agent or the kept one, and the `accept`, `accept-language` and `accept-encoding` values or their defaults |
| Security.AcceptDefaults | src/security/security.js:207 | a request without `accept` gets `*/*` |
| Security.Without | src/security/security.js:269-272 | removing an IP keeps exactly the other members |
| Security.WithoutNoDuplicates | src/security/security.js:269-272 | removal keeps the list duplicate-free and shortens it by one when the IP was listed |
| Security.Dedup | src/security/security.js:13 | no IP twice, and exactly the IPs of the list |
| Security.DedupAppend | src/security/security.js:13 | a `Set` built from a list keeps insertion order: a new value goes after the earlier ones, a repeated one changes nothing |
| Security.IpBlocklist.constructor | src/security/security.js:13 | the set is `Dedup` of the configured IPs: each once, exactly the configured ones, in the insertion order `DedupAppend` states |
| Security.IpBlocklist.Block | src/security/security.js:259-263 | the IP is added at the end once; a listed IP leaves the set unchanged |
| Security.IpBlocklist.Unblock | src/security/security.js:269-272 | the IP is removed and every other member kept |
| Security.IpBlocklist.GetBlockedIPs | src/security/security.js:278-280 | the members in insertion order |
| Security.IpBlocklist.Denies | src/security/security.js:136-163 | the middleware refuses a client if and only if its IP is in the set |
| Security.IpBlocklist.Stats | src/security/security.js:286-293 | the counts of blocked IPs, blocked domains, private ranges and metadata endpoints |
| Security.BlockUnblockScenario | src/security/security.js:259-272 | block then unblock leaves the IP out and every other IP as it was |
| SessionManager.Attributes | src/session/sessionManager.js:141-148 | one attribute per `;` field after the first, in order: the attribute at `i` is the trimmed field `i + 1` read as a key and an optional value |
| SessionManager.NameValue | src/session/sessionManager.js:141-145 | the name is the trimmed text before the first `=` of the trimmed first field; a value exists exactly when that field contains `=`, and it is the trimmed text between the first and second `=`; no attribute is set |
| SessionManager.ExpiryOf | src/session/sessionManager.js:150-156 | no value gives no date; `expires` gives the parsed date; `max-age` gives `now` plus the parsed seconds in milliseconds, exactly when `parseInt` yields a number and the date stays in the range of `Date` |
| SessionManager.ApplyAttribute | src/session/sessionManager.js:150-172 | an expiry attribute sets the expiry or throws; `domain`, `path` and `samesite` set their field to the lower-cased value; `httponly` and `secure` raise their flag; any other attribute leaves the cookie as it was |
| SessionManager.ApplyFields | src/session/sessionManager.js:147-173 | after the attribute run, `domain`, `path` and `sameSite` are the value of the last attribute of that name, or what they were; `httpOnly` and `secure` hold exactly when they held before or such an attribute occurs |
| SessionManager.ApplyThrows | src/session/sessionManager.js:147-173 | the attribute run throws exactly when some attribute is an expiry attribute without a valid date; otherwise the name and value are kept |
| SessionManager.RunAttributes | src/session/sessionManager.js:147-173 | the attribute loop computes the specification `ApplyAttributes` |
| SessionManager.ParsedOf | src/session/sessionManager.js:140-176 | `parseCookie` throws exactly when some attribute gives an invalid expiry; otherwise the name and value are those of `NameValue` |
| SessionManager.ParsedFields | src/session/sessionManager.js:140-176 | a parsed cookie's `domain`, `path` and `sameSite` are the value of the last attribute of that name, or unset; `httpOnly` and `secure` hold exactly when the attribute occurs |
| SessionManager.ParseCookie | src/session/sessionManager.js:140-176 | the attribute loop yields the specification `ParsedOf`: the cookie, or `None` where `toISOString` throws |
| SessionManager.NoneStaysNone | src/session/sessionManager.js:147-173 | once an attribute throws, the whole parse throws |
| SessionManager.LastExpiryWins | src/session/sessionManager.js:151-156 | the last `expires` or `max-age` attribute decides the expiry, whichever kind it is |
| SessionManager.NoExpiryAttribute | src/session/sessionManager.js:147-173 | without expiry attributes the cookie parses and its expiry stays unset |
| SessionManager.ValueStopsAtSecondEquals | src/session/sessionManager.js:143 | `a=b=c` gives name `a` and value `b`: the rest after a second `=` is dropped |
| SessionManager.ParseSimple | src/session/sessionManager.js:140-176 | `name=value` parses to that name and value with no attributes |
| SessionManager.StoreOne | src/session/sessionManager.js:93-107 | an empty header is skipped; a throwing parse aborts; a named cookie is set under its name with domain and path defaults |
| SessionManager.IncompleteStays | src/session/sessionManager.js:93-108 | after an aborting header the rest of the list is not stored |
| SessionManager.StoreAllDistinct | src/session/sessionManager.js:93-108 | storing keeps one entry per cookie name |
| SessionManager.StoreHeaders | src/session/sessionManager.js:93-108 | the header loop keeps one entry per cookie name and ends with the jar and the completion flag of `StoreAll` |
| SessionManager.StoreCookiesSpec | src/session/sessionManager.js:77-109 | only the target session's target domain changes |
| SessionManager.StoresUnderName | src/session/sessionManager.js:97-106 | a parsed named cookie is stored under its name with its value |
| SessionManager.LaterOverwrites | src/session/sessionManager.js:97-106 | of two cookies with one name, the later is kept |
| SessionManager.GetCookiesSpec | src/session/sessionManager.js:115-134 | unknown session or domain gives the empty header and an unchanged jar; other sessions are never touched |
| SessionManager.LiveExactly | src/session/sessionManager.js:125-129 | after reading, a name is in the jar if and only if it was there unexpired |
| SessionManager.HeaderOnlyLive | src/session/sessionManager.js:125-131 | every pair in the header comes from an unexpired cookie |
| SessionManager.LiveCookies | src/session/sessionManager.js:125-131 | the loop keeps exactly the unexpired cookies in jar order and collects one `name=value` pair for each of them |
| SessionManager.StoreThenGet | src/session/sessionManager.js:77-134 | a cookie stored for a fresh domain is the header read back |
| SessionManager.StoreThenGetPlain | src/session/sessionManager.js:77-134 | `name=value` stored, then read, gives `name=value` |
| SessionManager.MaxAgeZeroStillSent | src/session/sessionManager.js:126-155 | `Max-Age=0` expires at `now` and the cookie is still sent at `now`, not one millisecond later |
| SessionManager.CookieStore.constructor | src/session/sessionManager.js:68-71 | the jar starts empty |
| SessionManager.CookieStore.StoreCookies | src/session/sessionManager.js:77-109 | the header loop leaves the jar given by `StoreCookiesSpec`, and reports whether it ran to the end |
| SessionManager.CookieStore.GetCookies | src/session/sessionManager.js:115-134 | the header and the pruned jar are those of `GetCookiesSpec` |
| SessionManager.CookieStore.ClearSession | src/session/sessionManager.js:182-184 | the session's entry is deleted |
| SessionManager.CookieStore.GetStats | src/session/sessionManager.js:190-201 | the number of sessions and the total number of cookies |
| SessionManager.CleanupExact | src/session/sessionManager.js:39-47 | after cleanup, a session is kept if and only if it had not expired |
| SessionManager.MemorySessionStore.constructor | src/session/sessionManager.js:12-15 | the store starts empty with the given lifetime |
| SessionManager.MemorySessionStore.Get | src/session/sessionManager.js:17-26 | an expired session is reported missing and deleted; a live one is returned |
| SessionManager.MemorySessionStore.Set | src/session/sessionManager.js:28-33 | the session is stored with expiry `now + maxAge` |
| SessionManager.MemorySessionStore.Destroy | src/session/sessionManager.js:35-37 | the session is deleted |
| SessionManager.MemorySessionStore.Cleanup | src/session/sessionManager.js:39-47 | exactly the sessions that have not expired remain |
| SessionManager.ProxySession.EnsureSession | src/session/sessionManager.js:212-229 | an existing id is kept; a missing one is created with zero counters and the tier defaulting to `free`; the last-active time is set and the request count incremented |
| SessionManager.CheckBandwidthLimit | src/session/sessionManager.js:235-248 | `429` if and only if the usage is known and at least the tier's limit |
| SessionManager.RejectionMonotone | src/session/sessionManager.js:235-248 | more usage is never admitted where less was refused |
| SessionManager.TierChoice | src/session/sessionManager.js:236-237 | the premium limit applies only to the `premium` tier |
| ProxyRouter.TranslateKnown | src/proxy/proxyRouter.js:29-35 | for an id without `.` followed by nothing or a `.` suffix, `error.<id>` shows the non-empty translation of `<id>`, otherwise the key itself |
| ProxyRouter.UntranslatedKeys | src/proxy/proxyRouter.js:29-35 | with no error table, keys are shown raw |
| ProxyRouter.KindOf | src/proxy/proxyRouter.js:271-282 | HTML exactly when the type contains `text/html`; CSS exactly when it contains `text/css` but not `text/html`; script exactly when it contains `javascript` or `ecmascript` and neither of the others |
| ProxyRouter.IsStreamingContent | src/proxy/proxyRouter.js:346-359 | streamed if and only if the content type contains one of the listed markers |
| ProxyRouter.HtmlIsNotStreamed | src/proxy/proxyRouter.js:346-359 | `text/html` is buffered |
| ProxyRouter.ImagesAreStreamed | src/proxy/proxyRouter.js:346-359 | every `image/` type, SVG included, is streamed |
| ProxyRouter.BodyTag | src/proxy/proxyRouter.js:479-482 | the match starts at the first case-insensitive `<body` and ends at the next `>` |
| ProxyRouter.BodyTagExists | src/proxy/proxyRouter.js:479-482 | a case-insensitive `<body` with a later `>` always matches |
| ProxyRouter.TagFoundAtMatch | src/proxy/proxyRouter.js:483-485 | `indexOf` of the matched text finds the match itself |
| ProxyRouter.InjectProxyToolbar | src/proxy/proxyRouter.js:479-488 | the toolbar goes right after the body tag when a lowercase `<body` occurs and the tag matches, otherwise in front |
| ProxyRouter.UppercaseBodyPrepends | src/proxy/proxyRouter.js:479-488 | a page whose only body tag is `<BODY>` gets the toolbar in front |
| ProxyRouter.CopyTruthyGet | src/proxy/proxyRouter.js:178-212 | a header is copied exactly when it is listed and non-empty upstream |
| ProxyRouter.CopySafeHeaders | src/proxy/proxyRouter.js:181-195 | the loop copies every listed header that is non-empty upstream, and no other |
| ProxyRouter.ForwardedGet | src/proxy/proxyRouter.js:178-212 | the handler writes `nosniff`, `SAMEORIGIN` and the listed non-empty upstream headers, and no other header |
| ProxyRouter.CopyResponseHeaders | src/proxy/proxyRouter.js:178-212 | the copy loop and the three range tests build `ForwardedHeaders` |
| ProxyRouter.Admit | src/proxy/proxyRouter.js:91-329 | a validation refusal gives the `403` `access_denied` page with the translated error; a validated URL the URL constructor rejects gives the `500` page; one `isBlockedURL` refuses gives the `403` `blocked_site` page with the translated reason; an allowed one is admitted with its parsed record |
| ProxyRouter.AdmittedIsSafe | src/proxy/proxyRouter.js:102-122 | an admitted host is not localhost, not private, not a metadata endpoint, not blocked |
| ProxyRouter.SecondCheckRedundant | src/proxy/proxyRouter.js:115-122 | when the parser reads an `href` back unchanged, the `blocked_site` page never appears |
| ProxyRouter.PlanRequest | src/proxy/proxyRouter.js:125-151 | the jar's cookie header when non-empty, the accept defaults, the scheme's default port, the path and query, the browser's method, the other sanitised headers unchanged |
| ProxyRouter.UpstreamCookiesFromJar | src/proxy/proxyRouter.js:125-133 | the browser's own `Cookie` header never reaches the upstream server |
| ProxyRouter.Respond | src/proxy/proxyRouter.js:155-318 | redirects exactly for the redirect statuses with a location; error pages only `413`, `500`, `502`, `504`; forwarded replies keep the upstream status with the forwarded headers, buffered ones with the UTF-8 length of the body |
| ProxyRouter.ForwardHeadersBounded | src/proxy/proxyRouter.js:178-289 | the headers the handler writes for a forwarded reply include both security headers and none outside the copied lists |
| ProxyRouter.BufferedContentLength | src/proxy/proxyRouter.js:285-289 | the `content-length` the handler writes is the decimal UTF-8 byte length of the body it sends |
| ProxyRouter.OversizeSkipsRewriting | src/proxy/proxyRouter.js:259-265 | an oversized buffered body gives `413` whatever the rewriter would do |
| ProxyRouter.Transform | src/proxy/proxyRouter.js:267-282 | HTML gets the rewriter and the toolbar; CSS and JavaScript are the renderings of their fragments rewritten as `RewriteFragment` states, JavaScript only when its rewriting is on; any other body is kept |
| ProxyRouter.BufferedContent | src/proxy/proxyRouter.js:242-290 | HTML gets the rewriter, the interception script and the toolbar; CSS and JavaScript their passes; other text passes unchanged |
| ProxyRouter.PlainTextRoundTrip | src/proxy/proxyRouter.js:242-290 | a buffered body of no rewritten kind reaches the browser exactly as sent |
| ProxyRouter.HandleProxy | src/proxy/proxyRouter.js:84-330 | a refusal issues no request and leaves the jar; an admitted target is fetched with the jar's cookies as of `requestNow` and answered by `Respond`, or uncaught when the cookie parse throws; the response's cookies are stored as of `responseNow` |
| ProxyRouter.FinishProxy | src/proxy/proxyRouter.js:153-318 | with a session and `set-cookie`, the jar takes the stored cookies and a throwing parse leaves no reply; otherwise the jar is unchanged; then the reply is `Respond` |
| ProxyRouter.Browse | src/proxy/proxyRouter.js:63-78 | an invalid URL redisplays the index with the translated error; a valid one redirects with `302` to `/proxy/` and a token that decodes to the normalised URL |
| ProxyRouter.BrowseThenProxy | src/proxy/proxyRouter.js:63-122 | the address the form redirects to is admitted by the proxy route |
| ProxyRouter.BrowseRoute | src/proxy/proxyRouter.js:63-78 | the reply is `Browse`; a session with an id keeps its id, creation time, usage and tier; one without gets the new id, the creation time, zero usage, the tier defaulting to `free` and a request count of one; the last-active time is set and the count incremented |
| WebSocketHandler.CheckWebSocketAllowed | src/proxy/websocketHandler.js:158-183 | allowed if and only if the host is under no blocked domain and starts with none of the five private prefixes |
| WebSocketHandler.WsRefusalImpliesHttpRefusal | src/proxy/websocketHandler.js:158-183 | a host the WebSocket check refuses is blocked or private for HTTP too |
| WebSocketHandler.WsAdmitsWhatHttpRefuses | src/proxy/websocketHandler.js:166-180 | `0.0.0.0` and `100.100.100.200` pass the WebSocket check; HTTP refuses `0.0.0.0` as private |
| WebSocketHandler.ToHttp | src/proxy/websocketHandler.js:57 | a leading `ws` becomes `http`; other text is unchanged |
| WebSocketHandler.ToWs | src/proxy/websocketHandler.js:69 | a leading `http` becomes `ws`; other text is unchanged |
| WebSocketHandler.SwapRoundTrip | src/proxy/websocketHandler.js:57-69 | converting a `ws` URL to `http` and back gives it back |
| WebSocketHandler.TargetOf | src/proxy/websocketHandler.js:39-44 | a target exists exactly when the `url` parameter is non-empty, and it is the parameter's base64url decoding read as UTF-8 |
| WebSocketHandler.Admit | src/proxy/websocketHandler.js:38-86 | `1002` for a bad request URL or a missing target; the constructor exception exactly when the target is unparsable; `1008` exactly when the target is refused; `1011` exactly when it is allowed but the upstream socket cannot open; a connection exactly otherwise, with the first user agent and the target origin |
| WebSocketHandler.RefusedBeforeConnecting | src/proxy/websocketHandler.js:61-65 | a refused target never connects |
| WebSocketHandler.SecureTargetKeepsScheme | src/proxy/websocketHandler.js:57-69 | a `wss` target is connected as `wss` |
| Logger.MaskV4 | src/utils/logger.js:69-71 | the fields are the first three dot fields of the address, then `0` |
| Logger.MaskV6 | src/utils/logger.js:73-76 | the fields are the first four colon fields, then two empty ones |
| Logger.AnonymizeIP | src/utils/logger.js:66-78 | missing or empty gives `unknown`; a dotted address masks its last field; a colon address keeps four groups and `::`; anything else is returned as is |
| Logger.MaskedV4IsFixedPoint | src/utils/logger.js:66-78 | masking an address with at least three dot fields again changes nothing |
| Logger.MaskedV6IsFixedPoint | src/utils/logger.js:66-78 | masking a dot-free address with at least four colon fields again changes nothing |
| Logger.MappedAddressMaskedAsV4 | src/utils/logger.js:69-71 | an IPv4-mapped IPv6 address is masked as a dotted one: the last octet becomes `0` |
| AdminRouter.Credentials | src/admin/adminRouter.js:24-26 | the `:` fields of the decoded token after `Basic ` |
| AdminRouter.AdminAuth | src/admin/adminRouter.js:16-33 | `401` `Authentication required` for a missing or non-Basic header; for a Basic header, passes exactly when the first two fields are the configured user and password, and otherwise `401` `Invalid credentials`; every challenge carries the realm |
| AdminRouter.PayloadRoundTrip | src/admin/adminRouter.js:24-26 | the decoded fields of a `Basic` header are the `:` fields of its payload |
| AdminRouter.CredentialsChecked | src/admin/adminRouter.js:16-33 | a header built from `user:password` passes if and only if both are the configured ones |
| AdminRouter.TrailingFieldsIgnored | src/admin/adminRouter.js:24-27 | `user:password:extra` passes like `user:password` |
| AdminRouter.ColonPasswordUnmatchable | src/admin/adminRouter.js:24-27 | a configured password containing `:` never passes |
| AdminRouter.WithDomain | src/admin/adminRouter.js:136-138 | the domain is in the list afterwards; a listed domain leaves the list unchanged |
| AdminRouter.FirstIndex | src/admin/adminRouter.js:160 | the index `indexOf` finds: the domain is there and nowhere before it |
| AdminRouter.WithoutFirst | src/admin/adminRouter.js:160-163 | a list without the domain is returned unchanged; otherwise the element at the first index of the domain is cut out, so the list loses one copy of it and nothing else |
| AdminRouter.BlockIdempotent | src/admin/adminRouter.js:129-147 | blocking twice equals blocking once |
| AdminRouter.UnblockUndoesBlock | src/admin/adminRouter.js:129-172 | unblocking a freshly blocked domain restores the list |
| AdminRouter.UnblockRemoves | src/admin/adminRouter.js:153-172 | in a duplicate-free list, exactly the domain is removed |
| AdminRouter.BlockedDomainIsGuarded | src/admin/adminRouter.js:129-147 | after blocking, the domain and all its subdomains are refused by the rewriter |
| AdminRouter.Toggled | src/admin/adminRouter.js:185-188 | an existing feature takes the value, the others keep theirs, and no feature is added |
| AdminRouter.AdminConfig.BlockDomain | src/admin/adminRouter.js:129-147 | `400` for a missing or empty domain; otherwise the domain is added unless listed; the features are untouched |
| AdminRouter.AdminConfig.UnblockDomain | src/admin/adminRouter.js:153-172 | `400` for a missing or empty domain; otherwise its first occurrence is removed; the features are untouched |
| AdminRouter.AdminConfig.ToggleFeature | src/admin/adminRouter.js:178-194 | `400` for a missing feature name or a non-boolean `enabled`; otherwise success, and only that switch changes, if it exists |
| AdminRouter.BlockIp | src/admin/adminRouter.js:85-101 | `400` for an empty IP; otherwise the IP is added to the blocklist |
| AdminRouter.UnblockIp | src/admin/adminRouter.js:107-123 | `400` for an empty IP; otherwise the IP is removed from the blocklist |

## Left out

- WHATWG URL parsing and serialisation are not modelled: `new URL` is the parameter `parse`. The record it returns carries `protocol`, `hostname`, `port`, `pathname` and `href`. `origin` is modelled as the protocol, `//` and the host.
- The regular expressions of `rewriteHTML`, `rewriteCSS` and `rewriteJS` are not written out. They become the extraction parameter, which cuts a document into text and references. The `$` patterns of `String.prototype.replace` are not modelled either.
- The markup of the interception script and of the toolbar is not modelled. Both are text parameters.
- `toLowerCase` is modelled on ASCII only; `trim` and `\s` use JavaScript's white-space and line-terminator set.
- JavaScript strings are UTF-16 and may hold a lone surrogate; the model's strings are sequences of Unicode scalar values, so a lone surrogate cannot be represented. Node encodes one as `EF BF BD` (U+FFFD) under `Buffer.from`, and `Utf8.DecodeEncode` holds for scalar strings only.
- `new Date`, `toISOString` and `Date.now()` are not modelled: they become `parseDate`, and `now` or, in `ProxyRouter.HandleProxy`, `requestNow` and `responseNow`. The ISO text of an expiry is represented by its millisecond value.
- `Math.random()` is not modelled: the user agent is chosen by the index `pick`.
- The upstream HTTP exchange, decompression, streaming and stream errors are not modelled. The outcome is a value: failed, timed out, or answered with a body, or `None` where the stream failed.
- The second reply written after a timeout on an already answered request is not modelled.
- The rate limiters and the `setInterval` cleanup timers are not modelled; they are run-time infrastructure.
- `trackBandwidth` is not modelled. It is never installed, so nothing increases the usage. `GET /proxy` reads the session saved by `POST /browse`, whose `ensureSession` sets the usage to `0` (`src/session/sessionManager.js:220`), or a session without usage. Either way its bandwidth gate passes.
- `req.session = {}` is not modelled: the session record is given.
- `POST /proxy/*` (its fixed `501`) is not modelled.
- The WebSocket relay, its ping timer and close propagation are not modelled. This is socket I/O.
- Winston transports and logging calls are not modelled. Only `anonymizeIP` is.
- `toolsRouter`, `app.js` and `config.js` are not modelled. The configuration values appear as parameters.
- The administration dashboard, statistics, log and clear-sessions routes are not modelled. They only read state or call the stores modelled above.
- The rate-limit route is not modelled. It assigns `config.rateLimitWindow` and `config.rateLimitMax` (`src/admin/adminRouter.js:203-208`), which nothing reads after the limiters are built at start-up (`src/security/security.js:88-92`), so it changes no modelled behaviour.
- The application-wide middleware of `src/app.js` is not modelled: `helmet`, `cors`, `compression` and `securityMiddleware` (`src/app.js:35-56`, `src/app.js:93`). They add response headers, and `compression` replaces `content-length`. The header properties of `ProxyRouter` are about the headers the route handler writes.
- JSON body values that are not strings are not modelled. The body's `domain` and `ip` are optional strings.
- AdminRouter.AdminConfig.ToggleFeature: `enabled` is an optional boolean, so a non-boolean body value is represented as a missing one.
- WebSocketHandler.Admit: whether the upstream socket opens is the parameter `opens`. An uncaught exception is the outcome `Uncaught`; the end of the process that follows is not modelled.
