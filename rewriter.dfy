/**
 * The proxy's reference rewriter (`URLRewriter` in src/rewriter/urlRewriter.js):
 * the URL codec behind `/proxy/<token>`, `rewriteURL`, the domain blocklist it
 * consults, script injection, the srcset pass, and the tag, CSS and JavaScript
 * passes as maps of `rewriteURL` over the references they extract.
 */
module UrlRewriter {
  import opened Wrappers
  import opened Strings
  import opened Urls
  import Utf8
  import Base64

  // ---------------------------------------------------------------- URL codec

  /** `Buffer.from(url).toString('base64url')`: the token after `/proxy/`. */
  function EncodeURL(url: string): (token: string)
    ensures forall i :: 0 <= i < |token| ==> Base64.IsUrlSafe(token[i])
  {
    Base64.Encode(Utf8.Encode(url))
  }

  /** The `=` padding `decodeURL` appends: up to a multiple of four characters. */
  function Pad(token: string): (r: string)
    ensures |Base64.LowBytes(r)| % 4 == 0
    ensures StartsWith(r, token)
    ensures forall i :: |token| <= i < |r| ==> r[i] == '='
    ensures |r| < |token| + 4
  {
    // The JavaScript `length` counts UTF-16 code units.
    var padding := 4 - |Base64.LowBytes(token)| % 4;
    var pads := seq(padding, _ => '=');
    Base64.LowBytesConcat(token, pads);
    Base64.LowBytesLatin1(pads);
    if padding != 4 then token + pads else token
  }

  /** `replace(/-/g, '+').replace(/_/g, '/')`: back to the standard alphabet. */
  function ToStandardAlphabet(s: string): (r: string)
    ensures |r| == |s|
    ensures forall i :: 0 <= i < |s| ==>
      r[i] == (if s[i] == '-' then '+' else if s[i] == '_' then '/' else s[i])
  {
    if s == [] then []
    else [if s[0] == '-' then '+' else if s[0] == '_' then '/' else s[0]] + ToStandardAlphabet(s[1..])
  }

  /** `URLRewriter.decodeURL`: pad, map the alphabet back, base64-decode, read as UTF-8.
    * Node's decoders never throw, so neither does this; and since Node's base64 decoder
    * is lenient, padding and the alphabet mapping are redundant: the bytes are those of
    * a plain `base64url` decode of the token. */
  function DecodeURL(token: string): (url: string)
    ensures url == Utf8.Decode(Base64.Decode(token))
  {
    var p := Pad(token);
    assert p == token + p[|token|..];
    Base64.SextetsStopAtPad(token, p[|token|..]);
    SextetsStandardAlphabet(p);
    Utf8.Decode(Base64.Decode(ToStandardAlphabet(p)))
  }

  /** The alphabet mapping does not change the 6-bit values Node's decoder reads. */
  lemma {:induction false} SextetsStandardAlphabet(s: string)
    ensures Base64.Sextets(ToStandardAlphabet(s)) == Base64.Sextets(s)
  {
    if s != [] {
      var t := ToStandardAlphabet(s);
      assert t[1..] == ToStandardAlphabet(s[1..]);
      SextetsStandardAlphabet(s[1..]);
      var x, y := Base64.LowBytes(t[1..]), Base64.LowBytes(s[1..]);
      assert Base64.LowBytes(t) == Base64.UnitBytes(t[0]) + x;
      assert Base64.LowBytes(s) == Base64.UnitBytes(s[0]) + y;
      if s[0] == '-' || s[0] == '_' {
        // One byte each, with the same value, and neither is `=`.
        assert (Base64.UnitBytes(t[0]) + x)[1..] == x;
        assert (Base64.UnitBytes(s[0]) + y)[1..] == y;
      } else {
        Base64.ByteSextetsBehind(Base64.UnitBytes(s[0]), x, y);
      }
    }
  }

  /** Round trip: `decodeURL` inverts the token of any URL string. */
  lemma DecodeEncodeURL(url: string)
    ensures DecodeURL(EncodeURL(url)) == url
  {
    Base64.DecodeEncode(Utf8.Encode(url));
    Utf8.DecodeEncode(url);
  }

  // ------------------------------------------------------------ domain check

  /** `hostname === domain || hostname.endsWith('.' + domain)`. */
  predicate MatchesDomain(hostname: string, domain: string) {
    hostname == domain || EndsWith(hostname, "." + domain)
  }

  /** `isDomainBlocked`: some configured domain is the hostname or a parent of it. */
  function IsDomainBlocked(hostname: string, blocked: seq<string>): (r: bool)
    ensures r <==> exists i :: 0 <= i < |blocked| && MatchesDomain(hostname, blocked[i])
  {
    if blocked == [] then false
    else MatchesDomain(hostname, blocked[0]) || IsDomainBlocked(hostname, blocked[1..])
  }

  /** The match is on a label boundary: `notexample.com` is not under `example.com`. */
  lemma LabelBoundary()
    ensures !MatchesDomain("notexample.com", "example.com")
    ensures MatchesDomain("www.example.com", "example.com")
  {
    assert "notexample.com"[2] == 't';
    assert "www.example.com"[15 - 12..] == ".example.com";
  }

  // ---------------------------------------------------------- rewriteURL

  /** References `rewriteURL` returns unchanged before resolving anything: the empty
    * string, `data:`, `javascript:`, `mailto:`, `tel:` and `#` references, and anything
    * already containing `/proxy/`. */
  predicate IsPassthrough(ref: string) {
    ref == ""
    || StartsWith(ref, "data:") || StartsWith(ref, "javascript:") || StartsWith(ref, "mailto:")
    || StartsWith(ref, "tel:") || StartsWith(ref, "#")
    || Contains(ref, "/proxy/") || StartsWith(ref, "/proxy/")
  }

  /** `pathname.substring(0, pathname.lastIndexOf('/') + 1)`: the base's directory. */
  function BaseDirectory(pathname: string): (d: string)
    ensures d <= pathname
    ensures d == [] || d[|d| - 1] == '/'
    ensures '/' !in pathname[|d|..]
  {
    pathname[..LastIndexOf(pathname, '/') + 1]
  }

  /** The absolute URL string that `rewriteURL` builds, by plain concatenation (no
    * dot-segment removal); `None` where `new URL(baseUrl)` throws. */
  function Resolve(ref: string, baseUrl: string, parse: Parser): (r: Option<string>)
    ensures StartsWith(ref, "http://") || StartsWith(ref, "https://") ==> r == Some(ref)
    ensures r.None? <==> !(StartsWith(ref, "http://") || StartsWith(ref, "https://")) && parse(baseUrl).None?
    ensures r.Some? ==> EndsWith(r.value, ref)
    ensures r.Some? && r != Some(ref) ==> StartsWith(r.value, parse(baseUrl).value.protocol)
  {
    if StartsWith(ref, "http://") || StartsWith(ref, "https://") then Some(ref)
    else
      match parse(baseUrl)
      case None => None
      case Some(b) =>
        if StartsWith(ref, "//") then Some(b.protocol + ref)
        else if StartsWith(ref, "/") then Some(b.protocol + "//" + b.Host() + ref)
        else Some(b.protocol + "//" + b.Host() + BaseDirectory(b.pathname) + ref)
  }

  /** The reference resolves, parses, and its hostname is on the blocklist. */
  predicate ResolvesBlocked(ref: string, baseUrl: string, blocked: seq<string>, parse: Parser) {
    && Resolve(ref, baseUrl, parse).Some?
    && parse(Resolve(ref, baseUrl, parse).value).Some?
    && IsDomainBlocked(parse(Resolve(ref, baseUrl, parse).value).value.hostname, blocked)
  }

  /** The reference resolves to an absolute URL that parses and is not blocked. */
  predicate ResolvesAllowed(ref: string, baseUrl: string, blocked: seq<string>, parse: Parser) {
    && Resolve(ref, baseUrl, parse).Some?
    && parse(Resolve(ref, baseUrl, parse).value).Some?
    && !IsDomainBlocked(parse(Resolve(ref, baseUrl, parse).value).value.hostname, blocked)
  }

  /** `URLRewriter.rewriteURL`; `rewriteURL`'s `catch` (a base or an absolute URL that does
    * not parse) returns the reference unchanged. */
  function RewriteURL(ref: string, baseUrl: string, blocked: seq<string>, parse: Parser): (r: string)
    ensures IsPassthrough(ref) ==> r == ref
    ensures !IsPassthrough(ref) ==> (r == "#" <==> ResolvesBlocked(ref, baseUrl, blocked, parse))
    ensures !IsPassthrough(ref) && ResolvesAllowed(ref, baseUrl, blocked, parse) ==>
      r == "/proxy/" + EncodeURL(Resolve(ref, baseUrl, parse).value)
    ensures (!IsPassthrough(ref) && !ResolvesBlocked(ref, baseUrl, blocked, parse)
             && !ResolvesAllowed(ref, baseUrl, blocked, parse)) ==> r == ref
  {
    if ref == "" then ref
    else if StartsWith(ref, "data:") || StartsWith(ref, "javascript:") || StartsWith(ref, "mailto:")
         || StartsWith(ref, "tel:") || StartsWith(ref, "#") then ref
    else if Contains(ref, "/proxy/") || StartsWith(ref, "/proxy/") then ref
    else
      match Resolve(ref, baseUrl, parse)
      case None => ref
      case Some(absoluteUrl) =>
        match parse(absoluteUrl)
        case None => ref
        case Some(urlObj) =>
          if IsDomainBlocked(urlObj.hostname, blocked) then "#"
          else "/proxy/" + EncodeURL(absoluteUrl)
  }

  /** Every output of `rewriteURL` is a fixed point: rewriting twice is rewriting once. */
  lemma RewriteIdempotent(ref: string, baseUrl: string, blocked: seq<string>, parse: Parser)
    ensures var r := RewriteURL(ref, baseUrl, blocked, parse);
            RewriteURL(r, baseUrl, blocked, parse) == r
  {
    var r := RewriteURL(ref, baseUrl, blocked, parse);
    if r != ref && r != "#" {
      var t := EncodeURL(Resolve(ref, baseUrl, parse).value);
      assert r == "/proxy/" + t;
      assert r[0..7] == "/proxy/";
      ContainsAt(r, "/proxy/", 0);
    } else if r == "#" {
      assert StartsWith(r, "#");
    }
  }

  /** A rewritten reference names its resolved URL: decoding the token gives it back. */
  lemma RewrittenTokenDecodes(ref: string, baseUrl: string, blocked: seq<string>, parse: Parser)
    requires !IsPassthrough(ref) && ResolvesAllowed(ref, baseUrl, blocked, parse)
    ensures var r := RewriteURL(ref, baseUrl, blocked, parse);
            StartsWith(r, "/proxy/") && DecodeURL(r[7..]) == Resolve(ref, baseUrl, parse).value
  {
    var abs := Resolve(ref, baseUrl, parse).value;
    DecodeEncodeURL(abs);
    var r := RewriteURL(ref, baseUrl, blocked, parse);
    assert r[7..] == EncodeURL(abs);
  }

  /** Relative resolution keeps `..` segments: with base `https://ex.com/dir/page.html`,
    * `../img.png` names `https://ex.com/dir/../img.png`, not `https://ex.com/img.png`. */
  lemma DotSegmentsKept(parse: Parser, blocked: seq<string>)
    requires parse("https://ex.com/dir/page.html")
             == Some(Url("https:", "ex.com", "", "/dir/page.html", "", "https://ex.com/dir/page.html"))
    requires parse("https://ex.com/dir/../img.png").Some?
    requires !IsDomainBlocked(parse("https://ex.com/dir/../img.png").value.hostname, blocked)
    ensures var r := RewriteURL("../img.png", "https://ex.com/dir/page.html", blocked, parse);
            r == "/proxy/" + EncodeURL("https://ex.com/dir/../img.png")
            && DecodeURL(r[7..]) == "https://ex.com/dir/../img.png"
  {
    var ref, base := "../img.png", "https://ex.com/dir/page.html";
    RelativeNotPassthrough();
    ResolveDotSegments(parse);
    RewrittenTokenDecodes(ref, base, blocked, parse);
  }

  lemma RelativeNotPassthrough()
    ensures !IsPassthrough("../img.png")
  {
    var ref := "../img.png";
    assert ref[..1] == "." && ref[..4] == "../i" && ref[..5] == "../im";
    assert !StartsWith(ref, "javascript:");
    assert "/proxy/"[4] == 'x';
    MissingChar(ref, "/proxy/", 4);
  }

  lemma ResolveDotSegments(parse: Parser)
    requires parse("https://ex.com/dir/page.html")
             == Some(Url("https:", "ex.com", "", "/dir/page.html", "", "https://ex.com/dir/page.html"))
    ensures Resolve("../img.png", "https://ex.com/dir/page.html", parse) == Some("https://ex.com/dir/../img.png")
  {
    var ref := "../img.png";
    RelativeReference(ref);
    var b := parse("https://ex.com/dir/page.html").value;
    assert b.protocol == "https:" && b.Host() == "ex.com" && b.pathname == "/dir/page.html";
    ResolveRelative(ref, "https://ex.com/dir/page.html", parse);
    DotSegmentsJoined();
  }

  lemma DotSegmentsJoined()
    ensures "https:" + "//" + "ex.com" + BaseDirectory("/dir/page.html") + "../img.png" == "https://ex.com/dir/../img.png"
  {
    BaseDirectoryExample();
  }

  lemma RelativeReference(ref: string)
    requires ref == "../img.png"
    ensures !StartsWith(ref, "http://") && !StartsWith(ref, "https://")
    ensures !StartsWith(ref, "//") && !StartsWith(ref, "/")
  {
    StartsWithDiffer(ref, ref, "http://", 0);
    StartsWithDiffer(ref, ref, "https://", 0);
    StartsWithDiffer(ref, ref, "//", 0);
    StartsWithDiffer(ref, ref, "/", 0);
  }

  /** A path-relative reference is appended to the base's directory. */
  lemma ResolveRelative(ref: string, baseUrl: string, parse: Parser)
    requires !StartsWith(ref, "http://") && !StartsWith(ref, "https://")
    requires !StartsWith(ref, "//") && !StartsWith(ref, "/")
    requires parse(baseUrl).Some?
    ensures var b := parse(baseUrl).value;
            Resolve(ref, baseUrl, parse) == Some(b.protocol + "//" + b.Host() + BaseDirectory(b.pathname) + ref)
  {
  }

  lemma BaseDirectoryExample()
    ensures BaseDirectory("/dir/page.html") == "/dir/"
  {
    var path := "/dir/page.html";
    assert path[4] == '/';
    assert forall k :: 4 < k < |path| ==> path[k] != '/';
    assert LastIndexOf(path, '/') == 4;
  }

  // ------------------------------------------------------ script injection

  /** Where `injectProxyScript` puts the script: before the first `</head>`, else after
    * the first literal `<body>`, else at the front. */
  function ScriptInsertionPoint(html: string): (p: nat)
    ensures p <= |html|
    ensures Contains(html, "</head>") ==>
      OccursAt(html, "</head>", p) && forall k :: 0 <= k < p ==> !OccursAt(html, "</head>", k)
    ensures !Contains(html, "</head>") && Contains(html, "<body>") ==>
      && p >= 6 && OccursAt(html, "<body>", p - 6)
      && forall k :: 0 <= k < p - 6 ==> !OccursAt(html, "<body>", k)
    ensures !Contains(html, "</head>") && !Contains(html, "<body>") ==> p == 0
  {
    if Contains(html, "</head>") then IndexOf(html, "</head>")
    else if Contains(html, "<body>") then IndexOf(html, "<body>") + 6
    else 0
  }

  /** `injectProxyScript`: the script spliced in at its insertion point, nothing else
    * changed (so cutting it out again gives the page back). The script text itself is
    * a parameter. */
  function InjectProxyScript(html: string, script: string): (r: string)
    ensures var p := ScriptInsertionPoint(html);
            r == html[..p] + script + html[p..]
    ensures !Contains(html, "</head>") && !Contains(html, "<body>") ==> r == script + html
  {
    if Contains(html, "</head>") then
      InjectBeforeHead(html, script);
      ReplaceFirst(html, "</head>", script + "</head>")
    else if Contains(html, "<body>") then
      InjectAfterBody(html, script);
      ReplaceFirst(html, "<body>", "<body>" + script)
    else script + html
  }

  lemma InjectBeforeHead(html: string, script: string)
    requires Contains(html, "</head>")
    ensures var p := IndexOf(html, "</head>");
            ReplaceFirst(html, "</head>", script + "</head>") == html[..p] + script + html[p..]
  {
    var p := IndexOf(html, "</head>");
    assert html[p..] == "</head>" + html[p + 7..];
  }

  lemma InjectAfterBody(html: string, script: string)
    requires Contains(html, "<body>")
    ensures var i := IndexOf(html, "<body>");
            ReplaceFirst(html, "<body>", "<body>" + script) == html[..i + 6] + script + html[i + 6..]
  {
    var i := IndexOf(html, "<body>");
    assert html[..i + 6] == html[..i] + "<body>";
  }

  /** Cutting the script out of an injected page gives the page back. */
  lemma EjectProxyScript(html: string, script: string)
    ensures var p := ScriptInsertionPoint(html);
            var r := InjectProxyScript(html, script);
            r[..p] + r[p + |script|..] == html
  {
    var p := ScriptInsertionPoint(html);
    var r := InjectProxyScript(html, script);
    assert r[..p] == html[..p];
    assert r[p + |script|..] == html[p..];
  }

  // ----------------------------------------------------------------- srcset

  /** `s` with every maximal run of whitespace replaced by one space. */
  function Squeeze(s: string): string
    decreases |s|
  {
    if s == [] then []
    else if IsSpace(s[0]) then " " + Squeeze(TrimStart(s))
    else [s[0]] + Squeeze(s[1..])
  }

  /** `s.split(/\s+/)`: the pieces between maximal runs of whitespace. */
  function SplitSpaces(s: string): (r: seq<string>)
    ensures |r| >= 1
    ensures forall i :: 0 <= i < |r| ==> NoSpace(r[i])
    decreases |s|
  {
    if s == [] then [""]
    else if IsSpace(s[0]) then [""] + SplitSpaces(TrimStart(s))
    else
      var rest := SplitSpaces(s[1..]);
      [[s[0]] + rest[0]] + rest[1..]
  }

  /** The pieces of `s.split(/\s+/)`, in order, are what is left of `s` once each run
    * of whitespace is squeezed to one space: joined with spaces they give it back. The
    * first piece is empty exactly when `s` is empty or starts with whitespace, and the
    * last exactly when it is empty or ends with whitespace. */
  lemma {:induction false} SplitSpacesPieces(s: string)
    ensures var r := SplitSpaces(s);
            && Join(r, " ") == Squeeze(s)
            && (r[0] == "" <==> s == [] || IsSpace(s[0]))
            && (r[|r| - 1] == "" <==> s == [] || IsSpace(s[|s| - 1]))
    decreases |s|
  {
    if s == [] {
    } else if IsSpace(s[0]) {
      var t := TrimStart(s);
      var rest := SplitSpaces(t);
      SplitSpacesPieces(t);
      var r := [""] + rest;
      assert SplitSpaces(s) == r;
      assert r[1..] == rest;
      assert Join(r, " ") == " " + Join(rest, " ");
      if t != [] {
        assert t[|t| - 1] == s[|s| - 1];
      } else {
        assert IsSpace(s[|s| - 1]);
      }
    } else {
      var rest := SplitSpaces(s[1..]);
      SplitSpacesPieces(s[1..]);
      var r := [[s[0]] + rest[0]] + rest[1..];
      assert SplitSpaces(s) == r;
      JoinExtendHead([s[0]], rest, " ");
      if |s| > 1 {
        assert s[1..][|s| - 2] == s[|s| - 1];
        if |rest| == 1 {
          assert !IsSpace(s[|s| - 1]);
        }
      }
    }
  }

  /** The pieces are determined by the squeezed string: splitting it at its single
    * spaces gives them, so no other sequence of whitespace-free pieces joins to it. */
  lemma SplitSpacesIsSplitSqueeze(s: string)
    ensures SplitSpaces(s) == Split(Squeeze(s), ' ')
  {
    var r := SplitSpaces(s);
    SplitSpacesPieces(s);
    assert IsSpace(' ');
    forall i, j | 0 <= i < |r| && 0 <= j < |r[i]| ensures r[i][j] != ' ' {
      assert NoSpace(r[i]);
    }
    SplitJoin(r, ' ');
  }

  /** One srcset candidate: trimmed, split on whitespace, its first token rewritten, its
    * second token (the descriptor) kept when present; further tokens are dropped. */
  function RewriteCandidate(candidate: string, baseUrl: string, blocked: seq<string>, parse: Parser): string {
    var tokens := SplitSpaces(Trim(candidate));
    var rewrittenUrl := RewriteURL(tokens[0], baseUrl, blocked, parse);
    if |tokens| > 1 && tokens[1] != "" then rewrittenUrl + " " + tokens[1] else rewrittenUrl
  }

  /** The srcset pass on one attribute value: split on `,`, rewrite each candidate,
    * rejoin with `", "`. A value without a comma is one candidate. */
  function RewriteSrcset(srcset: string, baseUrl: string, blocked: seq<string>, parse: Parser): (r: string)
    ensures ',' !in srcset ==> r == RewriteCandidate(srcset, baseUrl, blocked, parse)
  {
    var candidates := Split(srcset, ',');
    var rewritten := Join(seq(|candidates|, i requires 0 <= i < |candidates| =>
                              RewriteCandidate(candidates[i], baseUrl, blocked, parse)), ", ");
    if ',' in srcset then rewritten
    else SplitFirstNoSep(srcset, ','); rewritten
  }

  predicate AllSpace(w: string) {
    forall i :: 0 <= i < |w| ==> IsSpace(w[i])
  }

  lemma {:induction false} SplitSpacesWord(u: string, rest: string)
    requires NoSpace(u) && u != []
    requires rest == [] || IsSpace(rest[0])
    ensures SplitSpaces(u + rest) == [u + SplitSpaces(rest)[0]] + SplitSpaces(rest)[1..]
    decreases |u|
  {
    var S := SplitSpaces(rest);
    assert (u + rest)[0] == u[0] && !IsSpace(u[0]);
    assert (u + rest)[1..] == u[1..] + rest;
    if |u| > 1 {
      SplitSpacesWord(u[1..], rest);
      var R := SplitSpaces(u[1..] + rest);
      assert R[0] == u[1..] + S[0] && R[1..] == S[1..];
      assert [u[0]] + (u[1..] + S[0]) == u + S[0];
    } else {
      assert u[1..] + rest == rest;
      assert [u[0]] == u;
    }
  }

  /** Leading whitespace splits off one empty piece. */
  lemma SplitSpacesLeading(w: string, d: string)
    requires AllSpace(w) && w != []
    requires d == [] || !IsSpace(d[0])
    ensures SplitSpaces(w + d) == [""] + SplitSpaces(d)
  {
    assert (w + d)[0] == w[0];
    TrimStartPadded(w, d);
  }

  /** A word, a run of whitespace and a second word split into exactly the two words. */
  lemma SplitSpacesPair(u: string, w: string, d: string)
    requires NoSpace(u) && u != [] && NoSpace(d) && d != []
    requires AllSpace(w) && w != []
    ensures SplitSpaces(u + w + d) == [u, d]
  {
    assert u + w + d == u + (w + d);
    SplitSpacesLeading(w, d);
    SplitSpacesSingle(d);
    assert SplitSpaces(w + d) == ["", d];
    assert (w + d)[0] == w[0];
    SplitSpacesWord(u, w + d);
    assert u + "" == u;
  }

  /** A single word splits into itself. */
  lemma SplitSpacesSingle(u: string)
    requires NoSpace(u) && u != []
    ensures SplitSpaces(u) == [u]
  {
    SplitSpacesWord(u, []);
    assert u + [] == u;
  }

  /** A candidate `url descriptor`, padded with whitespace anywhere around or between,
    * becomes the rewritten URL, one space, and the same descriptor. */
  lemma CandidateWithDescriptor(w1: string, u: string, w: string, d: string, w2: string,
                                baseUrl: string, blocked: seq<string>, parse: Parser)
    requires AllSpace(w1) && AllSpace(w) && w != [] && AllSpace(w2)
    requires NoSpace(u) && u != [] && NoSpace(d) && d != []
    ensures RewriteCandidate(w1 + u + w + d + w2, baseUrl, blocked, parse)
            == RewriteURL(u, baseUrl, blocked, parse) + " " + d
  {
    var core := u + w + d;
    assert w1 + u + w + d + w2 == w1 + core + w2;
    assert core[0] == u[0];
    assert core[|core| - 1] == d[|d| - 1];
    TrimPadded(w1, core, w2);
    SplitSpacesPair(u, w, d);
  }

  /** A candidate with no descriptor becomes just the rewritten URL. */
  lemma CandidateWithoutDescriptor(w1: string, u: string, w2: string,
                                   baseUrl: string, blocked: seq<string>, parse: Parser)
    requires AllSpace(w1) && AllSpace(w2)
    requires NoSpace(u) && u != []
    ensures RewriteCandidate(w1 + u + w2, baseUrl, blocked, parse) == RewriteURL(u, baseUrl, blocked, parse)
  {
    TrimPadded(w1, u, w2);
    SplitSpacesSingle(u);
  }

  /** The srcset pass is candidate-wise: a comma-joined list of candidates becomes the
    * list of rewritten candidates joined with `", "`. */
  lemma SrcsetIsCandidateWise(candidates: seq<string>, baseUrl: string, blocked: seq<string>, parse: Parser)
    requires |candidates| >= 1
    requires forall i :: 0 <= i < |candidates| ==> ',' !in candidates[i]
    ensures RewriteSrcset(Join(candidates, ","), baseUrl, blocked, parse)
            == Join(seq(|candidates|, i requires 0 <= i < |candidates| =>
                      RewriteCandidate(candidates[i], baseUrl, blocked, parse)), ", ")
  {
    SplitJoin(candidates, ',');
  }

  // ------------------------------------------- tag, CSS and JavaScript passes

  /** A document as the regex passes see it: literal text, and the references they
    * extract, each with the markup before and after it as the pass writes it back. */
  datatype Fragment =
    | Text(text: string)
    | Reference(before: string, url: string, after: string)
    | Srcset(before: string, value: string, after: string)
    | WebSocketLiteral(before: string, url: string, after: string)

  /** The text of a fragment sequence. */
  function Render(fs: seq<Fragment>): string {
    if fs == [] then ""
    else
      var f := fs[0];
      var s := match f
        case Text(t) => t
        case Reference(b, u, a) => b + u + a
        case Srcset(b, v, a) => b + v + a
        case WebSocketLiteral(b, u, a) => b + u + a;
      s + Render(fs[1..])
  }

  /** The address of a `ws://` or `wss://` literal without its scheme. */
  function WsAddress(url: string): string {
    if StartsWith(url, "wss://") then url[6..] else if StartsWith(url, "ws://") then url[5..] else url
  }

  /** The `new WebSocket("ws…")` pass: `rewriteURL` on the `http://` form, then the scheme
    * put back and `/proxy/` turned into `/ws/`. An address that `rewriteURL` would proxy
    * becomes `/ws/` and the token of its `http://` form; a blocked one becomes `#`; one that
    * `rewriteURL` returns as is keeps its address under its own scheme, with its first
    * `/proxy/` turned into `/ws/`. */
  function RewriteWebSocketURL(url: string, baseUrl: string, blocked: seq<string>, parse: Parser): (r: string)
    ensures var h := "http://" + WsAddress(url);
            !IsPassthrough(h) && ResolvesAllowed(h, baseUrl, blocked, parse) ==> r == "/ws/" + EncodeURL(h)
    ensures var h := "http://" + WsAddress(url);
            !IsPassthrough(h) && ResolvesBlocked(h, baseUrl, blocked, parse) ==> r == "#"
    ensures var h := "http://" + WsAddress(url);
            IsPassthrough(h) || (!ResolvesAllowed(h, baseUrl, blocked, parse) && !ResolvesBlocked(h, baseUrl, blocked, parse)) ==>
              r == ReplaceFirst((if StartsWith(url, "wss:") then "wss" else "ws") + "://" + WsAddress(url), "/proxy/", "/ws/")
  {
    var h := "http://" + WsAddress(url);
    var protocol := if StartsWith(url, "wss:") then "wss" else "ws";
    var rewritten := RewriteURL(h, baseUrl, blocked, parse);
    assert h[..7] == "http://";
    HttpSwap(WsAddress(url), protocol);
    WsProxyPath(EncodeURL(h), protocol);
    ReplaceFirst(ReplacePrefix(rewritten, "http", protocol), "/proxy/", "/ws/")
  }

  /** The scheme step on an `http://` form puts the given scheme in front of the address. */
  lemma HttpSwap(address: string, protocol: string)
    ensures ReplacePrefix("http://" + address, "http", protocol) == protocol + "://" + address
  {
    var h := "http://" + address;
    assert h[..4] == "http" && h[4..] == "://" + address;
  }

  /** The scheme step leaves a `/proxy/` path or `#` alone, and the path step turns
    * `/proxy/` into `/ws/`. */
  lemma WsProxyPath(t: string, protocol: string)
    ensures ReplaceFirst(ReplacePrefix("/proxy/" + t, "http", protocol), "/proxy/", "/ws/") == "/ws/" + t
    ensures ReplaceFirst(ReplacePrefix("#", "http", protocol), "/proxy/", "/ws/") == "#"
  {
    var r := "/proxy/" + t;
    NotPrefix(r, "http", 0);
    NotPrefix("#", "http", 0);
    assert r[0..7] == "/proxy/";
    assert OccursAt(r, "/proxy/", 0);
    assert !OccursAt("#", "/proxy/", 0);
  }

  /** An allowed `wss://` literal is routed through `/ws/` with a token for the `http://`
    * form of its URL: the secure scheme is not carried in the token. */
  lemma WebSocketLiteralToken(rest: string, baseUrl: string, blocked: seq<string>, parse: Parser)
    requires !Contains("http://" + rest, "/proxy/")
    requires parse("http://" + rest).Some?
    requires !IsDomainBlocked(parse("http://" + rest).value.hostname, blocked)
    ensures RewriteWebSocketURL("wss://" + rest, baseUrl, blocked, parse)
            == "/ws/" + EncodeURL("http://" + rest)
  {
    var url := "wss://" + rest;
    assert url[..6] == "wss://" && url[6..] == rest;
    var abs := "http://" + rest;
    assert abs[..7] == "http://";
    StartsWithDiffer(abs, "http://", "data:", 0);
    StartsWithDiffer(abs, "http://", "javascript:", 0);
    StartsWithDiffer(abs, "http://", "mailto:", 0);
    StartsWithDiffer(abs, "http://", "tel:", 0);
    StartsWithDiffer(abs, "http://", "#", 0);
    StartsWithDiffer(abs, "http://", "/proxy/", 0);
    assert !IsPassthrough(abs);
  }

  /** What the passes make of one fragment: text is kept; a reference keeps its markup and
    * gets its `rewriteURL` image, which `rewriteURL` then leaves alone; a srcset value is
    * rewritten candidate by candidate; a WebSocket literal is rewritten only when the
    * WebSocket feature is on. */
  predicate MapsFragment(f: Fragment, g: Fragment, baseUrl: string, blocked: seq<string>, parse: Parser,
                         websockets: bool)
  {
    match f
    case Text(_) => g == f
    case Reference(b, u, a) =>
      && g.Reference? && g.before == b && g.after == a
      && g.url == RewriteURL(u, baseUrl, blocked, parse)
      && RewriteURL(g.url, baseUrl, blocked, parse) == g.url
    case Srcset(b, v, a) =>
      g.Srcset? && g.before == b && g.after == a && g.value == RewriteSrcset(v, baseUrl, blocked, parse)
    case WebSocketLiteral(b, u, a) =>
      if websockets then
        && g.WebSocketLiteral? && g.before == b && g.after == a
        && g.url == RewriteWebSocketURL(u, baseUrl, blocked, parse)
      else g == f
  }

  /** `rs` is `fs` after the passes, fragment by fragment. */
  predicate MapsFragments(fs: seq<Fragment>, rs: seq<Fragment>, baseUrl: string, blocked: seq<string>,
                          parse: Parser, websockets: bool)
  {
    |rs| == |fs| && forall i :: 0 <= i < |fs| ==> MapsFragment(fs[i], rs[i], baseUrl, blocked, parse, websockets)
  }

  /** One fragment after the passes. */
  function RewriteFragment(f: Fragment, baseUrl: string, blocked: seq<string>, parse: Parser,
                           websockets: bool): (g: Fragment)
    ensures MapsFragment(f, g, baseUrl, blocked, parse, websockets)
  {
    match f
    case Text(t) => f
    case Reference(b, u, a) =>
      RewriteIdempotent(u, baseUrl, blocked, parse);
      Reference(b, RewriteURL(u, baseUrl, blocked, parse), a)
    case Srcset(b, v, a) => Srcset(b, RewriteSrcset(v, baseUrl, blocked, parse), a)
    case WebSocketLiteral(b, u, a) =>
      if websockets then WebSocketLiteral(b, RewriteWebSocketURL(u, baseUrl, blocked, parse), a) else f
  }

  /** The passes change references only, one fragment at a time; since every rewritten
    * reference is a fixed point of `rewriteURL`, running the tag passes one after another
    * is harmless. */
  function RewriteFragments(fs: seq<Fragment>, baseUrl: string, blocked: seq<string>, parse: Parser,
                            websockets: bool): (r: seq<Fragment>)
    ensures MapsFragments(fs, r, baseUrl, blocked, parse, websockets)
  {
    seq(|fs|, i requires 0 <= i < |fs| => RewriteFragment(fs[i], baseUrl, blocked, parse, websockets))
  }

  /** What the regex passes do to text in which they find no reference: nothing. (Where
    * they do match, they also rewrite the markup around the reference: `<a\s+` becomes
    * `<a `, quotes become double quotes, `<script>` gains `data-original`; the extraction,
    * regular expressions included, is a parameter and those rewrites live in it.) */
  ghost predicate KeepsPlainText(extract: string -> seq<Fragment>) {
    forall s :: (forall i :: 0 <= i < |extract(s)| ==> extract(s)[i].Text?) ==> Render(extract(s)) == s
  }

  /** `rewriteHTML`: the tag and srcset passes, then the interception script. */
  function RewriteHTML(html: string, baseUrl: string, blocked: seq<string>, parse: Parser,
                       extract: string -> seq<Fragment>, script: string): (r: string)
    ensures var body := Render(RewriteFragments(extract(html), baseUrl, blocked, parse, false));
            var p := ScriptInsertionPoint(body);
            r == body[..p] + script + body[p..]
  {
    InjectProxyScript(Render(RewriteFragments(extract(html), baseUrl, blocked, parse, false)), script)
  }

  /** `rewriteCSS`: the `url()`, `@import` and `src:` passes; nothing is injected. A style
    * sheet in which the passes find no reference comes back unchanged. */
  function RewriteCSS(css: string, baseUrl: string, blocked: seq<string>, parse: Parser,
                      extract: string -> seq<Fragment>): (r: string)
    ensures exists rs :: MapsFragments(extract(css), rs, baseUrl, blocked, parse, false) && r == Render(rs)
    ensures KeepsPlainText(extract) && (forall i :: 0 <= i < |extract(css)| ==> extract(css)[i].Text?) ==>
      r == css
  {
    var rs := RewriteFragments(extract(css), baseUrl, blocked, parse, false);
    RenderUnchanged(extract(css), baseUrl, blocked, parse);
    Render(rs)
  }

  /** `rewriteJS`: the literal-argument passes; WebSocket literals only with the feature on. */
  function RewriteJS(js: string, baseUrl: string, blocked: seq<string>, parse: Parser,
                     extract: string -> seq<Fragment>, websockets: bool): (r: string)
    ensures exists rs :: MapsFragments(extract(js), rs, baseUrl, blocked, parse, websockets) && r == Render(rs)
  {
    Render(RewriteFragments(extract(js), baseUrl, blocked, parse, websockets))
  }

  /** The passes leave a fragment sequence without references as it is. */
  lemma RenderUnchanged(fs: seq<Fragment>, baseUrl: string, blocked: seq<string>, parse: Parser)
    ensures (forall i :: 0 <= i < |fs| ==> fs[i].Text?) ==> RewriteFragments(fs, baseUrl, blocked, parse, false) == fs
  {
    var r := RewriteFragments(fs, baseUrl, blocked, parse, false);
    assert forall i :: 0 <= i < |fs| ==> MapsFragment(fs[i], r[i], baseUrl, blocked, parse, false);
  }
}
